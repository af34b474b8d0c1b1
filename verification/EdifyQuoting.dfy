/** What quoted strings denote and how they are read back. */
module EdifyQuoting {
  import opened Bytes
  import opened Strings
  import opened EdifyTokenizer
  import opened EdifyRoundTrip

  // ---------------------------------------------------------------------------
  // Escaped texts
  // ---------------------------------------------------------------------------

  /** Printable text without backslash. */
  predicate PlainText(s: string) {
    forall i :: 0 <= i < |s| ==> ' ' <= s[i] <= '~' && s[i] != '\\'
  }

  predicate Printable(s: string) {
    forall i :: 0 <= i < |s| ==> ' ' <= s[i] <= '~'
  }

  lemma {:induction false} EscapeIsPrintable(s: string)
    ensures Printable(Escape(s))
  {
    if s != "" {
      EscapeIsPrintable(s[1..]);
      EscapedCharIsPrintable(s[0]);
    }
  }

  lemma EscapedCharIsPrintable(c: char)
    ensures Printable(EscapedChar(c))
  {
    var n := c as int;
    assert ' ' <= DIGITS[n / 16 % 16] <= '~' && ' ' <= DIGITS[n % 16] <= '~' by { DigitsArePrintable(); }
  }

  lemma DigitsArePrintable()
    ensures forall k :: 0 <= k < 16 ==> ' ' <= DIGITS[k] <= '~'
  {
  }

  lemma EscapeParts(s: string)
    requires s != ""
    ensures Escape(s) == EscapedChar(s[0]) + Escape(s[1..])
  {
  }

  lemma {:induction false} EscapeConcat(a: string, b: string)
    ensures Escape(a + b) == Escape(a) + Escape(b)
  {
    hide EscapedChar;
    if a == "" {
      assert a + b == b;
    } else {
      EscapeConcat(a[1..], b);
      assert (a + b)[1..] == a[1..] + b;
      EscapeParts(a + b);
    }
  }

  lemma {:induction false} EscapePlain(s: string)
    requires PlainText(s)
    ensures Escape(s) == s
  {
    if s != "" {
      EscapePlain(s[1..]);
      PlainChar(s[0]);
      assert s == [s[0]] + s[1..];
    }
  }

  lemma PlainChar(c: char)
    requires ' ' <= c <= '~'
    ensures EscapedChar(c) == [c]
  {
  }

  function Backslashes(n: nat): (r: string)
    ensures |r| == n && forall i :: 0 <= i < n ==> r[i] == '\\'
  {
    seq(n, _ => '\\')
  }

  lemma UnescapeFirst(c: char, rest: string)
    requires c != '\\'
    ensures Unescape([c] + rest) == if Unescape(rest).None? then None else Some([c] + Unescape(rest).value)
  {
    assert ([c] + rest)[1..] == rest;
  }

  /** The text between the quotes of a quoted string that denotes something. */
  lemma InsideQuotes(e: string)
    ensures var t := Str("\"" + e + "\"", true);
            UnescapedString(t) != "" ==> Unescape(e) == Some(UnescapedString(t))
  {
    hide Unescape;
    var s := "\"" + e + "\"";
    assert s == ['"'] + (e + "\"");
    UnescapeFirst('"', e + "\"");
    QuoteBehind(e);
    if Unescape(e + "\"").Some? {
      var x := Unescape(e + "\"").value;
      var out := ['"'] + x;
      assert out[1..|out| - 1] == x[..|x| - 1];
    }
  }

  lemma {:induction false} QuoteBehind(e: string)
    ensures var r := Unescape(e + "\"");
            r.Some? ==> r.value != "" && r.value[|r.value| - 1] == '"' && Unescape(e) == Some(r.value[..|r.value| - 1])
    decreases |e|
  {
    var whole := e + "\"";
    if e == "" {
      assert whole[1..] == "";
    } else {
      var n := if e[0] != '\\' then 1 else if |e| >= 2 && EscapeChar(e[1]).Some? then 2 else 4;
      if n <= |e| {
        QuoteBehind(e[n..]);
        assert whole[n..] == e[n..] + "\"";
        var r := Unescape(whole[n..]);
        if r.Some? && Unescape(whole).Some? {
          DropLast(Unescape(whole).value[0], r.value);
        }
      }
    }
  }

  lemma DropLast(c: char, x: string)
    requires x != ""
    ensures ([c] + x)[..|x|] == [c] + x[..|x| - 1]
  {
  }

  /** A character that an escape other than the double backslash denotes is escaped with a letter in second place. */
  lemma EscapedControl(c: char, letter: char)
    requires letter != '\\' && (EscapeChar(letter) == Some(c) || (letter == 'x' && c == 0 as char))
    ensures |EscapedChar(c)| >= 2 && EscapedChar(c)[0] == '\\' && EscapedChar(c)[1] != '\\'
    ensures letter != 'x' ==> EscapedChar(c) == ['\\', letter]
  {
  }

  lemma QuotesDiffer(a: string, b: string)
    requires a != b
    ensures "\"" + a + "\"" != "\"" + b + "\""
  {
    assert ("\"" + a + "\"")[1..|a| + 1] == a && ("\"" + b + "\"")[1..|b| + 1] == b;
  }

  lemma QuotedPlain(s: string)
    requires '\\' !in s
    ensures UnescapedString(Str("\"" + s + "\"", true)) == s
  {
    UnescapePlain("\"" + s + "\"");
  }

  // ---------------------------------------------------------------------------
  // Which texts come back from their quoted form
  // ---------------------------------------------------------------------------

  /** Characters that come back from their escape: a backslash is not escaped, and hex escapes come back as NUL. */
  predicate RoundTrips(c: char) {
    c != '\\' && (' ' <= c <= '~' || c as int in {0, 7, 8, 9, 10, 11, 12, 13})
  }

  predicate AllRoundTrip(w: string) {
    forall i :: 0 <= i < |w| ==> RoundTrips(w[i])
  }

  /** The three kinds of escapes. */
  datatype Shape = Raw | Letter | Hex

  function ShapeOf(c: char): Shape {
    if ' ' <= c <= '~' then Raw else if 7 <= c as int <= 13 then Letter else Hex
  }

  lemma DigitLetters(k: nat)
    requires k < 16
    ensures DIGITS[k] != '\\' && DIGITS[k] != '"' && HexCharToInt(DIGITS[k]) >= 0
  {
  }

  lemma EscapeShape(c: char)
    ensures var e := EscapedChar(c);
            && (ShapeOf(c).Raw? ==> e == [c])
            && (ShapeOf(c).Letter? ==> |e| == 2 && e[0] == '\\' && e[1] !in "\\\"x" && EscapeChar(e[1]) == Some(c))
            && (ShapeOf(c).Hex? ==>
                  && |e| == 4 && e[0] == '\\' && e[1] == 'x' && HexCharToInt(e[2]) >= 0 && HexCharToInt(e[3]) >= 0
                  && e[2] !in "\\\"" && e[3] !in "\\\"")
  {
    var n := c as int;
    DigitLetters(n / 16 % 16);
    DigitLetters(n % 16);
  }

  /** Unescaping an escaped text, one character at a time. */
  lemma UnescapeStep(c: char, rest: string)
    requires c != '\\'
    ensures Unescape(EscapedChar(c) + rest)
         == if Unescape(rest).None? then None
            else Some([if ShapeOf(c).Hex? then 0 as char else c] + Unescape(rest).value)
  {
    hide EscapedChar;
    EscapeShape(c);
    var e := EscapedChar(c);
    assert (e + rest)[|e|..] == rest;
    assert EscapeChar('x').None?;
  }

  /** A raw backslash takes the next character with it. */
  lemma BackslashStep(rest: string)
    ensures var r := Unescape(['\\'] + rest);
            r.Some? && r.value != [] && r.value[0] == '\\' ==>
              rest != [] && rest[0] == '\\' && Unescape(rest[1..]) == Some(r.value[1..])
  {
    var s := ['\\'] + rest;
    if rest != [] {
      assert s[1] == rest[0] && s[2..] == rest[1..];
    }
  }

  lemma BackslashMoves(m: nat, v: string)
    ensures Backslashes(m) + (['\\'] + v) == Backslashes(m + 1) + v
    ensures m >= 1 ==> Backslashes(m) + v == ['\\'] + (Backslashes(m - 1) + v)
  {
  }

  /** A raw backslash uses up the one behind it, so what comes out never catches up with the text: m backslashes are missing. */
  lemma {:induction false} NeverCatchesUp(v: string, m: nat)
    ensures m >= 1 ==> Unescape(Escape(v)) != Some(Backslashes(m) + v)
    ensures Escape(v) != [] && Escape(v)[0] == '\\' ==> Unescape(Escape(v)[1..]) != Some(Backslashes(m) + v)
    decreases |v|
  {
    hide EscapedChar, Escape, Unescape;
    if v == "" {
      assert Escape(v) == "" && Unescape("") == Some("") by { NothingEscaped(); }
    } else {
      var e, rest := EscapedChar(v[0]), Escape(v[1..]);
      EscapeParts(v);
      EscapeShape(v[0]);
      assert v == [v[0]] + v[1..];
      if v[0] == '\\' {
        NeverCatchesUp(v[1..], m);
        NeverCatchesUp(v[1..], m + 1);
        BackslashMoves(m, v[1..]);
        BackslashMoves(m, v);
        BackslashStep(rest);
        assert (e + rest)[1..] == rest;
        if m >= 1 {
          assert (Backslashes(m) + v)[1..] == Backslashes(m) + v[1..] by { BackslashMoves(m - 1, v[1..]); }
        }
      } else {
        UnescapeStep(v[0], rest);
        assert m >= 1 ==> (Backslashes(m) + v)[0] == '\\';
        if !ShapeOf(v[0]).Raw? {
          assert (e + rest)[1..] == [e[1]] + (e[2..] + rest);
          UnescapeFirst(e[1], e[2..] + rest);
          assert (Backslashes(m) + v)[0] in {'\\', v[0]};
        }
      }
    }
  }

  lemma NothingEscaped()
    ensures Escape("") == "" && Unescape("") == Some("")
  {
  }

  lemma {:induction false} UnescapeOfEscape(w: string)
    ensures Unescape(Escape(w)) == Some(w) <==> AllRoundTrip(w)
  {
    hide EscapedChar, Escape, Unescape;
    if w == "" {
      NothingEscaped();
    } else {
      var rest := Escape(w[1..]);
      EscapeParts(w);
      assert w == [w[0]] + w[1..];
      if w[0] == '\\' {
        EscapeShape('\\');
        BackslashStep(rest);
        NeverCatchesUp(w[1..], 0);
        assert Backslashes(0) + w[1..] == w[1..];
      } else {
        UnescapeStep(w[0], rest);
        UnescapeOfEscape(w[1..]);
      }
    }
  }

  /** A text comes back from its quoted token exactly when each of its characters does. */
  lemma QuotedDenotes(w: string)
    ensures UnescapedString(Quoted(w)) == w <==> AllRoundTrip(w)
  {
    hide Escape, Unescape;
    UnescapeOfEscape(w);
    InsideQuotes(Escape(w));
    if AllRoundTrip(w) {
      var q := "\"" + w + "\"";
      EscapeConcat("\"" + w, "\"");
      EscapeConcat("\"", w);
      EscapePlain("\"");
      UnescapeOfEscape(q);
      assert q[1..|q| - 1] == w;
    }
  }

  // ---------------------------------------------------------------------------
  // Which quoted texts are read back as one token
  // ---------------------------------------------------------------------------

  function TrailingBackslashes(w: string): (n: nat)
    ensures n <= |w|
    ensures forall i :: |w| - n <= i < |w| ==> w[i] == '\\'
    ensures n < |w| ==> w[|w| - n - 1] != '\\'
  {
    if w == "" || w[|w| - 1] != '\\' then 0 else 1 + TrailingBackslashes(w[..|w| - 1])
  }

  /** The end of the text decides how many backslashes it ends in. */
  lemma {:induction false} TrailingIs(w: string, n: nat)
    requires n <= |w| && (forall i :: |w| - n <= i < |w| ==> w[i] == '\\') && (n < |w| ==> w[|w| - n - 1] != '\\')
    ensures TrailingBackslashes(w) == n
  {
    if n > 0 {
      TrailingIs(w[..|w| - 1], n - 1);
    }
  }

  /** Whether a backslash is pending behind a text. */
  function Pending(w: string, escaped: bool): bool {
    if w == "" then escaped
    else if w[0] == '\\' then Pending(w[1..], !escaped)
    else Pending(w[1..], false)
  }

  lemma {:induction false} PendingIsParity(w: string, escaped: bool)
    ensures Pending(w, escaped)
         == if TrailingBackslashes(w) == |w| && escaped then |w| % 2 == 0 else TrailingBackslashes(w) % 2 == 1
  {
    if w != "" {
      var n := TrailingBackslashes(w[1..]);
      PendingIsParity(w[1..], w[0] == '\\' && !escaped);
      TrailingIs(w, if n == |w| - 1 && w[0] == '\\' then |w| else n);
    }
  }

  /** Scanning over the escape of one character. */
  lemma QuotePastEscape(s: string, p: nat, c: char, escaped: bool)
    requires var e := EscapedChar(c); p + |e| <= |s| && forall k :: 0 <= k < |e| ==> s[p + k] == e[k]
    requires c != '"'
    ensures EndOfQuote(s, p, escaped) == EndOfQuote(s, p + |EscapedChar(c)|, c == '\\' && !escaped)
  {
    hide EscapedChar, EscapeChar, HexCharToInt;
    EscapeShape(c);
    var e := EscapedChar(c);
    assert s[p + 0] == e[0];
    if ShapeOf(c).Letter? {
      assert s[p + 1] == e[1];
      assert EndOfQuote(s, p + 1, !escaped) == EndOfQuote(s, p + 2, false);
    } else if ShapeOf(c).Hex? {
      assert s[p + 1] == e[1] && s[p + 2] == e[2] && s[p + 3] == e[3];
      assert EndOfQuote(s, p + 1, !escaped) == EndOfQuote(s, p + 2, false);
      assert EndOfQuote(s, p + 2, false) == EndOfQuote(s, p + 3, false) == EndOfQuote(s, p + 4, false);
    }
  }

  lemma {:induction false} QuoteOfEscaped(s: string, p: nat, w: string, escaped: bool)
    requires p <= |s| && s[p..] == Escape(w) + "\"" && '"' !in w
    ensures EndOfQuote(s, p, escaped) == if Pending(w, escaped) then None else Some(|s|)
    decreases |w|
  {
    hide EndOfQuote, EscapedChar, Escape;
    if w == "" {
      QuoteAtLast(s, p, escaped);
    } else {
      var e, rest := EscapedChar(w[0]), Escape(w[1..]) + "\"";
      EscapeParts(w);
      assert e + Escape(w[1..]) + "\"" == e + rest;
      TextAt(s, p, e, rest);
      QuotePastEscape(s, p, w[0], escaped);
      QuoteOfEscaped(s, p + |e|, w[1..], w[0] == '\\' && !escaped);
    }
  }

  lemma QuoteAtLast(s: string, p: nat, escaped: bool)
    requires p <= |s| && s[p..] == Escape("") + "\""
    ensures EndOfQuote(s, p, escaped) == if escaped then None else Some(|s|)
  {
    assert s[p..][0] == s[p] == '"' && |s| == p + 1;
  }

  lemma TextAt(s: string, p: nat, e: string, rest: string)
    requires p <= |s| && s[p..] == e + rest
    ensures p + |e| <= |s| && s[p + |e|..] == rest && forall k :: 0 <= k < |e| ==> s[p + k] == e[k]
  {
    assert s[p + |e|..] == s[p..][|e|..];
    assert forall k :: 0 <= k < |e| ==> s[p + k] == s[p..][k];
  }

  /** A quoted text is read back as one token exactly when it ends in an even number of backslashes. */
  lemma QuotedIsProperExactly(w: string)
    requires '"' !in w
    ensures Proper(Quoted(w)) <==> TrailingBackslashes(w) % 2 == 0
  {
    hide Escape, EndOfQuote, Pending, TrailingBackslashes;
    var s := Quoted(w).str;
    assert s[1..] == Escape(w) + "\"";
    QuoteOfEscaped(s, 1, w, false);
    PendingIsParity(w, false);
  }

  // ---------------------------------------------------------------------------
  // What tokens that were read denote
  // ---------------------------------------------------------------------------

  /** The rest of a quote that closes at the end of the text: with a quote inside it, its escapes are refused. */
  predicate ClosesCleanly(s: string, i: nat)
    requires i < |s|
  {
    var r := Unescape(s[i..]);
    r.Some? ==>
      && '"' !in s[i..|s| - 1]
      && r.value != "" && '"' !in r.value[..|r.value| - 1] && r.value[|r.value| - 1] == '"'
  }

  lemma PrependPlain(a: string, x: string)
    requires x != "" && '"' !in a && '"' !in x[..|x| - 1]
    ensures '"' !in (a + x)[..|a + x| - 1] && (a + x)[|a + x| - 1] == x[|x| - 1]
  {
    assert (a + x)[..|a + x| - 1] == a + x[..|x| - 1];
  }

  lemma CleanStep(s: string, i: nat, n: nat, out: char)
    requires 1 <= n && i + n < |s| && ClosesCleanly(s, i + n) && '"' !in s[i..i + n] && out != '"'
    requires Unescape(s[i..]) == if Unescape(s[i + n..]).None? then None else Some([out] + Unescape(s[i + n..]).value)
    ensures ClosesCleanly(s, i)
  {
    hide Unescape;
    if Unescape(s[i + n..]).Some? {
      PrependPlain([out], Unescape(s[i + n..]).value);
      assert s[i..|s| - 1] == s[i..i + n] + s[i + n..|s| - 1];
    }
  }

  lemma UnescapeEscape(s: string, i: nat)
    requires i + 1 < |s| && s[i] == '\\'
    requires EscapeChar(s[i + 1]).Some?
    ensures Unescape(s[i..]) == if Unescape(s[i + 2..]).None? then None else Some([EscapeChar(s[i + 1]).value] + Unescape(s[i + 2..]).value)
  {
    assert s[i..][1] == s[i + 1] && s[i..][2..] == s[i + 2..];
  }

  predicate HexAt(s: string, i: nat) {
    i + 3 < |s| && s[i + 1] == 'x' && HexCharToInt(s[i + 2]) >= 0 && HexCharToInt(s[i + 3]) >= 0
  }

  lemma UnescapeHex(s: string, i: nat)
    requires i + 1 < |s| && s[i] == '\\' && EscapeChar(s[i + 1]).None?
    ensures HexAt(s, i) ==>
              Unescape(s[i..]) == if Unescape(s[i + 4..]).None? then None else Some([0 as char] + Unescape(s[i + 4..]).value)
    ensures !HexAt(s, i) ==> Unescape(s[i..]).None?
  {
    var tail := s[i..];
    assert tail[1] == s[i + 1];
    if |tail| >= 4 {
      assert tail[2] == s[i + 2] && tail[3] == s[i + 3] && tail[4..] == s[i + 4..];
    }
  }

  lemma HexIsNoQuote(s: string, i: nat)
    requires HexAt(s, i) && s[i] == '\\'
    ensures i + 4 <= |s| && '"' !in s[i..i + 4] && EndOfQuote(s, i, false) == EndOfQuote(s, i + 4, false)
  {
    assert s[i..i + 4] == [s[i], s[i + 1], s[i + 2], s[i + 3]];
    assert EndOfQuote(s, i + 2, false) == EndOfQuote(s, i + 3, false) == EndOfQuote(s, i + 4, false);
  }

  lemma UnescapeRaw(s: string, i: nat)
    requires i < |s| && s[i] != '\\'
    ensures Unescape(s[i..]) == if Unescape(s[i + 1..]).None? then None else Some([s[i]] + Unescape(s[i + 1..]).value)
  {
    assert s[i..][1..] == s[i + 1..];
  }

  lemma OnlyQuote(s: string, i: nat)
    requires i + 1 == |s| && s[i] == '"'
    ensures ClosesCleanly(s, i)
  {
    assert s[i..] == "\"" && "\""[1..] == "";
  }

  lemma {:induction false} InnerQuotes(s: string, i: nat)
    requires i < |s| && EndOfQuote(s, i, false) == Some(|s|)
    ensures ClosesCleanly(s, i)
    decreases |s| - i
  {
    if s[i] == '"' {
      OnlyQuote(s, i);
    } else if s[i] != '\\' {
      InnerQuotes(s, i + 1);
      UnescapeRaw(s, i);
      hide Unescape, EndOfQuote, ClosesCleanly;
      CleanStep(s, i, 1, s[i]);
    } else {
      InnerEscape(s, i);
    }
  }

  lemma BackslashPassed(s: string, i: nat)
    requires i < |s| && s[i] == '\\' && EndOfQuote(s, i, false).Some?
    ensures i + 1 < |s| && EndOfQuote(s, i, false) == EndOfQuote(s, i + 2, false)
    ensures i + 2 < |s|
  {
    assert EndOfQuote(s, i, false) == EndOfQuote(s, i + 1, true);
  }

  lemma NoQuoteEscape(c: char)
    requires EscapeChar(c).Some?
    ensures c != '"' && EscapeChar(c) != Some('"')
  {
  }

  lemma RefusedIsClean(s: string, i: nat)
    requires i < |s| && Unescape(s[i..]).None?
    ensures ClosesCleanly(s, i)
  {
  }

  lemma {:induction false} InnerEscape(s: string, i: nat)
    requires i < |s| && s[i] == '\\' && EndOfQuote(s, i, false) == Some(|s|)
    ensures ClosesCleanly(s, i)
    decreases |s| - i, 0
  {
    hide Unescape, EndOfQuote, EscapeChar, HexAt, ClosesCleanly;
    BackslashPassed(s, i);
    if EscapeChar(s[i + 1]).Some? {
      InnerQuotes(s, i + 2);
      UnescapeEscape(s, i);
      NoQuoteEscape(s[i + 1]);
      assert s[i..i + 2] == [s[i], s[i + 1]];
      CleanStep(s, i, 2, EscapeChar(s[i + 1]).value);
    } else {
      UnescapeHex(s, i);
      if HexAt(s, i) {
        HexIsNoQuote(s, i);
        InnerQuotes(s, i + 4);
        CleanStep(s, i, 4, 0 as char);
      } else {
        RefusedIsClean(s, i);
      }
    }
  }

  /** A token that was read and denotes something has no quote inside, nor has what it denotes. */
  lemma NoInnerQuote(t: Token)
    requires t.Str? && Proper(t)
    ensures '"' !in UnescapedString(t)
    ensures t.quoted && UnescapedString(t) != "" ==> '"' !in t.str[1..|t.str| - 1]
  {
    hide Unescape, EndOfQuote;
    if t.quoted {
      InnerQuotes(t.str, 1);
      assert t.str == ['"'] + t.str[1..];
      UnescapeFirst('"', t.str[1..]);
      if Unescape(t.str[1..]).Some? {
        var x := Unescape(t.str[1..]).value;
        var out := ['"'] + x;
        assert out[1..|out| - 1] == x[..|x| - 1];
      }
    } else {
      UnquotedDenotes(t.str);
    }
  }

  lemma UnquotedDenotes(s: string)
    requires forall i :: 0 <= i < |s| ==> IsValidUnquoted(s[i])
    ensures '"' !in UnescapedString(Str(s, false))
  {
    UnescapePlain(s);
  }
}
