/** The text a rewritten script is written out as, and what reading and rewriting it again gives. */
module StandardPatcherText {
  import opened Bytes
  import opened Strings
  import opened EdifyTokenizer
  import opened EdifyRoundTrip
  import opened EdifyQuoting
  import opened StandardPatcher
  import opened StandardPatcherIdempotence
  import StandardPatcherCalls

  // ---------------------------------------------------------------------------
  // Canonical lists by parts
  // ---------------------------------------------------------------------------

  predicate AllProper(ts: seq<Token>) {
    forall i :: 0 <= i < |ts| ==> Proper(ts[i])
  }

  /** No token runs into the text behind it. */
  predicate Spaced(ts: seq<Token>) {
    ts == [] || (Apart(ts[0], Untokenize(ts[1..])) && Spaced(ts[1..]))
  }

  lemma {:induction false} CanonicalIs(ts: seq<Token>)
    ensures Canonical(ts) <==> AllProper(ts) && Spaced(ts)
  {
    hide Proper, Apart, Untokenize;
    if ts != [] {
      CanonicalIs(ts[1..]);
      ProperConcat(ts[..1], ts[1..]);
      assert ts == ts[..1] + ts[1..];
    }
  }

  lemma ProperConcat(a: seq<Token>, b: seq<Token>)
    ensures AllProper(a + b) <==> AllProper(a) && AllProper(b)
  {
    hide Proper;
    if AllProper(a + b) {
      assert forall i :: 0 <= i < |a| ==> a[i] == (a + b)[i];
      assert forall i :: 0 <= i < |b| ==> b[i] == (a + b)[|a| + i];
    }
  }

  lemma Regrouped(a: string, b: string, c: string)
    ensures a + b + c == a + (b + c)
  {
  }

  lemma {:induction false} UntokenizeConcat(a: seq<Token>, b: seq<Token>)
    ensures Untokenize(a + b) == Untokenize(a) + Untokenize(b)
  {
    hide Generate;
    if a == [] {
      assert a + b == b;
    } else {
      UntokenizeConcat(a[1..], b);
      assert (a + b)[1..] == a[1..] + b && (a + b)[0] == a[0];
      Regrouped(Generate(a[0]), Untokenize(a[1..]), Untokenize(b));
    }
  }

  /** The text starts as before, or with a parenthesis or quote where it did not start with a newline. */
  predicate FrontKept(before: string, after: string) {
    if before == "" then after == ""
    else after != "" && (after[0] == before[0] || (after[0] in {'(', '"'} && before[0] != '\n'))
  }

  lemma ApartKept(t: Token, before: string, after: string)
    requires Apart(t, before) && FrontKept(before, after)
    ensures Apart(t, after)
  {
  }

  lemma FrontOfText(g: string, before: string, after: string)
    requires FrontKept(before, after)
    ensures FrontKept(g + before, g + after)
  {
  }

  /** What stands in front of a list stays spaced when the front of the list is kept. */
  lemma {:induction false} SpacedBefore(a: seq<Token>, before: seq<Token>, after: seq<Token>)
    requires Spaced(a + before) && Spaced(after) && FrontKept(Untokenize(before), Untokenize(after))
    ensures Spaced(a + after) && FrontKept(Untokenize(a + before), Untokenize(a + after))
    decreases |a|
  {
    hide Apart, Generate, FrontKept;
    if a == [] {
      assert a + before == before && a + after == after;
    } else {
      var t := a[0];
      assert (a + before)[1..] == a[1..] + before && (a + after)[1..] == a[1..] + after;
      SpacedBefore(a[1..], before, after);
      ApartKept(t, Untokenize(a[1..] + before), Untokenize(a[1..] + after));
      FrontOfText(Generate(t), Untokenize(a[1..] + before), Untokenize(a[1..] + after));
    }
  }

  lemma {:induction false} SpacedBehind(a: seq<Token>, b: seq<Token>)
    requires Spaced(a + b)
    ensures Spaced(b)
  {
    hide Apart, Untokenize;
    if a == [] {
      assert a + b == b;
    } else {
      assert (a + b)[1..] == a[1..] + b;
      SpacedBehind(a[1..], b);
    }
  }

  // ---------------------------------------------------------------------------
  // Edited arguments
  // ---------------------------------------------------------------------------

  /** An edited argument is read back when its new text ends in an even number of backslashes. */
  predicate ArgReads(t: Token, bare: bool, devs: Devices) {
    t.Str? ==>
      var w := NewText(UnescapedString(t), bare, devs);
      w.Some? ==> TrailingBackslashes(w.value) % 2 == 0
  }

  lemma {:induction false} NoQuoteReplaced(u: string, d: string)
    requires '"' !in u
    ensures '"' !in ReplaceAll(u, d, IMAGE_PATH)
    decreases |u|
  {
    hide OccursAt;
    if d != "" && u != "" {
      if OccursAt(u, d, 0) {
        assert |d| <= |u| by { OccurrenceFits(u, d); }
        NoQuoteReplaced(u[|d|..], d);
      } else {
        NoQuoteReplaced(u[1..], d);
      }
    }
  }

  lemma OccurrenceFits(u: string, d: string)
    requires OccursAt(u, d, 0)
    ensures |d| <= |u|
  {
  }

  lemma {:induction false} NoQuoteInDevices(u: string, devs: seq<string>)
    requires '"' !in u
    ensures var w := DevicesReplaced(u, devs);
            w.Some? ==> '"' !in w.value && (u == "" ==> w.value == "")
  {
    hide Contains, ReplaceAll;
    if devs != [] {
      if Contains(u, devs[0]) {
        NoQuoteReplaced(u, devs[0]);
        NothingInEmpty(devs[0]);
      } else {
        NoQuoteInDevices(u, devs[1..]);
      }
    }
  }

  lemma NothingInEmpty(d: string)
    ensures ReplaceAll("", d, IMAGE_PATH) == ""
  {
  }

  lemma NoQuoteInNewText(u: string, bare: bool, devs: Devices)
    requires '"' !in u
    ensures var w := NewText(u, bare, devs);
            w.Some? ==> '"' !in w.value && (u == "" ==> w.value == "")
  {
    hide ReplaceAll, DevicesReplaced;
    NoQuoteReplaced("system", "system");
    NoQuoteInDevices(u, devs.system);
  }

  /** An argument that was read becomes a token that is read back exactly under this condition. */
  lemma EditedIsProper(t: Token, bare: bool, devs: Devices)
    requires Proper(t)
    ensures Proper(EditToken(t, bare, devs)) <==> ArgReads(t, bare, devs)
  {
    hide Proper, UnescapedString, NewText, Quoted;
    if t.Str? {
      NoInnerQuote(t);
      NoQuoteInNewText(UnescapedString(t), bare, devs);
      var w := NewText(UnescapedString(t), bare, devs);
      if w.Some? {
        QuotedIsProperExactly(w.value);
      }
    }
  }

  /** What an edited argument denotes: the replaced text, exactly when each of its characters survives quoting. */
  lemma EditDenotes(t: Token, bare: bool, devs: Devices)
    requires t.Str? && Triggers(UnescapedString(t), bare, devs)
    ensures NewText(UnescapedString(t), bare, devs).Some?
    ensures var w := NewText(UnescapedString(t), bare, devs).value;
            UnescapedString(EditToken(t, bare, devs)) == w <==> AllRoundTrip(w)
  {
    hide UnescapedString, NewText, Quoted, AllRoundTrip;
    TriggeredIsEdited(UnescapedString(t), bare, devs);
    QuotedDenotes(NewText(UnescapedString(t), bare, devs).value);
  }

  lemma TrailingConcat(a: string, x: string)
    ensures TrailingBackslashes(a + x)
         == if TrailingBackslashes(x) == |x| then |x| + TrailingBackslashes(a) else TrailingBackslashes(x)
  {
    hide TrailingBackslashes;
    var n := TrailingBackslashes(x);
    TrailingIs(a + x, if n == |x| then |x| + TrailingBackslashes(a) else n);
  }

  lemma TrailingOfNone(a: string)
    requires '\\' !in a
    ensures TrailingBackslashes(a) == 0
  {
  }

  lemma OccursWhole(u: string, d: string)
    requires OccursAt(u, d, 0)
    ensures |d| <= |u| && u == d + u[|d|..]
  {
  }

  lemma ImagePathIsRaw()
    ensures '\\' !in IMAGE_PATH
  {
  }

  lemma {:induction false} TrailingOfReplaced(u: string, d: string)
    requires d != "" && '\\' !in d
    ensures var w := ReplaceAll(u, d, IMAGE_PATH);
            && TrailingBackslashes(w) == TrailingBackslashes(u)
            && (TrailingBackslashes(w) == |w| <==> TrailingBackslashes(u) == |u|)
    decreases |u|
  {
    hide OccursAt, TrailingBackslashes;
    if u != "" {
      if OccursAt(u, d, 0) {
        OccursWhole(u, d);
        var x := u[|d|..];
        TrailingOfReplaced(x, d);
        TrailingConcat(d, x);
        TrailingConcat(IMAGE_PATH, ReplaceAll(x, d, IMAGE_PATH));
        ImagePathIsRaw();
        TrailingOfNone(d);
        TrailingOfNone(IMAGE_PATH);
      } else {
        TrailingOfReplaced(u[1..], d);
        TrailingConcat([u[0]], u[1..]);
        TrailingConcat([u[0]], ReplaceAll(u[1..], d, IMAGE_PATH));
        assert u == [u[0]] + u[1..];
      }
    }
  }

  lemma {:induction false} TrailingOfDevices(u: string, devs: seq<string>)
    requires forall k :: 0 <= k < |devs| ==> devs[k] != "" && '\\' !in devs[k]
    ensures var w := DevicesReplaced(u, devs);
            w.Some? ==> TrailingBackslashes(w.value) == TrailingBackslashes(u)
  {
    hide Contains, ReplaceAll, TrailingBackslashes;
    if devs != [] {
      if Contains(u, devs[0]) {
        TrailingOfReplaced(u, devs[0]);
      } else {
        TrailingOfDevices(u, devs[1..]);
      }
    }
  }

  /** For device names without backslashes the argument itself decides: it must not end in an odd number of them. */
  lemma ArgReadsExactly(t: Token, bare: bool, devs: Devices)
    requires t.Str? && forall k :: 0 <= k < |devs.system| ==> devs.system[k] != "" && '\\' !in devs.system[k]
    ensures ArgReads(t, bare, devs)
       <==> (Triggers(UnescapedString(t), bare, devs) ==> TrailingBackslashes(UnescapedString(t)) % 2 == 0)
  {
    hide UnescapedString, DevicesReplaced, TrailingBackslashes, ReplaceAll, ContainsAny;
    var u := UnescapedString(t);
    TriggeredIsEdited(u, bare, devs);
    TrailingOfDevices(u, devs.system);
    ImagePathIsPlain();
    ImagePathIsRaw();
    TrailingOfNone(IMAGE_PATH);
    TrailingOfNone("system");
  }

  // ---------------------------------------------------------------------------
  // Reading the written text back
  // ---------------------------------------------------------------------------

  predicate ArgsRead(args: seq<Token>, bare: bool, devs: Devices) {
    forall k :: 0 <= k < |args| ==> ArgReads(args[k], bare, devs)
  }

  /** Every argument that is edited is read back. */
  predicate EditsRead(s: seq<Token>, devs: Devices)
    decreases |s|
  {
    if s == [] || HeadOf(s).Open? then true
    else if HeadOf(s).Plain? then EditsRead(s[1..], devs)
    else
      var rest := s[HeadOf(s).rp + 1..];
      match ActionOf(s, devs)
      case NotHandled => EditsRead(s[1..], devs)
      case Leave => EditsRead(rest, devs)
      case Replace(_, _) => EditsRead(rest, devs)
      case Edit(bare) => ArgsRead(ArgsOf(s), bare, devs) && EditsRead(rest, devs)
  }

  lemma GeneratedIsCanonical(c: Command, p: Partition)
    ensures AllProper(Generated(c, p)) && Spaced(Generated(c, p))
  {
    hide Canonical, Generated, Untokenize, ReplacementText, AllProper, Spaced;
    GeneratedReads(c, p);
    CanonicalIs(Generated(c, p));
  }

  lemma EditedArgsProper(args: seq<Token>, bare: bool, devs: Devices)
    requires AllProper(args)
    ensures AllProper(EditArgs(args, bare, devs)) <==> ArgsRead(args, bare, devs)
  {
    hide Proper, EditToken, ArgReads;
    var edited := EditArgs(args, bare, devs);
    forall k | 0 <= k < |args| ensures Proper(edited[k]) <==> ArgReads(args[k], bare, devs) {
      assert Proper(args[k]);
      EditedIsProper(args[k], bare, devs);
    }
  }

  /** The text of a replacement. */
  lemma ExpressionIsWritten(command: string, mount: string)
    ensures Untokenize(StandardPatcherCalls.Expression(command, mount))
         == "(run_program(\"/update-binary-tool\", \"" + command + "\", \"" + mount + "\") == 0)"
  {
    hide Untokenize;
    var quote := "\"";
    var a: seq<Token> := [Key(LeftParen), Str("run_program", false), Key(LeftParen), Str("\"/update-binary-tool\"", true), Key(Comma), Whitespace(" ")];
    var b, c: seq<Token> := [Str(quote + command + quote, true)], [Key(Comma), Whitespace(" ")];
    var d: seq<Token> := [Str(quote + mount + quote, true)];
    var e: seq<Token> := [Key(RightParen), Whitespace(" "), Key(Equals), Whitespace(" "), Str("0", false), Key(RightParen)];
    assert StandardPatcherCalls.Expression(command, mount) == a + (b + (c + (d + e)));
    TextOfParts(a, b, c, d + e);
    UntokenizeConcat(d, e);
    OneToken(b[0]);
    OneToken(d[0]);
    FixedTexts();
    assert "(run_program(\"/update-binary-tool\", " + (quote + command + quote + (", " + (quote + mount + quote + ") == 0)")))
        == "(run_program(\"/update-binary-tool\", \"" + command + "\", \"" + mount + "\") == 0)";
  }

  lemma FixedTexts()
    ensures Untokenize([Key(LeftParen), Str("run_program", false), Key(LeftParen), Str("\"/update-binary-tool\"", true), Key(Comma), Whitespace(" ")])
         == "(run_program(\"/update-binary-tool\", "
    ensures Untokenize([Key(Comma), Whitespace(" ")]) == ", "
    ensures Untokenize([Key(RightParen), Whitespace(" "), Key(Equals), Whitespace(" "), Str("0", false), Key(RightParen)]) == ") == 0)"
  {
    hide Untokenize, Generate;
    FixedTokens();
    OpeningText();
    TwoTokens(Key(Comma), Whitespace(" "));
    ClosingText();
  }

  lemma FixedTokens()
    ensures Generate(Key(LeftParen)) == "(" && Generate(Key(RightParen)) == ")" && Generate(Key(Comma)) == "," && Generate(Key(Equals)) == "=="
    ensures Generate(Whitespace(" ")) == " " && Generate(Str("0", false)) == "0" && Generate(Str("run_program", false)) == "run_program"
    ensures Generate(Str("\"/update-binary-tool\"", true)) == "\"/update-binary-tool\""
  {
  }

  lemma OpeningText()
    ensures Untokenize([Key(LeftParen), Str("run_program", false), Key(LeftParen), Str("\"/update-binary-tool\"", true), Key(Comma), Whitespace(" ")])
         == "(run_program(\"/update-binary-tool\", "
  {
    var program, tool := Str("run_program", false), Str("\"/update-binary-tool\"", true);
    SixTokens(Key(LeftParen), program, Key(LeftParen), tool, Key(Comma), Whitespace(" "));
    FixedTokens();
    hide Untokenize, Generate;
    var tail := "\"/update-binary-tool\"";
    assert "(" + "run_program" + ("(" + tail) + ("," + " ") == "(run_program(" + tail + ", ";
    assert "(run_program(\"/update-binary-tool\", " == "(run_program(" + tail + ", ";
  }

  lemma ClosingText()
    ensures Untokenize([Key(RightParen), Whitespace(" "), Key(Equals), Whitespace(" "), Str("0", false), Key(RightParen)]) == ") == 0)"
  {
    SixTokens(Key(RightParen), Whitespace(" "), Key(Equals), Whitespace(" "), Str("0", false), Key(RightParen));
    FixedTokens();
    hide Untokenize, Generate;
    assert ")" + " " + ("==" + " ") + ("0" + ")") == ") == 0)";
  }

  lemma SixTokens(a: Token, b: Token, c: Token, d: Token, e: Token, f: Token)
    ensures Untokenize([a, b, c, d, e, f]) == Generate(a) + Generate(b) + (Generate(c) + Generate(d)) + (Generate(e) + Generate(f))
  {
    hide Untokenize, Generate;
    TwoTokens(a, b);
    TwoTokens(c, d);
    TwoTokens(e, f);
    assert [a, b, c, d, e, f] == [a, b] + [c, d] + [e, f];
    ThreeLists([a, b], [c, d], [e, f]);
  }

  lemma TwoTokens(a: Token, b: Token)
    ensures Untokenize([a, b]) == Generate(a) + Generate(b)
  {
    hide Generate;
    assert [a, b][1..] == [b];
    OneToken(b);
  }

  lemma ThreeLists(a: seq<Token>, b: seq<Token>, c: seq<Token>)
    ensures Untokenize(a + b + c) == Untokenize(a) + Untokenize(b) + Untokenize(c)
  {
    hide Untokenize;
    UntokenizeConcat(a, b);
    UntokenizeConcat(a + b, c);
  }

  lemma CallParts(s: seq<Token>)
    requires s != [] && HeadOf(s).Called?
    ensures var Called(lp, rp) := HeadOf(s);
            && s == s[..1] + s[1..] && s == s[..rp + 1] + s[rp + 1..]
            && s == s[..lp + 1] + (ArgsOf(s) + ([s[rp]] + s[rp + 1..]))
            && s[..rp + 1] == s[..lp + 1] + ArgsOf(s) + [s[rp]]
  {
    hide HeadOf;
    var Called(lp, rp) := HeadOf(s);
    Halves(s, 1);
    Halves(s, rp + 1);
    Halves(s, lp + 1);
    assert s[lp + 1..] == ArgsOf(s) + ([s[rp]] + s[rp + 1..]);
  }

  lemma Halves(s: seq<Token>, n: nat)
    requires n <= |s|
    ensures s == s[..n] + s[n..]
  {
  }

  /** The tokens of the rewritten script are each read back exactly when every edited argument is. */
  lemma {:induction false} RewrittenProper(s: seq<Token>, devs: Devices)
    requires AllProper(s)
    ensures AllProper(Rewritten(s, devs)) <==> EditsRead(s, devs)
    decreases |s|
  {
    hide Rewritten, HeadOf, ArgsOf, ActionFor, UnescapedString, Generated, Proper, AllProper, ArgsRead;
    if s == [] {
      NothingRewritten(s, devs);
    } else if HeadOf(s).Open? {
      OpenStep(s, devs);
    } else {
      assert s == s[..1] + s[1..];
      ProperConcat(s[..1], s[1..]);
      ProperConcat(s[..1], Rewritten(s[1..], devs));
      RewrittenProper(s[1..], devs);
      if HeadOf(s).Plain? {
        PlainStep(s, devs);
      } else {
        CalledProper(s, devs);
      }
    }
  }

  lemma {:induction false} CalledProper(s: seq<Token>, devs: Devices)
    requires AllProper(s) && s != [] && HeadOf(s).Called?
    requires AllProper(s[..1] + Rewritten(s[1..], devs)) <==> EditsRead(s[1..], devs)
    ensures AllProper(Rewritten(s, devs)) <==> EditsRead(s, devs)
    decreases |s|, 0
  {
    hide Rewritten, HeadOf, ArgsOf, ActionFor, UnescapedString, Generated, Proper, AllProper, ArgsRead, EditArgs;
    var Called(lp, rp) := HeadOf(s);
    var head, rest := s[..lp + 1], s[rp + 1..];
    CalledStep(s, devs);
    CallParts(s);
    ProperConcat(s[..rp + 1], rest);
    ProperConcat(head + ArgsOf(s), [s[rp]]);
    ProperConcat(head, ArgsOf(s));
    RewrittenProper(rest, devs);
    var y := Rewritten(rest, devs);
    match ActionOf(s, devs) {
      case NotHandled =>
      case Leave => ProperConcat(s[..rp + 1], y);
      case Replace(c, p) =>
        GeneratedIsCanonical(c, p);
        ProperConcat(Generated(c, p), y);
      case Edit(bare) =>
        var edited := EditArgs(ArgsOf(s), bare, devs);
        EditedArgsProper(ArgsOf(s), bare, devs);
        ProperConcat(head + edited + [s[rp]], y);
        ProperConcat(head + edited, [s[rp]]);
        ProperConcat(head, edited);
    }
  }

  // --- Spacing -------------------------------------------------------------------

  lemma ProperFront(t: Token)
    requires Proper(t)
    ensures Generate(t) != ""
    ensures t.Str? ==> if t.quoted then Generate(t)[0] == '"' else IsValidUnquoted(Generate(t)[0])
  {
    hide EndOfQuote, KeywordAt;
  }

  /** A string that makes room for a parenthesis or quote keeps the front. */
  lemma StringFront(t: Token, rest: string, g: string, after: string)
    requires t.Str? && Proper(t) && g != "" && g[0] in {'(', '"'}
    ensures FrontKept(Generate(t) + rest, g + after)
  {
    hide Proper;
    ProperFront(t);
  }

  lemma ApartGoesOn(t: Token, rest: string, x: string)
    requires Apart(t, rest) && rest != ""
    ensures Apart(t, rest + x)
  {
  }

  lemma ParenShows(a: seq<Token>)
    requires a != [] && a[|a| - 1] == Key(RightParen)
    ensures Untokenize(a) != ""
  {
    hide Untokenize;
    UntokenizeConcat(a[..|a| - 1], [a[|a| - 1]]);
    assert a == a[..|a| - 1] + [a[|a| - 1]];
    OneToken(a[|a| - 1]);
  }

  lemma OneToken(t: Token)
    ensures Untokenize([t]) == Generate(t)
  {
    hide Generate;
    assert [t][1..] == [];
  }

  /** Behind a right parenthesis anything is apart. */
  lemma {:induction false} SpacedAfterParen(a: seq<Token>, b: seq<Token>)
    requires Spaced(a) && Spaced(b) && a != [] && a[|a| - 1] == Key(RightParen)
    ensures Spaced(a + b)
  {
    hide Generate, Untokenize;
    assert (a + b)[1..] == a[1..] + b;
    if |a| > 1 {
      hide Apart;
      SpacedAfterParen(a[1..], b);
      UntokenizeConcat(a[1..], b);
      ParenShows(a[1..]);
      ApartGoesOn(a[0], Untokenize(a[1..]), Untokenize(b));
    } else {
      assert a[1..] + b == b;
    }
  }

  /** Quotes are apart from anything, and they start like the strings they replace. */
  lemma {:induction false} SpacedEdited(args: seq<Token>, bare: bool, devs: Devices, before: seq<Token>, after: seq<Token>)
    requires AllProper(args) && Spaced(args + before) && Spaced(after) && FrontKept(Untokenize(before), Untokenize(after))
    ensures var edited := EditArgs(args, bare, devs);
            Spaced(edited + after) && FrontKept(Untokenize(args + before), Untokenize(edited + after))
    decreases |args|
  {
    hide Apart, Generate, FrontKept, EditToken, Proper, Untokenize;
    if args == [] {
      assert args + before == before && EditArgs(args, bare, devs) + after == after;
    } else {
      var t, e := args[0], EditToken(args[0], bare, devs);
      var edited := EditArgs(args[1..], bare, devs);
      var old', new' := args[1..] + before, edited + after;
      assert args + before == [t] + old' && EditArgs(args, bare, devs) + after == [e] + new';
      SpacedSplits([t] + old');
      SpacedEdited(args[1..], bare, devs, before, after);
      EditedFront(t, bare, devs, Untokenize(old'), Untokenize(new'));
      TextSplits(t, old');
      TextSplits(e, new');
      SpacedCons(e, new');
    }
  }

  lemma SpacedCons(t: Token, rest: seq<Token>)
    requires Apart(t, Untokenize(rest)) && Spaced(rest)
    ensures Spaced([t] + rest)
  {
    hide Apart, Untokenize;
    assert ([t] + rest)[1..] == rest;
  }

  lemma EditedFront(t: Token, bare: bool, devs: Devices, before: string, after: string)
    requires Proper(t) && Apart(t, before) && FrontKept(before, after)
    ensures var e := EditToken(t, bare, devs);
            Apart(e, after) && FrontKept(Generate(t) + before, Generate(e) + after)
  {
    hide Proper, NewText, UnescapedString, FrontKept, Escape;
    if EditToken(t, bare, devs) == t {
      ApartKept(t, before, after);
      FrontOfText(Generate(t), before, after);
    } else {
      StringFront(t, before, Generate(EditToken(t, bare, devs)), after);
    }
  }

  /** Rewriting keeps tokens apart: what it puts in starts with a parenthesis or a quote. */
  lemma {:induction false} RewrittenSpaced(s: seq<Token>, devs: Devices)
    requires AllProper(s) && Spaced(s)
    ensures Spaced(Rewritten(s, devs)) && FrontKept(Untokenize(s), Untokenize(Rewritten(s, devs)))
    decreases |s|
  {
    hide Rewritten, HeadOf, ArgsOf, ActionFor, UnescapedString, Generated, Proper, AllProper, Spaced, FrontKept, Untokenize;
    if s == [] {
      NothingRewritten(s, devs);
      FrontStays(Untokenize(s));
    } else if HeadOf(s).Open? {
      OpenStep(s, devs);
      FrontStays(Untokenize(s));
    } else if HeadOf(s).Plain? || ActionOf(s, devs).NotHandled? {
      assert s == s[..1] + s[1..];
      ProperConcat(s[..1], s[1..]);
      SpacedBehind(s[..1], s[1..]);
      RewrittenSpaced(s[1..], devs);
      SpacedBefore(s[..1], s[1..], Rewritten(s[1..], devs));
      if HeadOf(s).Plain? {
        PlainStep(s, devs);
      } else {
        NotHandledStep(s, devs);
      }
    } else {
      CalledSpaced(s, devs);
    }
  }

  lemma FrontStays(x: string)
    ensures FrontKept(x, x)
  {
  }

  lemma {:induction false} CalledSpaced(s: seq<Token>, devs: Devices)
    requires AllProper(s) && Spaced(s) && s != [] && HeadOf(s).Called? && !ActionOf(s, devs).NotHandled?
    ensures Spaced(Rewritten(s, devs)) && FrontKept(Untokenize(s), Untokenize(Rewritten(s, devs)))
    decreases |s|, 0
  {
    hide Rewritten, HeadOf, ArgsOf, ActionFor, UnescapedString, Generated, Proper, AllProper, Spaced, FrontKept, Untokenize, EditArgs;
    var Called(lp, rp) := HeadOf(s);
    var rest := s[rp + 1..];
    CallParts(s);
    ProperConcat(s[..rp + 1], rest);
    SpacedBehind(s[..rp + 1], rest);
    RewrittenSpaced(rest, devs);
    match ActionOf(s, devs) {
      case Leave =>
        LeaveStep(s, devs);
        SpacedBefore(s[..rp + 1], rest, Rewritten(rest, devs));
      case Replace(c, p) =>
        ReplaceStep(s, devs);
        GeneratedInFront(s, c, p, Rewritten(rest, devs));
      case Edit(bare) =>
        EditStep(s, devs);
        EditedInFront(s, bare, devs, Rewritten(rest, devs));
    }
  }

  lemma GeneratedInFront(s: seq<Token>, c: Command, p: Partition, y: seq<Token>)
    requires s != [] && s[0].Str? && AllProper(s) && Spaced(y)
    ensures Spaced(Generated(c, p) + y) && FrontKept(Untokenize(s), Untokenize(Generated(c, p) + y))
  {
    GeneratedEnds(c, p);
    hide Generated, Proper, FrontKept, Spaced;
    var g := Generated(c, p) + y;
    GeneratedIsCanonical(c, p);
    SpacedAfterParen(Generated(c, p), y);
    StringFront(s[0], Untokenize(s[1..]), "(", Untokenize(g[1..]));
  }

  lemma GeneratedEnds(c: Command, p: Partition)
    ensures Generated(c, p)[0] == Key(LeftParen) && Generated(c, p)[15] == Key(RightParen)
  {
  }

  lemma EditedInFront(s: seq<Token>, bare: bool, devs: Devices, y: seq<Token>)
    requires s != [] && HeadOf(s).Called? && AllProper(s) && Spaced(s) && Spaced(y)
    requires FrontKept(Untokenize(s[HeadOf(s).rp + 1..]), Untokenize(y))
    ensures var z := EditedCall(s, bare, devs) + y;
            Spaced(z) && FrontKept(Untokenize(s), Untokenize(z))
  {
    hide HeadOf, ArgsOf, Proper, AllProper, Spaced, FrontKept, Untokenize, EditArgs;
    var Called(lp, rp) := HeadOf(s);
    var head, args, last, rest := s[..lp + 1], ArgsOf(s), [s[rp]], s[rp + 1..];
    CallParts(s);
    SpacedBehind(head, args + (last + rest));
    SpacedBehind(args, last + rest);
    SpacedBefore(last, rest, y);
    ProperConcat(head, args + (last + rest));
    ProperConcat(args, last + rest);
    SpacedEdited(args, bare, devs, last + rest, last + y);
    SpacedBefore(head, args + (last + rest), EditArgs(args, bare, devs) + (last + y));
    assert EditedCall(s, bare, devs) + y == head + (EditArgs(args, bare, devs) + (last + y));
  }

  /** The written text of a script that was read is read back as the rewritten tokens exactly when every edited argument is. */
  lemma WrittenReadsBack(x: string, devs: Devices)
    requires Tokenize(x).Some?
    ensures var s := Tokenize(x).value;
            Tokenize(Untokenize(Rewritten(s, devs))) == Some(Rewritten(s, devs)) <==> EditsRead(s, devs)
  {
    hide Tokenize, Untokenize, Rewritten, EditsRead, AllProper, Spaced, Canonical;
    var s := Tokenize(x).value;
    TokenizeExactly(x, s);
    CanonicalIs(s);
    RewrittenProper(s, devs);
    RewrittenSpaced(s, devs);
    CanonicalIs(Rewritten(s, devs));
    TokenizeExactly(Untokenize(Rewritten(s, devs)), Rewritten(s, devs));
  }

  // ---------------------------------------------------------------------------
  // Patching twice
  // ---------------------------------------------------------------------------

  /** Two quotes without a quote inside that start the same text are the same. */
  lemma {:induction false} SameQuote(a: string, x: string, b: string, y: string)
    requires '"' !in a && '"' !in b && a + ['"'] + x == b + ['"'] + y
    ensures a == b
  {
    var s, t := a + ['"'] + x, b + ['"'] + y;
    assert s[0] == t[0];
    if a != "" && b != "" {
      assert s[1..] == a[1..] + ['"'] + x && t[1..] == b[1..] + ['"'] + y;
      SameQuote(a[1..], x, b[1..], y);
      assert a == [a[0]] + a[1..] && b == [b[0]] + b[1..];
    }
  }

  lemma NoQuoteEscaped(w: string)
    requires '"' !in w
    ensures '"' !in Escape(w)
  {
    hide EscapedChar;
    if w != "" {
      NoQuoteEscaped(w[1..]);
      EscapeShape(w[0]);
    }
  }

  lemma QuotedSplits(t: Token)
    requires t.Str? && t.quoted && Proper(t)
    ensures t.str == "\"" + t.str[1..|t.str| - 1] + "\""
  {
    assert t.str[|t.str| - 1] == '"';
  }

  lemma EmptyQuote(t: Token, x: string, y: string)
    requires t.Str? && t.quoted && Proper(t) && "\"\"" + x == t.str + y
    ensures t.str == "\"\""
  {
    assert ("\"\"" + x)[1] == (t.str + y)[1] == t.str[1] == '"';
  }

  /** An edit that changes a token that was read shows in the text. */
  lemma EditShows(t: Token, bare: bool, devs: Devices, x: string, y: string)
    requires Proper(t) && EditToken(t, bare, devs) != t
    ensures Generate(EditToken(t, bare, devs)) + x != Generate(t) + y
  {
    hide Proper, UnescapedString, NewText, Escape;
    var u := UnescapedString(t);
    var w := NewText(u, bare, devs).value;
    NoInnerQuote(t);
    NoQuoteInNewText(u, bare, devs);
    NoQuoteEscaped(w);
    ProperFront(t);
    assert (Generate(EditToken(t, bare, devs)) + x)[0] == '"';
    assert (Generate(t) + y)[0] == Generate(t)[0];
    if t.quoted && Generate(EditToken(t, bare, devs)) + x == Generate(t) + y {
      QuotedSplits(t);
      var inner, e := t.str[1..|t.str| - 1], Escape(w);
      if u == "" {
        assert e == "" by { NothingEscaped(); }
        assert "\"" + e + "\"" == "\"\"";
        EmptyQuote(t, x, y);
      } else {
        assert ("\"" + e + "\"") + x == ['"'] + (e + ['"'] + x);
        assert t.str + y == ['"'] + (inner + ['"'] + y);
        SameFirst(['"'], e + ['"'] + x, inner + ['"'] + y);
        SameQuote(e, x, inner, y);
      }
      assert false;
    }
  }

  lemma {:induction false} EditsShow(args: seq<Token>, bare: bool, devs: Devices, x: string, y: string)
    requires AllProper(args) && Untokenize(EditArgs(args, bare, devs)) + x == Untokenize(args) + y
    ensures EditArgs(args, bare, devs) == args && x == y
  {
    hide Proper, Generate, EditToken;
    if args != [] {
      var t, e := args[0], EditToken(args[0], bare, devs);
      var edited, rest := EditArgs(args[1..], bare, devs), args[1..];
      assert EditArgs(args, bare, devs)[1..] == edited;
      assert Untokenize(EditArgs(args, bare, devs)) + x == Generate(e) + (Untokenize(edited) + x);
      assert Untokenize(args) + y == Generate(t) + (Untokenize(rest) + y);
      if e == t {
        SameFirst(Generate(t), Untokenize(edited) + x, Untokenize(rest) + y);
        EditsShow(rest, bare, devs, x, y);
      } else {
        EditShows(t, bare, devs, Untokenize(edited) + x, Untokenize(rest) + y);
      }
    } else {
      assert "" + x == x && "" + y == y;
    }
  }

  /** A rewriting that changes the tokens of a script that was read shows in the text. */
  lemma {:induction false} RewritingShows(s: seq<Token>, devs: Devices)
    requires AllProper(s)
    ensures Untokenize(Rewritten(s, devs)) == Untokenize(s) <==> Rewritten(s, devs) == s
    decreases |s|
  {
    hide Rewritten, HeadOf, ArgsOf, ActionFor, UnescapedString, Generated, Proper, AllProper, Untokenize;
    if s == [] {
      NothingRewritten(s, devs);
    } else if HeadOf(s).Open? {
      OpenStep(s, devs);
    } else if HeadOf(s).Plain? || ActionOf(s, devs).NotHandled? {
      assert s == s[..1] + s[1..];
      ProperConcat(s[..1], s[1..]);
      RewritingShows(s[1..], devs);
      CopiedShows(s[..1], s[1..], devs);
      if HeadOf(s).Plain? {
        PlainStep(s, devs);
      } else {
        NotHandledStep(s, devs);
      }
    } else {
      var Called(lp, rp) := HeadOf(s);
      var rest := s[rp + 1..];
      CallParts(s);
      ProperConcat(s[..rp + 1], rest);
      RewritingShows(rest, devs);
      match ActionOf(s, devs) {
        case Leave =>
          LeaveStep(s, devs);
          CopiedShows(s[..rp + 1], rest, devs);
        case Replace(c, p) =>
          ReplaceStep(s, devs);
          ReplacementShows(s, c, p, Rewritten(rest, devs));
        case Edit(bare) =>
          EditStep(s, devs);
          EditedShows(s, bare, devs);
      }
    }
  }

  lemma CopiedShows(a: seq<Token>, rest: seq<Token>, devs: Devices)
    requires Untokenize(Rewritten(rest, devs)) == Untokenize(rest) <==> Rewritten(rest, devs) == rest
    ensures Untokenize(a + Rewritten(rest, devs)) == Untokenize(a + rest) <==> a + Rewritten(rest, devs) == a + rest
  {
    hide Untokenize, Rewritten;
    UntokenizeConcat(a, rest);
    UntokenizeConcat(a, Rewritten(rest, devs));
    SameFirst(Untokenize(a), Untokenize(Rewritten(rest, devs)), Untokenize(rest));
  }

  lemma ReplacementShows(s: seq<Token>, c: Command, p: Partition, y: seq<Token>)
    requires s != [] && s[0].Str? && AllProper(s)
    ensures Untokenize(Generated(c, p) + y) != Untokenize(s)
  {
    GeneratedEnds(c, p);
    hide Generated, Proper;
    ProperFront(s[0]);
    var g := Generated(c, p) + y;
    assert Untokenize(g)[0] == '(';
    assert Untokenize(s)[0] == Generate(s[0])[0];
  }

  lemma EditedShows(s: seq<Token>, bare: bool, devs: Devices)
    requires s != [] && HeadOf(s).Called? && AllProper(s)
    requires var rest := s[HeadOf(s).rp + 1..];
             Untokenize(Rewritten(rest, devs)) == Untokenize(rest) <==> Rewritten(rest, devs) == rest
    ensures var z := EditedCall(s, bare, devs) + Rewritten(s[HeadOf(s).rp + 1..], devs);
            Untokenize(z) == Untokenize(s) <==> z == s
  {
    hide HeadOf, ArgsOf, Proper, AllProper, Untokenize, EditArgs, Rewritten;
    var Called(lp, rp) := HeadOf(s);
    var head, args, last, rest := s[..lp + 1], ArgsOf(s), [s[rp]], s[rp + 1..];
    var edited, y := EditArgs(args, bare, devs), Rewritten(rest, devs);
    CallParts(s);
    ProperConcat(head, args + (last + rest));
    ProperConcat(args, last + rest);
    assert EditedCall(s, bare, devs) + y == head + (edited + (last + y));
    TextOfParts(head, args, last, rest);
    TextOfParts(head, edited, last, y);
    if Untokenize(head + (edited + (last + y))) == Untokenize(s) {
      SameFirst(Untokenize(head), Untokenize(edited) + (Untokenize(last) + Untokenize(y)), Untokenize(args) + (Untokenize(last) + Untokenize(rest)));
      EditsShow(args, bare, devs, Untokenize(last) + Untokenize(y), Untokenize(last) + Untokenize(rest));
      SameFirst(Untokenize(last), Untokenize(y), Untokenize(rest));
    }
  }

  lemma TextOfParts(a: seq<Token>, b: seq<Token>, c: seq<Token>, d: seq<Token>)
    ensures Untokenize(a + (b + (c + d))) == Untokenize(a) + (Untokenize(b) + (Untokenize(c) + Untokenize(d)))
  {
    hide Untokenize;
    UntokenizeConcat(a, b + (c + d));
    UntokenizeConcat(b, c + d);
    UntokenizeConcat(c, d);
  }

  /** Patching leaves a script as it is exactly when it has a shebang line or rewriting leaves its tokens. */
  lemma PatchingStays(x: string, devs: Devices)
    ensures PatchedText(x, devs) == Some(x)
       <==> "#!" <= x || (Tokenize(x).Some? && Rewritten(Tokenize(x).value, devs) == Tokenize(x).value)
  {
    hide Tokenize, Untokenize, Rewritten, AllProper, Spaced, Canonical;
    if Tokenize(x).Some? {
      var s := Tokenize(x).value;
      TokenizeExactly(x, s);
      CanonicalIs(s);
      RewritingShows(s, devs);
    }
  }

  /** Only a comment starts with a number sign, and it starts the written text too. */
  lemma NoShebangWritten(s: seq<Token>, devs: Devices)
    requires AllProper(s) && Spaced(s) && !("#!" <= Untokenize(s))
    ensures !("#!" <= Untokenize(Rewritten(s, devs)))
  {
    hide Rewritten, AllProper, Spaced, Untokenize;
    RewrittenSpaced(s, devs);
    if "#!" <= Untokenize(Rewritten(s, devs)) {
      assert Untokenize(s) != "" && Untokenize(s)[0] == '#';
      CommentWritten(s, devs);
      assert false;
    }
  }

  lemma TextSplits(a: Token, rest: seq<Token>)
    ensures Untokenize([a] + rest) == Generate(a) + Untokenize(rest)
  {
    hide Generate;
    assert ([a] + rest)[1..] == rest;
  }

  lemma SpacedSplits(s: seq<Token>)
    requires s != [] && Spaced(s)
    ensures Apart(s[0], Untokenize(s[1..])) && Spaced(s[1..])
  {
    hide Apart;
  }

  lemma CommentStarts(s: seq<Token>)
    requires AllProper(s) && Untokenize(s) != "" && Untokenize(s)[0] == '#'
    ensures s != [] && s[0].Comment?
  {
    hide Proper;
    FirstIsProper(s);
    ProperFront(s[0]);
    NumberSign(s[0]);
  }

  lemma CommentWritten(s: seq<Token>, devs: Devices)
    requires AllProper(s) && Spaced(s) && !("#!" <= Untokenize(s)) && Untokenize(s) != "" && Untokenize(s)[0] == '#'
    ensures !("#!" <= Untokenize(Rewritten(s, devs)))
  {
    hide Rewritten, HeadOf, Proper, AllProper, Spaced, Untokenize, FrontKept;
    CommentStarts(s);
    assert s == s[..1] + s[1..] && s[..1] == [s[0]];
    ProperConcat(s[..1], s[1..]);
    SpacedSplits(s);
    CommentIsPlain(s);
    PlainStep(s, devs);
    RewrittenSpaced(s[1..], devs);
    TextSplits(s[0], s[1..]);
    TextSplits(s[0], Rewritten(s[1..], devs));
    SecondCharacter(s[0].str, Untokenize(s[1..]), Untokenize(Rewritten(s[1..], devs)));
  }

  lemma FirstIsProper(s: seq<Token>)
    requires AllProper(s) && s != []
    ensures Proper(s[0])
  {
    hide Proper;
  }

  lemma NumberSign(t: Token)
    requires Proper(t) && Generate(t) != "" && Generate(t)[0] == '#'
    ensures t.Comment?
  {
    hide EndOfQuote, KeywordAt;
  }

  lemma CommentIsPlain(s: seq<Token>)
    requires s != [] && s[0].Comment?
    ensures HeadOf(s).Plain?
  {
  }

  lemma SecondCharacter(c: string, rest: string, y: string)
    requires FrontKept(rest, y) && (rest == "" || rest[0] == '\n') && !("#!" <= "#" + c + rest)
    ensures !("#!" <= "#" + c + y)
  {
    var a, b := "#" + c + rest, "#" + c + y;
    if c != "" {
      assert a[1] == c[0] && b[1] == c[0];
      assert a[..2] == [a[0], a[1]];
    } else if y != "" {
      assert b[1] == y[0];
    }
  }

  /** What a text is when patching leaves it: its tokens are left by rewriting. */
  predicate TokensStay(x: string, devs: Devices) {
    Tokenize(x).Some? && Rewritten(Tokenize(x).value, devs) == Tokenize(x).value
  }

  /**
   Patching a patched script again changes nothing exactly if it is settled, provided that its edited arguments
   are read back. Otherwise the written text has other tokens than the rewritten ones, and these decide.
   */
  lemma PatchingTwice(x: string, devs: Devices)
    requires Tokenize(x).Some?
    ensures PatchedText(x, devs).Some?
    ensures var s, y := Tokenize(x).value, PatchedText(x, devs).value;
            PatchedText(y, devs) == Some(y) <==>
              "#!" <= x || (if EditsRead(s, devs) then Settled(s, devs) else TokensStay(y, devs))
  {
    hide Tokenize, Untokenize, Rewritten, EditsRead, Settled, AllProper, Spaced, Canonical;
    var s := Tokenize(x).value;
    if !("#!" <= x) {
      var y := Untokenize(Rewritten(s, devs));
      TokenizeExactly(x, s);
      CanonicalIs(s);
      NoShebangWritten(s, devs);
      WrittenReadsBack(x, devs);
      PatchingStays(y, devs);
      RewritingTwice(s, devs);
    }
  }

  // --- Edits that are not read back ----------------------------------------------------

  /** Tokens that are read back, and quoted texts without quotes. */
  ghost predicate ProperOrQuoted(t: Token) {
    Proper(t) || exists w :: t == Quoted(w) && '"' !in w
  }

  ghost predicate AllProperOrQuoted(ts: seq<Token>) {
    forall i :: 0 <= i < |ts| ==> ProperOrQuoted(ts[i])
  }

  lemma ProperOrQuotedConcat(a: seq<Token>, b: seq<Token>)
    requires AllProperOrQuoted(a) && AllProperOrQuoted(b)
    ensures AllProperOrQuoted(a + b)
  {
    hide ProperOrQuoted;
  }

  lemma ProperAreEither(a: seq<Token>)
    requires AllProper(a)
    ensures AllProperOrQuoted(a)
  {
    hide Proper, Quoted;
  }

  lemma EditedIsEither(t: Token, bare: bool, devs: Devices)
    requires Proper(t)
    ensures ProperOrQuoted(EditToken(t, bare, devs))
  {
    hide Proper, UnescapedString, NewText, Quoted;
    if t.Str? {
      NoInnerQuote(t);
      NoQuoteInNewText(UnescapedString(t), bare, devs);
    }
  }

  lemma EditedArgsAreEither(args: seq<Token>, bare: bool, devs: Devices)
    requires AllProper(args)
    ensures AllProperOrQuoted(EditArgs(args, bare, devs))
  {
    hide Proper, EditToken, ProperOrQuoted;
    forall k | 0 <= k < |args| ensures ProperOrQuoted(EditToken(args[k], bare, devs)) {
      EditedIsEither(args[k], bare, devs);
    }
  }

  /** Whatever is not read back in a rewritten script is the quoted text of an edit. */
  lemma {:induction false} RewrittenIsEither(s: seq<Token>, devs: Devices)
    requires AllProper(s)
    ensures AllProperOrQuoted(Rewritten(s, devs))
    decreases |s|
  {
    hide Rewritten, HeadOf, ArgsOf, ActionFor, UnescapedString, Generated, Proper, AllProper, AllProperOrQuoted;
    if s == [] {
      NothingRewritten(s, devs);
      ProperAreEither(s);
    } else if HeadOf(s).Open? {
      OpenStep(s, devs);
      ProperAreEither(s);
    } else if HeadOf(s).Plain? || ActionOf(s, devs).NotHandled? {
      assert s == s[..1] + s[1..];
      ProperConcat(s[..1], s[1..]);
      ProperAreEither(s[..1]);
      RewrittenIsEither(s[1..], devs);
      ProperOrQuotedConcat(s[..1], Rewritten(s[1..], devs));
      if HeadOf(s).Plain? {
        PlainStep(s, devs);
      } else {
        NotHandledStep(s, devs);
      }
    } else {
      CalledIsEither(s, devs);
    }
  }

  lemma {:induction false} CalledIsEither(s: seq<Token>, devs: Devices)
    requires AllProper(s) && s != [] && HeadOf(s).Called? && !ActionOf(s, devs).NotHandled?
    ensures AllProperOrQuoted(Rewritten(s, devs))
    decreases |s|, 0
  {
    hide Rewritten, HeadOf, ArgsOf, ActionFor, UnescapedString, Generated, Proper, AllProper, AllProperOrQuoted, EditArgs;
    var Called(lp, rp) := HeadOf(s);
    var head, last, rest := s[..lp + 1], [s[rp]], s[rp + 1..];
    CallParts(s);
    ProperConcat(s[..rp + 1], rest);
    ProperConcat(head + ArgsOf(s), last);
    ProperConcat(head, ArgsOf(s));
    RewrittenIsEither(rest, devs);
    var y := Rewritten(rest, devs);
    match ActionOf(s, devs) {
      case Leave =>
        LeaveStep(s, devs);
        ProperAreEither(s[..rp + 1]);
        ProperOrQuotedConcat(s[..rp + 1], y);
      case Replace(c, p) =>
        ReplaceStep(s, devs);
        GeneratedIsCanonical(c, p);
        ProperAreEither(Generated(c, p));
        ProperOrQuotedConcat(Generated(c, p), y);
      case Edit(bare) =>
        EditStep(s, devs);
        var edited := EditArgs(ArgsOf(s), bare, devs);
        ProperAreEither(head);
        ProperAreEither(last);
        EditedArgsAreEither(ArgsOf(s), bare, devs);
        ProperOrQuotedConcat(head, edited);
        ProperOrQuotedConcat(head + edited, last);
        ProperOrQuotedConcat(head + edited + last, y);
    }
  }

  lemma {:induction false} NoQuoteNoEnd(data: string, p: nat, escaped: bool)
    requires p <= |data| && '"' !in data[p..]
    ensures EndOfQuote(data, p, escaped) == None
    decreases |data| - p
  {
    if p < |data| {
      assert data[p] == data[p..][0] && data[p + 1..] == data[p..][1..];
      NoQuoteNoEnd(data, p + 1, (data[p] == '\\' || escaped) && !escaped);
    }
  }

  /** A quoted text that leaves a backslash pending takes the closing quote with it. */
  lemma {:induction false} PendingStaysOpen(data: string, p: nat, w: string, escaped: bool, rest: string)
    requires p <= |data| && data[p..] == Escape(w) + ("\"" + rest) && '"' !in w && '"' !in rest && Pending(w, escaped)
    ensures EndOfQuote(data, p, escaped) == None
    decreases |w|
  {
    hide EscapedChar, Escape, EndOfQuote;
    if w == "" {
      NothingPending(data, p, rest);
    } else {
      var e := EscapedChar(w[0]);
      EscapeParts(w);
      Regrouped(e, Escape(w[1..]), "\"" + rest);
      TextAt(data, p, e, Escape(w[1..]) + ("\"" + rest));
      QuotePastEscape(data, p, w[0], escaped);
      PendingStaysOpen(data, p + |e|, w[1..], w[0] == '\\' && !escaped, rest);
    }
  }

  lemma NothingPending(data: string, p: nat, rest: string)
    requires p <= |data| && data[p..] == Escape("") + ("\"" + rest) && '"' !in rest
    ensures EndOfQuote(data, p, true) == None
  {
    hide EndOfQuote;
    NothingEscaped();
    TextAt(data, p, "\"", rest);
    QuoteIsEscaped(data, p);
    NoQuoteNoEnd(data, p + 1, false);
  }

  lemma QuoteIsEscaped(data: string, p: nat)
    requires p < |data|
    ensures EndOfQuote(data, p, true) == EndOfQuote(data, p + 1, false)
  {
  }

  lemma QuotedStaysOpen(data: string, p: nat, w: string, rest: string)
    requires p <= |data| && data[p..] == Quoted(w).str + rest && '"' !in w && '"' !in rest && !Proper(Quoted(w))
    ensures TokensFrom(data, p) == None
  {
    hide Escape, EndOfQuote, KeywordAt, Pending, TrailingBackslashes;
    QuotedIsProperExactly(w);
    PendingIsParity(w, false);
    assert Quoted(w).str + rest == "\"" + (Escape(w) + ("\"" + rest));
    TextAt(data, p, "\"", Escape(w) + ("\"" + rest));
    PendingStaysOpen(data, p + 1, w, false, rest);
    QuoteIsOpen(data, p);
  }

  lemma {:induction false} OpenAtBroken(data: string, p: nat, ts: seq<Token>, k: nat)
    requires p <= |data| && data[p..] == Untokenize(ts) && Spaced(ts) && AllProperOrQuoted(ts)
    requires k < |ts| && AllProper(ts[..k]) && !Proper(ts[k]) && '"' !in Untokenize(ts[k + 1..])
    ensures TokensFrom(data, p) == None
    decreases k
  {
    hide Proper, Apart, Generate, TokensFrom, Quoted;
    if k == 0 {
      assert ProperOrQuoted(ts[0]);
      var w :| ts[0] == Quoted(w) && '"' !in w;
      GenerateOfQuoted(w);
      QuotedStaysOpen(data, p, w, Untokenize(ts[1..]));
    } else {
      assert Proper(ts[..k][0]);
      TextAt(data, p, Generate(ts[0]), Untokenize(ts[1..]));
      assert ts[1..][..k - 1] == ts[..k][1..] && ts[1..][k..] == ts[k + 1..];
      OpenAtBroken(data, p + |Generate(ts[0])|, ts[1..], k - 1);
      OpenBehind(data, p, ts[0], Untokenize(ts[1..]));
    }
  }

  lemma GenerateOfQuoted(w: string)
    ensures Quoted(w).Str? && Generate(Quoted(w)) == Quoted(w).str
  {
  }

  lemma {:induction false} FirstBroken(ts: seq<Token>) returns (k: nat)
    requires !AllProper(ts)
    ensures k < |ts| && AllProper(ts[..k]) && !Proper(ts[k])
  {
    hide Proper;
    if !Proper(ts[0]) {
      k := 0;
    } else {
      assert ts == ts[..1] + ts[1..];
      ProperConcat(ts[..1], ts[1..]);
      var j := FirstBroken(ts[1..]);
      k := j + 1;
      assert ts[..k] == ts[..1] + ts[1..][..j];
      ProperConcat(ts[..1], ts[1..][..j]);
    }
  }

  /**
   A script with an edit that is not read back: unless a quote follows the first such edit in the rewritten script,
   the patched text is refused.
   */
  lemma UnreadEditIsRefused(x: string, devs: Devices) returns (k: nat)
    requires Tokenize(x).Some? && !EditsRead(Tokenize(x).value, devs)
    ensures var ts := Rewritten(Tokenize(x).value, devs);
            && k < |ts| && AllProper(ts[..k]) && !Proper(ts[k])
            && ('"' !in Untokenize(ts[k + 1..]) ==> Tokenize(Untokenize(ts)) == None)
    ensures var s := Tokenize(x).value;
            !("#!" <= x) && '"' !in Untokenize(Rewritten(s, devs)[k + 1..]) ==>
              PatchedText(x, devs) == Some(Untokenize(Rewritten(s, devs))) && PatchedText(Untokenize(Rewritten(s, devs)), devs) == None
  {
    hide Tokenize, Untokenize, Rewritten, EditsRead, AllProper, Spaced, Canonical, AllProperOrQuoted, Proper;
    var s := Tokenize(x).value;
    var ts := Rewritten(s, devs);
    TokenizeExactly(x, s);
    CanonicalIs(s);
    RewrittenProper(s, devs);
    RewrittenSpaced(s, devs);
    RewrittenIsEither(s, devs);
    k := FirstBroken(ts);
    if '"' !in Untokenize(ts[k + 1..]) {
      WholeIsOpen(ts, k);
      if !("#!" <= x) {
        NoShebangWritten(s, devs);
      }
    }
  }

  lemma WholeIsOpen(ts: seq<Token>, k: nat)
    requires Spaced(ts) && AllProperOrQuoted(ts)
    requires k < |ts| && AllProper(ts[..k]) && !Proper(ts[k]) && '"' !in Untokenize(ts[k + 1..])
    ensures Tokenize(Untokenize(ts)) == None
  {
    hide Untokenize, AllProper, Spaced, AllProperOrQuoted, Proper, TokensFrom;
    var data := Untokenize(ts);
    assert data[0..] == data;
    OpenAtBroken(data, 0, ts, k);
  }

  // ---------------------------------------------------------------------------
  // A script whose patched form cannot be read
  // ---------------------------------------------------------------------------

  const ONE_DEVICE := Devices(["d"], [], [])

  /** A call with one quoted argument. */
  function OneArgument(body: string): seq<Token> {
    [Str("range_sha1", false), Key(LeftParen), Str("\"" + body + "\"", true), Key(RightParen)]
  }

  function OneArgumentText(body: string): string {
    "range_sha1" + ("(" + (("\"" + body + "\"") + ")"))
  }

  lemma OneArgumentReads(body: string)
    requires Proper(Str("\"" + body + "\"", true))
    ensures Canonical(OneArgument(body)) && Untokenize(OneArgument(body)) == OneArgumentText(body)
  {
    hide Reads, Proper;
    var q := "\"" + body + "\"";
    EmptyReads();
    KeyStep(RightParen, [], "");
    QuotedStep(q, [Key(RightParen)] + [], ")" + "");
    KeyStep(LeftParen, [Str(q, true)] + ([Key(RightParen)] + []), q + (")" + ""));
    UnquotedIsProper("range_sha1");
    WordStep("range_sha1", [Key(LeftParen)] + ([Str(q, true)] + ([Key(RightParen)] + [])), "(" + (q + (")" + "")));
    assert OneArgument(body) == [Str("range_sha1", false)] + ([Key(LeftParen)] + ([Str(q, true)] + ([Key(RightParen)] + [])));
    assert ")" + "" == ")";
    ReadsIs(OneArgument(body), OneArgumentText(body));
  }

  lemma ReadsIs(ts: seq<Token>, text: string)
    ensures Reads(ts, text) <==> Canonical(ts) && Untokenize(ts) == text
  {
  }

  lemma OneArgumentHead(body: string)
    ensures HeadOf(OneArgument(body)) == Called(1, 3) && ArgsOf(OneArgument(body)) == OneArgument(body)[2..3]
  {
    hide NextSignificant, Closing;
    NextSignificantIs(OneArgument(body), 1, 1);
    ClosingOfFlat(OneArgument(body), 2, 3);
  }

  lemma OneArgumentAction(body: string, devs: Devices)
    ensures HeadOf(OneArgument(body)).Called? && ActionOf(OneArgument(body), devs) == Edit(false)
  {
    hide HeadOf, ArgsOf, Unescape;
    OneArgumentHead(body);
    UnescapePlain("range_sha1");
  }

  lemma OneArgumentRewritten(body: string, devs: Devices)
    ensures Rewritten(OneArgument(body), devs)
         == [OneArgument(body)[0], OneArgument(body)[1], EditToken(OneArgument(body)[2], false, devs), OneArgument(body)[3]]
  {
    hide HeadOf, ArgsOf, ActionFor, Rewritten, EditToken, UnescapedString;
    var s := OneArgument(body);
    OneArgumentHead(body);
    OneArgumentAction(body, devs);
    EditStep(s, devs);
    NothingRewritten(s[4..], devs);
    assert EditArgs(s[2..3], false, devs) == [EditToken(s[2], false, devs)];
  }

  lemma {:induction false} UnescapeBehind(a: string, rest: string)
    requires '\\' !in a && Unescape(rest).None?
    ensures Unescape(a + rest).None?
  {
    if a == "" {
      assert a + rest == rest;
    } else {
      UnescapeBehind(a[1..], rest);
      assert (a + rest)[1..] == a[1..] + rest;
    }
  }

  /** A backslash at the end takes the quote with it: the string denotes nothing and is not edited again. */
  lemma BackslashAtEnd()
    ensures UnescapedString(Str("\"" + (IMAGE_PATH + "\\") + "\"", true)) == ""
    ensures EditToken(Str("\"" + (IMAGE_PATH + "\\") + "\"", true), false, ONE_DEVICE) == Str("\"" + (IMAGE_PATH + "\\") + "\"", true)
  {
    hide UnescapedString;
    var e := IMAGE_PATH + "\\";
    ImagePathIsRaw();
    UnescapeBehind(IMAGE_PATH, "\\");
    InsideQuotes(e);
    assert !Contains("", "d");
    EditMisses(Str("\"" + e + "\"", true), false, ONE_DEVICE);
  }

  const BACKSLASH_ARGUMENT := "d\\\\"

  lemma ArgumentDenotes()
    ensures UnescapedString(Str("\"" + BACKSLASH_ARGUMENT + "\"", true)) == "d\\"
  {
    hide Unescape;
    var pair := "\\\\\"";
    PairDenotes();
    UnescapeFirst('d', pair);
    UnescapeFirst('"', ['d'] + pair);
    assert "\"" + BACKSLASH_ARGUMENT + "\"" == ['"'] + (['d'] + pair);
    var out := ['"'] + (['d'] + "\\\"");
    assert out[1..3] == "d\\";
  }

  lemma PairDenotes()
    ensures Unescape("\\\\\"") == Some("\\\"")
  {
    UnescapePlain("\"");
    UnescapeEscape("\\\\\"", 0);
    hide Unescape;
    assert "\\\\\""[0..] == "\\\\\"" && "\\\\\""[2..] == "\"";
    assert ['\\'] + "\"" == "\\\"";
  }

  lemma ArgumentReplaced()
    ensures ReplaceAll("d\\", "d", IMAGE_PATH) == IMAGE_PATH + "\\"
    ensures Contains("d\\", "d")
  {
    var u := "d\\";
    assert OccursAt(u, "d", 0);
    assert u[1..] == "\\" && "\\"[1..] == "";
    assert !OccursAt("\\", "d", 0) by { assert "\\"[0..1] == "\\"; }
    hide OccursAt;
    assert ReplaceAll("\\", "d", IMAGE_PATH) == ['\\'] + ReplaceAll("", "d", IMAGE_PATH);
  }

  lemma QuotedIs(w: string)
    requires Escape(w) == w
    ensures Quoted(w) == Str("\"" + w + "\"", true)
  {
  }

  lemma PathAndBackslash()
    ensures Escape(IMAGE_PATH + "\\") == IMAGE_PATH + "\\"
  {
    assert Escape("\\") == "\\";
    hide Escape;
    ImagePathIsPlain();
    EscapePlain(IMAGE_PATH);
    EscapeConcat(IMAGE_PATH, "\\");
  }

  lemma ArgumentEdited()
    ensures NewText("d\\", false, ONE_DEVICE) == Some(IMAGE_PATH + "\\")
    ensures Quoted(IMAGE_PATH + "\\") == Str("\"" + (IMAGE_PATH + "\\") + "\"", true)
  {
    hide ReplaceAll, Contains, Escape, Quoted;
    ArgumentReplaced();
    PathAndBackslash();
    QuotedIs(IMAGE_PATH + "\\");
  }

  lemma {:induction false} QuoteSkips(data: string, p: nat, n: nat)
    requires p <= n <= |data| && forall k :: p <= k < n ==> data[k] != '"' && data[k] != '\\'
    ensures EndOfQuote(data, p, false) == EndOfQuote(data, n, false)
    decreases n - p
  {
    if p < n {
      QuoteSkips(data, p + 1, n);
    }
  }

  lemma QuoteStaysOpen(data: string, p: nat, n: nat)
    requires p <= n && n + 3 == |data| && data[n] == '\\' && data[n + 1] == '"' && data[n + 2] == ')'
    requires forall k :: p <= k < n ==> data[k] != '"' && data[k] != '\\'
    ensures EndOfQuote(data, p, false) == None
  {
    QuoteSkips(data, p, n);
    assert EndOfQuote(data, n + 2, false) == EndOfQuote(data, n + 3, false) == None;
  }

  lemma WrittenTail()
    ensures var data := OneArgumentText(IMAGE_PATH + "\\");
            |data| == 29 && data[11] == '"' && data[26] == '\\' && data[27] == '"' && data[28] == ')'
            && forall k :: 12 <= k < 26 ==> data[k] == IMAGE_PATH[k - 12]
  {
  }

  lemma QuoteIsOpen(data: string, p: nat)
    requires p < |data| && data[p] == '"' && EndOfQuote(data, p + 1, false) == None
    ensures NextToken(data, p) == Unterminated
  {
    hide KeywordAt, EndOfQuote;
    QuoteIsNoKeyword(data, p);
  }

  lemma WrittenQuote()
    ensures var data := OneArgumentText(IMAGE_PATH + "\\");
            |data| == 29 && NextToken(data, 11) == Unterminated
  {
    hide NextToken, EndOfQuote, OneArgumentText;
    WrittenTail();
    ImagePathIsPath();
    var data := OneArgumentText(IMAGE_PATH + "\\");
    QuoteStaysOpen(data, 12, 26);
    QuoteIsOpen(data, 11);
  }

  /** An open quote behind a token leaves the whole list open. */
  lemma OpenBehind(data: string, p: nat, t: Token, rest: string)
    requires p <= |data| && data[p..] == Generate(t) + rest && Proper(t) && Apart(t, rest)
    requires TokensFrom(data, p + |Generate(t)|) == None
    ensures TokensFrom(data, p) == None
  {
    hide NextToken, Proper, Apart, Generate;
    TokenIsRead(data, p, t, rest);
  }

  lemma OpenArgument(data: string, name: string, rest: string)
    requires data == name + ("(" + rest) && Proper(Str(name, false))
    requires |data| > |name| + 1 && NextToken(data, |name| + 1) == Unterminated
    ensures Tokenize(data) == None
  {
    var n := |name|;
    assert data[0..] == data && data[n..] == "(" + rest && TokensFrom(data, n + 1) == None;
    hide NextToken, Proper, TokensFrom;
    OpenBehind(data, n, Key(LeftParen), rest);
    OpenBehind(data, 0, Str(name, false), "(" + rest);
  }

  lemma WrittenIsOpen()
    ensures Tokenize(OneArgumentText(IMAGE_PATH + "\\")) == None
  {
    hide NextToken, Tokenize, Proper;
    WrittenQuote();
    var body := IMAGE_PATH + "\\";
    UnquotedIsProper("range_sha1");
    OpenArgument(OneArgumentText(body), "range_sha1", ("\"" + body + "\"") + ")");
  }

  lemma ImagePathIsPath()
    ensures |IMAGE_PATH| == 14 && forall k :: 0 <= k < 14 ==> IMAGE_PATH[k] != '"' && IMAGE_PATH[k] != '\\'
  {
  }

  lemma ArgumentIsProper()
    ensures Proper(Str("\"" + BACKSLASH_ARGUMENT + "\"", true))
  {
    var s := "\"" + BACKSLASH_ARGUMENT + "\"";
    assert |s| == 5 && s[1] == 'd' && s[2] == '\\' && s[3] == '\\' && s[4] == '"';
    assert EndOfQuote(s, 1, false) == EndOfQuote(s, 2, false) == EndOfQuote(s, 3, true);
    assert EndOfQuote(s, 3, true) == EndOfQuote(s, 4, false) == Some(5);
  }

  lemma OneArgumentWritten(body: string)
    ensures Untokenize(OneArgument(body)) == OneArgumentText(body) && !("#!" <= OneArgumentText(body))
  {
    var s := OneArgument(body);
    assert s[1..][1..] == s[2..] && s[2..][1..] == s[3..] == [s[3]];
    OneToken(s[3]);
    assert Untokenize(s[2..]) == s[2].str + ")";
    assert Untokenize(s[1..]) == "(" + (s[2].str + ")");
    assert OneArgumentText(body)[0] == 'r';
  }

  lemma PassesAgree()
    ensures Rewritten(OneArgument(BACKSLASH_ARGUMENT), ONE_DEVICE) == OneArgument(IMAGE_PATH + "\\")
    ensures Rewritten(OneArgument(IMAGE_PATH + "\\"), ONE_DEVICE) == OneArgument(IMAGE_PATH + "\\")
  {
    hide Rewritten, UnescapedString, NewText, Quoted;
    OneArgumentRewritten(BACKSLASH_ARGUMENT, ONE_DEVICE);
    OneArgumentRewritten(IMAGE_PATH + "\\", ONE_DEVICE);
    ArgumentDenotes();
    ArgumentEdited();
    BackslashAtEnd();
  }

  /** Settled, but the patched script is refused: the backslash that two stood for swallows the closing quote. */
  lemma PatchedIsRefused()
    ensures var s, x := OneArgument(BACKSLASH_ARGUMENT), OneArgumentText(BACKSLASH_ARGUMENT);
            && Tokenize(x) == Some(s) && Settled(s, ONE_DEVICE) && !EditsRead(s, ONE_DEVICE)
            && PatchedText(x, ONE_DEVICE) == Some(OneArgumentText(IMAGE_PATH + "\\"))
            && PatchedText(OneArgumentText(IMAGE_PATH + "\\"), ONE_DEVICE) == None
  {
    hide OneArgument, OneArgumentText, Proper, Tokenize, Settled, EditsRead, Rewritten, Canonical, Untokenize;
    var s, body := OneArgument(BACKSLASH_ARGUMENT), IMAGE_PATH + "\\";
    ArgumentIsProper();
    OneArgumentReads(BACKSLASH_ARGUMENT);
    OneArgumentWritten(BACKSLASH_ARGUMENT);
    OneArgumentWritten(body);
    TokenizeExactly(OneArgumentText(BACKSLASH_ARGUMENT), s);
    WrittenIsOpen();
    PassesAgree();
    RewritingTwice(s, ONE_DEVICE);
    WrittenReadsBack(OneArgumentText(BACKSLASH_ARGUMENT), ONE_DEVICE);
  }
}
