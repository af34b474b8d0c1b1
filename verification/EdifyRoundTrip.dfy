/** Which token lists come back from their text. */
module EdifyRoundTrip {
  import opened Bytes
  import opened Strings
  import opened EdifyTokenizer
  import opened StandardPatcher

  /** The text of a token reads as that token, as far as the text itself goes. */
  predicate Proper(t: Token) {
    match t
    case Key(_) => true
    case Whitespace(s) => s != "" && forall i :: 0 <= i < |s| ==> InClass(Blank, s[i])
    case Comment(s) => '\n' !in s
    case Str(s, quoted) =>
      if quoted then |s| >= 2 && s[0] == '"' && EndOfQuote(s, 1, false) == Some(|s|)
      else s != "" && (forall i :: 0 <= i < |s| ==> IsValidUnquoted(s[i])) && KeywordAt(s, 0) == None
    case Unrecognised(c) => !IsSpace(c) && !IsValidUnquoted(c) && c !in "#\"!();,+"
  }

  /** The text behind a token does not run into it. */
  predicate Apart(t: Token, rest: string) {
    rest == "" ||
    match t
    case Key(k) => k == Not ==> rest[0] != '='
    case Whitespace(_) => !InClass(Blank, rest[0])
    case Comment(_) => rest[0] == '\n'
    case Str(_, quoted) => quoted || !IsValidUnquoted(rest[0])
    case Unrecognised(c) => c in "&|=" ==> rest[0] != c
  }

  /** Every token proper and apart from what follows. */
  predicate Canonical(ts: seq<Token>) {
    ts == [] || (Proper(ts[0]) && Apart(ts[0], Untokenize(ts[1..])) && Canonical(ts[1..]))
  }

  lemma {:induction false} RunIs(k: Class, data: string, p: nat, end: nat)
    requires p <= end <= |data|
    requires forall i :: p <= i < end ==> InClass(k, data[i])
    requires end < |data| ==> !InClass(k, data[end])
    ensures EndOfRun(k, data, p) == end
    decreases end - p
  {
    if p < end {
      RunIs(k, data, p + 1, end);
    }
  }

  /** A quote that closes inside a part of the text closes there in the text. */
  lemma {:induction false} QuoteIs(s: string, data: string, p: nat, i: nat, escaped: bool)
    requires i <= |s| && p + |s| <= |data| && data[p..p + |s|] == s
    requires EndOfQuote(s, i, escaped) == Some(|s|)
    ensures EndOfQuote(data, p + i, escaped) == Some(p + |s|)
    decreases |s| - i
  {
    if i < |s| {
      assert data[p + i] == data[p..p + |s|][i];
      if s[i] == '\\' || escaped {
        QuoteIs(s, data, p, i + 1, !escaped);
      } else if s[i] != '"' {
        QuoteIs(s, data, p, i + 1, false);
      }
    }
  }

  lemma LettersAt(data: string, p: nat, word: string, i: nat)
    requires OccursAt(data, word, p) && i < |word|
    ensures p + i < |data| && data[p + i] == word[i]
  {
    assert data[p + i] == data[p..p + |word|][i];
  }

  /** What the longer keywords start with. */
  lemma KeywordLetters(data: string, p: nat)
    requires p < |data|
    ensures OccursAt(data, "if", p) ==> data[p] == 'i'
    ensures OccursAt(data, "then", p) ==> data[p] == 't'
    ensures OccursAt(data, "else", p) ==> data[p] == 'e' && p + 1 < |data| && data[p + 1] == 'l'
    ensures OccursAt(data, "endif", p) ==> data[p] == 'e' && p + 1 < |data| && data[p + 1] == 'n'
    ensures OccursAt(data, "&&", p) ==> data[p] == '&' && p + 1 < |data| && data[p + 1] == '&'
    ensures OccursAt(data, "||", p) ==> data[p] == '|' && p + 1 < |data| && data[p + 1] == '|'
    ensures OccursAt(data, "==", p) ==> data[p] == '=' && p + 1 < |data| && data[p + 1] == '='
    ensures OccursAt(data, "!=", p) ==> data[p] == '!' && p + 1 < |data| && data[p + 1] == '='
  {
    hide OccursAt;
    if OccursAt(data, "if", p) { LettersAt(data, p, "if", 0); }
    if OccursAt(data, "then", p) { LettersAt(data, p, "then", 0); }
    if OccursAt(data, "else", p) { LettersAt(data, p, "else", 0); LettersAt(data, p, "else", 1); }
    if OccursAt(data, "endif", p) { LettersAt(data, p, "endif", 0); LettersAt(data, p, "endif", 1); }
    if OccursAt(data, "&&", p) { LettersAt(data, p, "&&", 0); LettersAt(data, p, "&&", 1); }
    if OccursAt(data, "||", p) { LettersAt(data, p, "||", 0); LettersAt(data, p, "||", 1); }
    if OccursAt(data, "==", p) { LettersAt(data, p, "==", 0); LettersAt(data, p, "==", 1); }
    if OccursAt(data, "!=", p) { LettersAt(data, p, "!=", 0); LettersAt(data, p, "!=", 1); }
  }

  /** A keyword is read at its own text. */
  lemma KeywordIs(data: string, p: nat, k: Keyword)
    requires OccursAt(data, KeywordText(k), p)
    requires k == Not && p + 1 < |data| ==> data[p + 1] != '='
    ensures p < |data| && KeywordAt(data, p) == Some(k)
  {
    hide OccursAt;
    LettersAt(data, p, KeywordText(k), 0);
    KeywordLetters(data, p);
  }

  /** Letters and digits are a keyword together or not at all, whatever follows. */
  lemma NoKeyword(data: string, p: nat, s: string)
    requires s != "" && p + |s| <= |data| && data[p..p + |s|] == s
    requires (forall i :: 0 <= i < |s| ==> IsValidUnquoted(s[i])) && KeywordAt(s, 0) == None
    requires p + |s| < |data| ==> !IsValidUnquoted(data[p + |s|])
    ensures KeywordAt(data, p) == None
  {
    hide OccursAt;
    assert data[p] == data[p..p + |s|][0];
    KeywordLetters(data, p);
    NoWord(data, p, s, "if");
    NoWord(data, p, s, "then");
    NoWord(data, p, s, "else");
    NoWord(data, p, s, "endif");
  }

  lemma NoWord(data: string, p: nat, s: string, word: string)
    requires p + |s| <= |data| && data[p..p + |s|] == s
    requires p + |s| < |data| ==> !IsValidUnquoted(data[p + |s|])
    requires forall i :: 0 <= i < |word| ==> IsValidUnquoted(word[i])
    ensures OccursAt(data, word, p) ==> OccursAt(s, word, 0)
  {
    if OccursAt(data, word, p) {
      if |s| < |word| {
        LettersAt(data, p, word, |s|);
        assert false;
      }
      assert s[0..|word|] == data[p..p + |s|][..|word|] == data[p..p + |word|];
    }
  }

  /** A proper token is read back in front of text that keeps apart. */
  lemma TokenIsRead(data: string, p: nat, t: Token, rest: string)
    requires p <= |data| && data[p..] == Generate(t) + rest && Proper(t) && Apart(t, rest)
    ensures p < |data| && NextToken(data, p) == Next(t, p + |Generate(t)|)
    ensures data[p + |Generate(t)|..] == rest
  {
    hide NextToken, KeywordAt, EndOfQuote;
    var g := Generate(t);
    var end := p + |g|;
    TextSplits(data, p, g, rest);
    match t {
      case Key(k) =>
        KeywordIsRead(data, p, k);
      case Whitespace(s) => BlankIsRead(data, p, s);
      case Comment(s) => CommentIsRead(data, p, s);
      case Str(s, quoted) =>
        if quoted {
          QuotedIsRead(data, p, s);
        } else {
          UnquotedIsRead(data, p, s);
        }
      case Unrecognised(c) => UnrecognisedIsRead(data, p, c);
    }
  }

  lemma TextSplits(data: string, p: nat, g: string, rest: string)
    requires p <= |data| && data[p..] == g + rest
    ensures p + |g| <= |data| && data[p..p + |g|] == g && data[p + |g|..] == rest
    ensures rest != "" ==> p + |g| < |data| && data[p + |g|] == rest[0]
    ensures forall i :: 0 <= i < |g| ==> data[p + i] == g[i]
    ensures forall j :: p <= j < p + |g| ==> data[j] == g[j - p]
  {
    var tail := data[p..];
    assert data[p..p + |g|] == tail[..|g|];
    assert data[p + |g|..] == tail[|g|..];
    assert forall i :: 0 <= i < |g| ==> data[p + i] == tail[i];
  }

  /** The part of a text that a token came from. */
  predicate PartAt(data: string, p: nat, s: string) {
    && p + |s| <= |data| && data[p..p + |s|] == s
    && (forall j :: p <= j < p + |s| ==> data[j] == s[j - p])
  }

  lemma NoKeywordByFirst(data: string, p: nat)
    requires p < |data| && data[p] !in "ite&|=!();,+\n"
    ensures KeywordAt(data, p) == None
  {
    hide OccursAt;
    KeywordLetters(data, p);
  }

  lemma KeywordIsRead(data: string, p: nat, k: Keyword)
    requires OccursAt(data, KeywordText(k), p)
    requires k == Not && p + 1 < |data| ==> data[p + 1] != '='
    ensures p < |data| && NextToken(data, p) == Next(Key(k), p + |KeywordText(k)|)
  {
    hide KeywordAt;
    KeywordIs(data, p, k);
  }

  lemma BlankIsRead(data: string, p: nat, s: string)
    requires PartAt(data, p, s) && s != "" && forall i :: 0 <= i < |s| ==> InClass(Blank, s[i])
    requires p + |s| < |data| ==> !InClass(Blank, data[p + |s|])
    ensures NextToken(data, p) == Next(Whitespace(s), p + |s|)
  {
    hide KeywordAt;
    NoKeywordByFirst(data, p);
    RunIs(Blank, data, p + 1, p + |s|);
  }

  lemma CommentIsRead(data: string, p: nat, s: string)
    requires PartAt(data, p, "#" + s) && '\n' !in s
    requires p + 1 + |s| < |data| ==> data[p + 1 + |s|] == '\n'
    ensures NextToken(data, p) == Next(Comment(s), p + 1 + |s|)
  {
    hide KeywordAt;
    var g := "#" + s;
    assert data[p] == g[0];
    NoKeywordByFirst(data, p);
    RunIs(CommentText, data, p + 1, p + 1 + |s|);
    assert data[p + 1..p + 1 + |s|] == data[p..p + |g|][1..];
  }

  lemma QuoteIsNoKeyword(data: string, p: nat)
    requires p < |data| && data[p] == '"'
    ensures KeywordAt(data, p) == None
  {
    hide KeywordAt;
    NoKeywordByFirst(data, p);
  }

  lemma QuotedIsRead(data: string, p: nat, s: string)
    requires PartAt(data, p, s) && |s| >= 2 && s[0] == '"' && EndOfQuote(s, 1, false) == Some(|s|)
    ensures NextToken(data, p) == Next(Str(s, true), p + |s|)
  {
    hide KeywordAt, EndOfQuote;
    assert data[p] == s[0];
    QuoteIsNoKeyword(data, p);
    QuoteIs(s, data, p, 1, false);
  }

  lemma UnquotedIsRead(data: string, p: nat, s: string)
    requires PartAt(data, p, s) && s != "" && (forall i :: 0 <= i < |s| ==> IsValidUnquoted(s[i])) && KeywordAt(s, 0) == None
    requires p + |s| < |data| ==> !IsValidUnquoted(data[p + |s|])
    ensures NextToken(data, p) == Next(Str(s, false), p + |s|)
  {
    hide KeywordAt;
    assert data[p] == s[0];
    NoKeyword(data, p, s);
    RunIs(Unquoted, data, p + 1, p + |s|);
  }

  lemma UnrecognisedIsRead(data: string, p: nat, c: char)
    requires PartAt(data, p, [c]) && !IsSpace(c) && !IsValidUnquoted(c) && c !in "#\"!();,+"
    requires c in "&|=" && p + 1 < |data| ==> data[p + 1] != c
    ensures NextToken(data, p) == Next(Unrecognised(c), p + 1)
  {
    hide OccursAt;
    assert data[p] == [c][0];
    KeywordLetters(data, p);
  }

  lemma {:induction false} CanonicalIsRead(data: string, p: nat, ts: seq<Token>)
    requires p <= |data| && data[p..] == Untokenize(ts) && Canonical(ts)
    ensures TokensFrom(data, p) == Some(ts)
    decreases |ts|
  {
    hide NextToken, Generate, Proper, Apart;
    if ts != [] {
      TokenIsRead(data, p, ts[0], Untokenize(ts[1..]));
      CanonicalIsRead(data, p + |Generate(ts[0])|, ts[1..]);
      assert ts == [ts[0]] + ts[1..];
    }
  }

  /** Tokenizing what canonical tokens generate gives these tokens. */
  lemma TokenizeUntokenize(ts: seq<Token>)
    requires Canonical(ts)
    ensures Tokenize(Untokenize(ts)) == Some(ts)
  {
    hide Canonical, Untokenize, TokensFrom;
    var data := Untokenize(ts);
    assert data[0..] == data;
    CanonicalIsRead(data, 0, ts);
  }

  // ---------------------------------------------------------------------------
  // Tokens that were read
  // ---------------------------------------------------------------------------

  lemma StartsInside(data: string, p: nat, end: nat, word: string)
    requires p <= end <= |data| && OccursAt(data[p..end], word, 0)
    ensures OccursAt(data, word, p)
  {
    assert data[p..end][0..|word|] == data[p..p + |word|];
  }

  /** What no keyword was read from holds none. */
  lemma NoKeywordInside(data: string, p: nat, end: nat)
    requires p < end <= |data| && KeywordAt(data, p) == None
    ensures KeywordAt(data[p..end], 0) == None
  {
    hide OccursAt;
    var s := data[p..end];
    assert s[0] == data[p];
    if KeywordAt(s, 0).Some? {
      var k := KeywordAt(s, 0).value;
      StartsInside(data, p, end, KeywordText(k));
      KeywordOrLater(data, p, k);
      assert false;
    }
  }

  /** Where the text of a keyword starts, some keyword is read. */
  lemma KeywordOrLater(data: string, p: nat, k: Keyword)
    requires p < |data| && OccursAt(data, KeywordText(k), p)
    ensures KeywordAt(data, p).Some?
  {
    hide OccursAt;
    LettersAt(data, p, KeywordText(k), 0);
  }

  /** A quote that closes in a text closes at the end of the part it cuts out. */
  lemma {:induction false} QuoteInside(data: string, p: nat, i: nat, escaped: bool, end: nat)
    requires p <= i <= |data| && EndOfQuote(data, i, escaped) == Some(end)
    ensures i < end <= |data| && EndOfQuote(data[p..end], i - p, escaped) == Some(end - p)
    decreases |data| - i
  {
    var s := data[p..end];
    if data[i] == '\\' || escaped {
      QuoteInside(data, p, i + 1, !escaped, end);
      assert s[i - p] == data[i];
    } else if data[i] != '"' {
      QuoteInside(data, p, i + 1, false, end);
      assert s[i - p] == data[i];
    }
  }

  /** A token that was read is proper, and the text behind it does not run into it. */
  lemma ReadTokenIsProper(data: string, p: nat, t: Token, pos: nat)
    requires p < |data| && NextToken(data, p) == Next(t, pos) && p < pos <= |data|
    ensures Proper(t) && Apart(t, data[pos..])
  {
    hide KeywordAt, EndOfQuote, OccursAt, KeywordText;
    if KeywordAt(data, p).Some? {
      KeywordIsApart(data, p);
    } else if IsSpace(data[p]) {
      NotNewline(data, p);
    } else if data[p] == '#' {
    } else if IsValidUnquoted(data[p]) {
      NoKeywordInside(data, p, pos);
    } else if data[p] == '"' {
      QuoteInside(data, p, p + 1, false, pos);
    } else {
      NoOperator(data, p);
    }
  }

  lemma KeywordIsApart(data: string, p: nat)
    requires p < |data| && KeywordAt(data, p).Some?
    ensures var k := KeywordAt(data, p).value;
            p + |KeywordText(k)| <= |data| && Apart(Key(k), data[p + |KeywordText(k)|..])
  {
    hide OccursAt;
    var k := KeywordAt(data, p).value;
    LettersAt(data, p, KeywordText(k), |KeywordText(k)| - 1);
    if k == Not && p + 1 < |data| && data[p + 1] == '=' {
      assert OccursAt(data, "!=", p) by { TwoLetters(data, p, '!', '='); }
      assert false;
    }
  }

  lemma TwoLetters(data: string, p: nat, a: char, b: char)
    requires p + 2 <= |data| && data[p] == a && data[p + 1] == b
    ensures OccursAt(data, [a, b], p)
  {
    assert data[p..p + 2] == [a, b];
  }

  lemma NotNewline(data: string, p: nat)
    requires p < |data| && KeywordAt(data, p) == None
    ensures data[p] != '\n'
  {
    hide OccursAt;
  }

  lemma NoOperator(data: string, p: nat)
    requires p < |data| && KeywordAt(data, p) == None
    ensures data[p] !in "!();,+\n"
    ensures data[p] in "&|=" && p + 1 < |data| ==> data[p + 1] != data[p]
  {
    hide OccursAt;
    if p + 1 < |data| && data[p + 1] == data[p] {
      TwoLetters(data, p, data[p], data[p]);
    }
  }

  lemma {:induction false} ReadTokensAreCanonical(data: string, p: nat)
    requires p <= |data| && TokensFrom(data, p).Some?
    ensures Canonical(TokensFrom(data, p).value)
    decreases |data| - p
  {
    hide NextToken, Proper, Apart, Generate;
    if p < |data| {
      var n := NextToken(data, p);
      NextTokenIsLossless(data, p);
      ReadTokenIsProper(data, p, n.token, n.pos);
      ReadTokensAreCanonical(data, n.pos);
      TokensAreLossless(data, n.pos);
      var rest := TokensFrom(data, n.pos).value;
      assert ([n.token] + rest)[1..] == rest;
    }
  }

  /** The tokens of a text are the canonical ones that generate it, and there is only one such list. */
  lemma TokenizeExactly(data: string, ts: seq<Token>)
    ensures Tokenize(data) == Some(ts) <==> Canonical(ts) && Untokenize(ts) == data
  {
    hide Canonical, Untokenize, TokensFrom;
    if Tokenize(data) == Some(ts) {
      ReadTokensAreCanonical(data, 0);
      UntokenizeTokenize(data);
    }
    if Canonical(ts) && Untokenize(ts) == data {
      TokenizeUntokenize(ts);
    }
  }

  // ---------------------------------------------------------------------------
  // The replacement expressions
  // ---------------------------------------------------------------------------

  lemma {:induction false} QuoteOfPlain(s: string, i: nat)
    requires 1 <= i < |s| && s[|s| - 1] == '"'
    requires forall k :: i <= k < |s| - 1 ==> s[k] != '"' && s[k] != '\\'
    ensures EndOfQuote(s, i, false) == Some(|s|)
    decreases |s| - i
  {
    if i < |s| - 1 {
      QuoteOfPlain(s, i + 1);
    }
  }

  lemma QuotedIsProper(body: string)
    requires '"' !in body && '\\' !in body
    ensures Proper(Str("\"" + body + "\"", true))
  {
    hide EndOfQuote;
    QuoteOfPlain("\"" + body + "\"", 1);
  }

  lemma UnquotedIsProper(s: string)
    requires s != "" && (forall i :: 0 <= i < |s| ==> IsValidUnquoted(s[i])) && s[0] !in "ite&|=!();,+\n"
    ensures Proper(Str(s, false))
  {
    hide KeywordAt;
    NoKeywordByFirst(s, 0);
  }

  /** The tokens are what tokenizing the text gives. */
  predicate Reads(ts: seq<Token>, text: string) {
    Canonical(ts) && Untokenize(ts) == text
  }

  lemma ReadsCons(t: Token, rest: seq<Token>, text: string)
    requires Reads(rest, text) && Proper(t) && Apart(t, text)
    ensures Reads([t] + rest, Generate(t) + text)
  {
    hide Proper, Generate, Apart;
    assert ([t] + rest)[1..] == rest;
  }

  lemma KeyStep(k: Keyword, rest: seq<Token>, text: string)
    requires k != Not && Reads(rest, text)
    ensures Reads([Key(k)] + rest, KeywordText(k) + text)
  {
    hide Reads;
    ReadsCons(Key(k), rest, text);
  }

  lemma QuotedStep(s: string, rest: seq<Token>, text: string)
    requires Proper(Str(s, true)) && Reads(rest, text)
    ensures Reads([Str(s, true)] + rest, s + text)
  {
    hide Reads;
    ReadsCons(Str(s, true), rest, text);
  }

  lemma WordStep(s: string, rest: seq<Token>, text: string)
    requires Proper(Str(s, false)) && Reads(rest, text) && text != "" && !IsValidUnquoted(text[0])
    ensures Reads([Str(s, false)] + rest, s + text)
  {
    hide Reads;
    ReadsCons(Str(s, false), rest, text);
  }

  lemma SpaceStep(rest: seq<Token>, text: string)
    requires Reads(rest, text) && text != "" && !IsSpace(text[0])
    ensures Reads([Whitespace(" ")] + rest, " " + text)
  {
    hide Reads;
    ReadsCons(Whitespace(" "), rest, text);
  }

  lemma CommandIsProper(c: Command)
    ensures Proper(Str(CommandText(c), true)) && CommandText(c) != "" && CommandText(c)[0] == '"'
  {
    hide Proper;
    var name := match c case Mount => "mount" case Unmount => "unmount" case Format => "format";
    QuotedIsProper(name);
    assert CommandText(c) == "\"" + name + "\"";
  }

  lemma MountPointIsProper(p: Partition)
    ensures Proper(Str(MountPoint(p), true)) && MountPoint(p) != "" && MountPoint(p)[0] == '"'
  {
    hide Proper;
    var path := match p case System => "/system" case Cache => "/cache" case Data => "/data";
    QuotedIsProper(path);
    assert MountPoint(p) == "\"" + path + "\"";
  }

  const TOOL := "\"/update-binary-tool\""

  lemma ToolIsProper()
    ensures Proper(Str(TOOL, true))
  {
    hide Proper;
    QuotedIsProper("/update-binary-tool");
    assert "\"" + "/update-binary-tool" + "\"" == TOOL;
  }

  lemma EmptyReads()
    ensures Reads([], "")
  {
  }

  /** ) == 0) */
  lemma TailReads()
    ensures Reads([Key(RightParen)] + GeneratedTail(), ") == 0)")
  {
    hide Reads, Proper;
    EmptyReads();
    UnquotedIsProper("0");
    KeyStep(RightParen, [], "");
    var r1, x1 := [Key(RightParen)] + [], ")" + "";
    WordStep("0", r1, x1);
    var r2, x2 := [Str("0", false)] + r1, "0" + x1;
    SpaceStep(r2, x2);
    var r3, x3 := [Whitespace(" ")] + r2, " " + x2;
    KeyStep(Equals, r3, x3);
    var r4, x4 := [Key(Equals)] + r3, "==" + x3;
    SpaceStep(r4, x4);
    var r5, x5 := [Whitespace(" ")] + r4, " " + x4;
    KeyStep(RightParen, r5, x5);
    assert r5 == GeneratedTail();
    assert ")" + x5 == ") == 0)";
  }

  lemma CommaStep(s: string, rest: seq<Token>, text: string)
    requires Proper(Str(s, true)) && Reads(rest, text) && text != "" && !IsSpace(text[0])
    ensures Reads([Str(s, true), Key(Comma), Whitespace(" ")] + rest, s + ", " + text)
  {
    hide Reads, Proper;
    SpaceStep(rest, text);
    KeyStep(Comma, [Whitespace(" ")] + rest, " " + text);
    QuotedStep(s, [Key(Comma)] + ([Whitespace(" ")] + rest), "," + (" " + text));
    assert [Str(s, true)] + ([Key(Comma)] + ([Whitespace(" ")] + rest)) == [Str(s, true), Key(Comma), Whitespace(" ")] + rest;
    assert s + ("," + (" " + text)) == s + ", " + text;
  }

  lemma CallStep(rest: seq<Token>, text: string)
    requires Reads(rest, text)
    ensures Reads([Key(LeftParen), Str("run_program", false), Key(LeftParen)] + rest, "(run_program(" + text)
  {
    hide Reads, Proper;
    KeyStep(LeftParen, rest, text);
    UnquotedIsProper("run_program");
    WordStep("run_program", [Key(LeftParen)] + rest, "(" + text);
    KeyStep(LeftParen, [Str("run_program", false)] + ([Key(LeftParen)] + rest), "run_program" + ("(" + text));
    assert [Key(LeftParen)] + ([Str("run_program", false)] + ([Key(LeftParen)] + rest))
        == [Key(LeftParen), Str("run_program", false), Key(LeftParen)] + rest;
    assert "(" + ("run_program" + ("(" + text)) == "(run_program(" + text;
  }

  /** The format strings of the rewriter, filled in. */
  function ReplacementText(c: Command, p: Partition): string {
    "(run_program(" + (TOOL + ", " + (CommandText(c) + ", " + (MountPoint(p) + ") == 0)")))
  }

  lemma GeneratedReads(c: Command, p: Partition)
    ensures Reads(Generated(c, p), ReplacementText(c, p))
  {
    hide Reads, Proper, CommandText, MountPoint;
    var tail := [Key(RightParen)] + GeneratedTail();
    TailReads();
    MountPointIsProper(p);
    CommandIsProper(c);
    ToolIsProper();
    QuotedStep(MountPoint(p), tail, ") == 0)");
    var r1, x1 := [Str(MountPoint(p), true)] + tail, MountPoint(p) + ") == 0)";
    CommaStep(CommandText(c), r1, x1);
    var r2, x2 := [Str(CommandText(c), true), Key(Comma), Whitespace(" ")] + r1, CommandText(c) + ", " + x1;
    CommaStep(TOOL, r2, x2);
    var r3 := [Str(TOOL, true), Key(Comma), Whitespace(" ")] + r2;
    CallStep(r3, TOOL + ", " + x2);
    assert Generated(c, p) == [Key(LeftParen), Str("run_program", false), Key(LeftParen)] + r3;
  }

  /** What replaceFunction tokenizes and inserts are exactly the tokens of the generated expression. */
  lemma ReplacementTokens(c: Command, p: Partition)
    ensures Tokenize(ReplacementText(c, p)) == Some(Generated(c, p))
  {
    hide Tokenize, ReplacementText, Generated, Canonical, Untokenize;
    GeneratedReads(c, p);
    TokenizeUntokenize(Generated(c, p));
  }
}
