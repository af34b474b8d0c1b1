/** Tokens of edify scripts and the tokenizer that produces them. */
module EdifyTokenizer {
  import opened Bytes
  import opened Strings

  datatype Keyword =
    | If | Then | Else | Endif | AndOp | OrOp | Equals | NotEquals | Not
    | LeftParen | RightParen | Semicolon | Comma | Concat | Newline

  /** A string token keeps its source text; `quoted` tells whether the text has quotes around it. */
  datatype Token =
    | Key(keyword: Keyword)
    | Whitespace(str: string)
    | Comment(str: string)
    | Str(str: string, quoted: bool)
    | Unrecognised(c: char)

  function KeywordText(k: Keyword): (r: string)
    ensures r != []
  {
    match k
    case If => "if"
    case Then => "then"
    case Else => "else"
    case Endif => "endif"
    case AndOp => "&&"
    case OrOp => "||"
    case Equals => "=="
    case NotEquals => "!="
    case Not => "!"
    case LeftParen => "("
    case RightParen => ")"
    case Semicolon => ";"
    case Comma => ","
    case Concat => "+"
    case Newline => "\n"
  }

  /** EdifyToken::generate. */
  function Generate(t: Token): string {
    match t
    case Key(k) => KeywordText(k)
    case Whitespace(s) => s
    case Comment(s) => "#" + s
    case Str(s, _) => s
    case Unrecognised(c) => [c]
  }

  function Untokenize(tokens: seq<Token>): string {
    if tokens == [] then [] else Generate(tokens[0]) + Untokenize(tokens[1..])
  }

  // ---------------------------------------------------------------------------
  // Character classes
  // ---------------------------------------------------------------------------

  predicate IsAlnum(c: char) {
    '0' <= c <= '9' || 'a' <= c <= 'z' || 'A' <= c <= 'Z'
  }

  predicate IsValidUnquoted(c: char) {
    IsAlnum(c) || c == '_' || c == ':' || c == '/' || c == '.'
  }

  datatype Class = Blank | Unquoted | CommentText

  predicate InClass(k: Class, c: char) {
    match k
    case Blank => c != '\n' && IsSpace(c)
    case Unquoted => IsValidUnquoted(c)
    case CommentText => c != '\n'
  }

  /** The end of the run of characters of one class that starts at p. */
  function EndOfRun(k: Class, data: string, p: nat): (end: nat)
    requires p <= |data|
    ensures p <= end <= |data|
    ensures forall i :: p <= i < end ==> InClass(k, data[i])
    ensures end < |data| ==> !InClass(k, data[end])
    decreases |data| - p
  {
    if p < |data| && InClass(k, data[p]) then EndOfRun(k, data, p + 1) else p
  }

  /** The position behind the closing quote, scanning from behind the opening one. */
  function EndOfQuote(data: string, p: nat, escaped: bool): (r: Option<nat>)
    requires p <= |data|
    ensures r.Some? ==> p < r.value <= |data| && data[r.value - 1] == '"'
    decreases |data| - p
  {
    if p == |data| then None
    else if data[p] == '\\' || escaped then EndOfQuote(data, p + 1, !escaped)
    else if data[p] == '"' then Some(p + 1)
    else EndOfQuote(data, p + 1, false)
  }

  // ---------------------------------------------------------------------------
  // Tokenizing
  // ---------------------------------------------------------------------------

  /** Keywords are tried in this order, so "!=" wins over "!". */
  function KeywordAt(data: string, p: nat): (r: Option<Keyword>)
    requires p < |data|
    ensures r.Some? ==> OccursAt(data, KeywordText(r.value), p)
  {
    if OccursAt(data, "if", p) then Some(If)
    else if OccursAt(data, "then", p) then Some(Then)
    else if OccursAt(data, "else", p) then Some(Else)
    else if OccursAt(data, "endif", p) then Some(Endif)
    else if OccursAt(data, "&&", p) then Some(AndOp)
    else if OccursAt(data, "||", p) then Some(OrOp)
    else if OccursAt(data, "==", p) then Some(Equals)
    else if OccursAt(data, "!=", p) then Some(NotEquals)
    else if data[p] == '!' then Some(Not)
    else if data[p] == '(' then Some(LeftParen)
    else if data[p] == ')' then Some(RightParen)
    else if data[p] == ';' then Some(Semicolon)
    else if data[p] == ',' then Some(Comma)
    else if data[p] == '+' then Some(Concat)
    else if data[p] == '\n' then Some(Newline)
    else None
  }

  /** The longest keyword that stands there is taken. */
  lemma LongestKeyword(data: string, p: nat, k: Keyword)
    requires p < |data| && OccursAt(data, KeywordText(k), p)
    ensures KeywordAt(data, p).Some? && |KeywordText(KeywordAt(data, p).value)| >= |KeywordText(k)|
    ensures KeywordAt(data, p).value != k ==> k == Not && OccursAt(data, "!=", p)
  {
    hide OccursAt;
    FirstTwo(data, KeywordText(k), p);
    var r := KeywordAt(data, p);
    if r.Some? {
      FirstTwo(data, KeywordText(r.value), p);
      SameFirstTwo(k, r.value);
    }
  }

  lemma FirstTwo(data: string, text: string, p: nat)
    requires OccursAt(data, text, p) && text != ""
    ensures p + |text| <= |data| && data[p] == text[0] && (|text| >= 2 ==> data[p + 1] == text[1])
  {
    var part := data[p..p + |text|];
    assert part[0] == data[p];
    if |text| >= 2 {
      assert part[1] == data[p + 1];
    }
  }

  lemma SameFirstTwo(j: Keyword, k: Keyword)
    requires KeywordText(j)[0] == KeywordText(k)[0]
    requires |KeywordText(j)| >= 2 && |KeywordText(k)| >= 2 ==> KeywordText(j)[1] == KeywordText(k)[1]
    ensures j == k || (j == Not && k == NotEquals) || (j == NotEquals && k == Not)
  {
  }

  /** The texts of the keywords. */
  lemma KeywordTexts(text: string)
    ensures (exists k :: KeywordText(k) == text)
       <==> text in {"if", "then", "else", "endif", "&&", "||", "==", "!=", "!", "(", ")", ";", ",", "+", "\n"}
  {
    assert KeywordText(If) == "if" && KeywordText(Then) == "then" && KeywordText(Else) == "else" && KeywordText(Endif) == "endif";
    assert KeywordText(AndOp) == "&&" && KeywordText(OrOp) == "||" && KeywordText(Equals) == "==" && KeywordText(NotEquals) == "!=";
    assert KeywordText(Not) == "!" && KeywordText(LeftParen) == "(" && KeywordText(RightParen) == ")";
    assert KeywordText(Semicolon) == ";" && KeywordText(Comma) == "," && KeywordText(Concat) == "+" && KeywordText(Newline) == "\n";
  }

  datatype Next = Next(token: Token, pos: nat) | Unterminated

  /** The token that starts at p and the position behind it. */
  function NextToken(data: string, p: nat): Next
    requires p < |data|
  {
    match KeywordAt(data, p)
    case Some(k) => Next(Key(k), p + |KeywordText(k)|)
    case None =>
      if IsSpace(data[p]) then
        var end := EndOfRun(Blank, data, p + 1);
        Next(Whitespace(data[p..end]), end)
      else if data[p] == '#' then
        var end := EndOfRun(CommentText, data, p + 1);
        Next(Comment(data[p + 1..end]), end)
      else if IsValidUnquoted(data[p]) then
        var end := EndOfRun(Unquoted, data, p + 1);
        Next(Str(data[p..end], false), end)
      else if data[p] == '"' then
        match EndOfQuote(data, p + 1, false)
        case None => Unterminated
        case Some(end) => Next(Str(data[p..end], true), end)
      else Next(Unrecognised(data[p]), p + 1)
  }

  /** What the constructors of string tokens assert about their text. */
  predicate WellFormed(t: Token) {
    && (t.Str? && t.quoted ==> |t.str| >= 2 && t.str[0] == '"' && t.str[|t.str| - 1] == '"')
    && (t.Whitespace? ==> t.str != [] && forall i :: 0 <= i < |t.str| ==> IsSpace(t.str[i]))
  }

  /** A token moves the position forward and generates exactly the text it was read from. */
  lemma NextTokenIsLossless(data: string, p: nat)
    requires p < |data| && NextToken(data, p).Next?
    ensures var n := NextToken(data, p);
            p < n.pos <= |data| && Generate(n.token) == data[p..n.pos] && WellFormed(n.token)
  {
    hide KeywordAt;
  }

  /** All tokens from p on; None for an unterminated quote. */
  function TokensFrom(data: string, p: nat): Option<seq<Token>>
    requires p <= |data|
    decreases |data| - p
  {
    if p == |data| then Some([])
    else
      match NextToken(data, p)
      case Unterminated => None
      case Next(token, pos) =>
        NextTokenIsLossless(data, p);
        match TokensFrom(data, pos)
        case None => None
        case Some(rest) => Some([token] + rest)
  }

  function Tokenize(data: string): Option<seq<Token>> {
    TokensFrom(data, 0)
  }

  lemma {:induction false} TokensAreLossless(data: string, p: nat)
    requires p <= |data| && TokensFrom(data, p).Some?
    ensures Untokenize(TokensFrom(data, p).value) == data[p..]
    ensures forall t | t in TokensFrom(data, p).value :: WellFormed(t)
    decreases |data| - p
  {
    hide NextToken, Generate, WellFormed;
    if p < |data| {
      NextTokenIsLossless(data, p);
      var n := NextToken(data, p);
      TokensAreLossless(data, n.pos);
      var tokens := TokensFrom(data, p).value;
      assert tokens[1..] == TokensFrom(data, n.pos).value;
      assert data[p..] == data[p..n.pos] + data[n.pos..];
    }
  }

  /** Writing the tokens of a script out again gives the script. */
  lemma UntokenizeTokenize(data: string)
    requires Tokenize(data).Some?
    ensures Untokenize(Tokenize(data).value) == data
  {
    TokensAreLossless(data, 0);
    assert data[0..] == data;
  }

  method ReadNextToken(data: string, p: nat) returns (ok: bool, token: Token, pos: nat)
    requires p < |data|
    ensures ok == NextToken(data, p).Next?
    ensures ok ==> token == NextToken(data, p).token && pos == NextToken(data, p).pos
  {
    hide KeywordText;
    ok, token, pos := true, Unrecognised(data[p]), p;
    var keyword := KeywordAt(data, p);
    if keyword.Some? {
      token := Key(keyword.value);
      pos := pos + |KeywordText(keyword.value)|;
    } else if IsSpace(data[p]) {
      pos := ReadRun(Blank, data, p + 1);
      token := Whitespace(data[p..pos]);
    } else if data[p] == '#' {
      pos := ReadRun(CommentText, data, p + 1);
      token := Comment(data[p + 1..pos]);
    } else if IsValidUnquoted(data[p]) {
      pos := ReadRun(Unquoted, data, p + 1);
      token := Str(data[p..pos], false);
    } else if data[p] == '"' {
      var terminated;
      terminated, pos := ReadQuote(data, p + 1);
      if !terminated {
        return false, token, pos;
      }
      token := Str(data[p..pos], true);
    } else {
      pos := pos + 1;
    }
  }

  method ReadRun(k: Class, data: string, p: nat) returns (end: nat)
    requires p <= |data|
    ensures end == EndOfRun(k, data, p)
  {
    end := p;
    while end < |data| && InClass(k, data[end])
      invariant p <= end <= |data|
      invariant EndOfRun(k, data, end) == EndOfRun(k, data, p)
    {
      end := end + 1;
    }
  }

  method ReadQuote(data: string, p: nat) returns (terminated: bool, pos: nat)
    requires p <= |data|
    ensures terminated == EndOfQuote(data, p, false).Some?
    ensures terminated ==> pos == EndOfQuote(data, p, false).value
  {
    pos := p;
    var escaped := false;
    while pos < |data|
      invariant p <= pos <= |data|
      invariant EndOfQuote(data, pos, escaped) == EndOfQuote(data, p, false)
    {
      if data[pos] == '\\' || escaped {
        escaped := !escaped;
      } else if data[pos] == '"' {
        return true, pos + 1;
      }
      pos := pos + 1;
    }
    terminated := false;
  }

  method TokenizeScript(data: string) returns (ok: bool, tokens: seq<Token>)
    ensures ok == Tokenize(data).Some?
    ensures ok ==> tokens == Tokenize(data).value
  {
    hide NextToken;
    tokens := [];
    var pos := 0;
    assert forall rest: seq<Token> :: tokens + rest == rest;
    while pos < |data|
      invariant pos <= |data|
      invariant Tokenize(data) == match TokensFrom(data, pos) case None => None case Some(rest) => Some(tokens + rest)
    {
      var token, next;
      ok, token, next := ReadNextToken(data, pos);
      if !ok {
        return false, [];
      }
      NextTokenIsLossless(data, pos);
      ghost var before := tokens;
      tokens := tokens + [token];
      assert forall rest: seq<Token> :: tokens + rest == before + ([token] + rest);
      pos := next;
    }
    assert tokens + [] == tokens;
    ok := true;
  }

  // ---------------------------------------------------------------------------
  // String tokens
  // ---------------------------------------------------------------------------

  function HexCharToInt(c: char): int {
    if '0' <= c <= '9' then c as int - '0' as int
    else if 'a' <= c <= 'f' then c as int - 'a' as int
    else if 'A' <= c <= 'F' then c as int - 'A' as int
    else -1
  }

  /** The character an escape letter stands for. */
  function EscapeChar(c: char): Option<char> {
    if c == 'a' then Some(7 as char)
    else if c == 'b' then Some(8 as char)
    else if c == 'f' then Some(12 as char)
    else if c == 'n' then Some('\n')
    else if c == 'r' then Some('\r')
    else if c == 't' then Some('\t')
    else if c == 'v' then Some(11 as char)
    else if c == '\\' then Some('\\')
    else None
  }

  /** A hex escape always comes out as NUL: the shifted first digit shares no bit with the second. */
  function Unescape(s: string): Option<string> {
    if s == [] then Some([])
    else if s[0] != '\\' then
      match Unescape(s[1..])
      case None => None
      case Some(rest) => Some([s[0]] + rest)
    else if |s| == 1 then None
    else if EscapeChar(s[1]).Some? then
      match Unescape(s[2..])
      case None => None
      case Some(rest) => Some([EscapeChar(s[1]).value] + rest)
    else if s[1] == 'x' && |s| >= 4 && HexCharToInt(s[2]) >= 0 && HexCharToInt(s[3]) >= 0 then
      match Unescape(s[4..])
      case None => None
      case Some(rest) => Some([0 as char] + rest)
    else None
  }

  /** unescapedString: an invalid escape leaves the empty string. */
  function UnescapedString(t: Token): string
    requires t.Str?
  {
    var out := match Unescape(t.str) case None => "" case Some(s) => s;
    if t.quoted && |out| >= 2 then out[1..|out| - 1] else out
  }

  lemma {:induction false} UnescapePlain(s: string)
    requires '\\' !in s
    ensures Unescape(s) == Some(s)
  {
    if s != [] {
      UnescapePlain(s[1..]);
      assert s == [s[0]] + s[1..];
    }
  }

  /** The escape letters, both ways. */
  lemma EscapeLetters()
    ensures EscapeChar('a') == Some(7 as char) && EscapeChar('b') == Some(8 as char) && EscapeChar('t') == Some(9 as char)
    ensures EscapeChar('n') == Some(10 as char) && EscapeChar('v') == Some(11 as char) && EscapeChar('f') == Some(12 as char)
    ensures EscapeChar('r') == Some(13 as char) && EscapeChar('\\') == Some('\\')
    ensures EscapedChar(7 as char) == "\\a" && EscapedChar(8 as char) == "\\b" && EscapedChar(9 as char) == "\\t"
    ensures EscapedChar(10 as char) == "\\n" && EscapedChar(11 as char) == "\\v" && EscapedChar(12 as char) == "\\f"
    ensures EscapedChar(13 as char) == "\\r"
  {
  }

  const DIGITS := "0123456789abcdef"

  function EscapedChar(c: char): string {
    if c == 7 as char then "\\a"
    else if c == 8 as char then "\\b"
    else if c == 12 as char then "\\f"
    else if c == '\n' then "\\n"
    else if c == '\r' then "\\r"
    else if c == '\t' then "\\t"
    else if c == 11 as char then "\\v"
    else if 0x20 <= c as int <= 0x7e then [c]
    else "\\x" + [DIGITS[c as int / 16 % 16], DIGITS[c as int % 16]]
  }

  function Escape(s: string): string {
    if s == [] then [] else EscapedChar(s[0]) + Escape(s[1..])
  }

  /** EdifyTokenString with MakeQuoted. */
  function Quoted(s: string): Token {
    Str("\"" + Escape(s) + "\"", true)
  }
}
