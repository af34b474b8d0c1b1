/** Writing and reading mount table entries. */
module Mntent {
  import opened Bytes
  import opened Strings
  import opened PropertyFile

  datatype Entry = Mount(fsname: string, dir: string, kind: string, opts: string, freq: int, passno: int)

  // ---------------------------------------------------------------------------
  // Decimal numbers
  // ---------------------------------------------------------------------------

  function Digit(n: nat): (c: char)
    requires n < 10
    ensures '0' <= c <= '9' && c as int - '0' as int == n
  {
    (n + '0' as int) as char
  }

  function Decimal(n: nat): (r: string)
    ensures r != "" && forall i :: 0 <= i < |r| ==> '0' <= r[i] <= '9'
  {
    if n < 10 then [Digit(n)] else Decimal(n / 10) + [Digit(n % 10)]
  }

  /** %d */
  function PrintInt(n: int): string {
    if n < 0 then "-" + Decimal(-n) else Decimal(n)
  }

  predicate IsDigit(c: char) {
    '0' <= c <= '9'
  }

  function DigitsValue(s: string, acc: nat): nat {
    if s == "" || !IsDigit(s[0]) then acc else DigitsValue(s[1..], 10 * acc + (s[0] as int - '0' as int))
  }

  /** atoi: blanks, a sign, digits. */
  function Atoi(s: string): int {
    if s != "" && IsSpace(s[0]) then Atoi(s[1..])
    else if s != "" && s[0] == '-' then -(DigitsValue(s[1..], 0) as int)
    else if s != "" && s[0] == '+' then DigitsValue(s[1..], 0)
    else DigitsValue(s, 0)
  }

  lemma {:induction false} DigitsValueConcat(a: string, c: char, acc: nat)
    requires IsDigit(c) && forall i :: 0 <= i < |a| ==> IsDigit(a[i])
    ensures DigitsValue(a + [c], acc) == 10 * DigitsValue(a, acc) + (c as int - '0' as int)
  {
    if a == "" {
      assert DigitsValue([c][1..], 10 * acc + (c as int - '0' as int)) == 10 * acc + (c as int - '0' as int);
    } else {
      DigitsValueConcat(a[1..], c, 10 * acc + (a[0] as int - '0' as int));
      assert (a + [c])[1..] == a[1..] + [c];
    }
  }

  lemma {:induction false} DecimalRoundTrip(n: nat)
    ensures DigitsValue(Decimal(n), 0) == n
  {
    if n < 10 {
      assert DigitsValue([Digit(n)][1..], n) == n;
    } else {
      DecimalRoundTrip(n / 10);
      DigitsValueConcat(Decimal(n / 10), Digit(n % 10), 0);
    }
  }

  /** Every int comes back from its decimal text. */
  lemma IntRoundTrip(n: int)
    ensures Atoi(PrintInt(n)) == n
  {
    hide Decimal, DigitsValue;
    if n < 0 {
      DecimalRoundTrip(-n);
      assert ("-" + Decimal(-n))[1..] == Decimal(-n);
    } else {
      DecimalRoundTrip(n);
    }
  }

  // ---------------------------------------------------------------------------
  // strtok_r
  // ---------------------------------------------------------------------------

  predicate IsSep(c: char) {
    c == ' ' || c == '\t' || c == '\n'
  }

  /** The first position from p on whose character is a separator, or is none. */
  function Scan(s: string, p: nat, separators: bool): (r: nat)
    requires p <= |s|
    ensures p <= r <= |s|
    ensures forall k :: p <= k < r ==> IsSep(s[k]) == separators
    ensures r < |s| ==> IsSep(s[r]) != separators
    decreases |s| - p
  {
    if p < |s| && IsSep(s[p]) == separators then Scan(s, p + 1, separators) else p
  }

  datatype Tok = Tok(text: string, next: nat) | NoTok

  /** The next token and the position behind the separator that ends it. */
  function StrTok(s: string, p: nat): (r: Tok)
    requires p <= |s|
    ensures r.Tok? ==> r.text != "" && p < r.next <= |s| && forall k :: 0 <= k < |r.text| ==> !IsSep(r.text[k])
  {
    var begin := Scan(s, p, true);
    if begin == |s| then NoTok
    else
      var end := Scan(s, begin, false);
      Tok(s[begin..end], if end < |s| then end + 1 else end)
  }

  lemma {:induction false} ScanIs(s: string, p: nat, separators: bool, r: nat)
    requires p <= r <= |s|
    requires forall k :: p <= k < r ==> IsSep(s[k]) == separators
    requires r < |s| ==> IsSep(s[r]) != separators
    ensures Scan(s, p, separators) == r
    decreases r - p
  {
    if p < r {
      ScanIs(s, p + 1, separators, r);
    }
  }

  predicate IsWord(s: string) {
    s != "" && forall k :: 0 <= k < |s| ==> !IsSep(s[k])
  }

  /** A word in front of a separator is the next token. */
  lemma WordIsToken(s: string, p: nat, word: string)
    requires IsWord(word) && p + |word| < |s| && s[p..p + |word|] == word && IsSep(s[p + |word|])
    ensures StrTok(s, p) == Tok(word, p + |word| + 1)
  {
    var end := p + |word|;
    assert forall k :: p <= k < end ==> s[k] == word[k - p];
    ScanIs(s, p, true, p);
    ScanIs(s, p, false, end);
  }

  // ---------------------------------------------------------------------------
  // Lines
  // ---------------------------------------------------------------------------

  function NumberAt(s: string, t: Tok): int {
    match t
    case NoTok => 0
    case Tok(text, _) => Atoi(text)
  }

  function After(s: string, t: Tok, p: nat): (r: nat)
    requires p <= |s| && (t.Tok? ==> t.next <= |s|)
    ensures r <= |s|
  {
    match t
    case NoTok => |s|
    case Tok(_, next) => next
  }

  /** Three fields are needed; the options default to nothing and the numbers to 0. */
  function ParseEntry(line: string): Option<Entry> {
    var fsname := StrTok(line, 0);
    if fsname.NoTok? then None
    else
      var dir := StrTok(line, fsname.next);
      if dir.NoTok? then None
      else
        var kind := StrTok(line, dir.next);
        if kind.NoTok? then None
        else
          var opts := StrTok(line, kind.next);
          var freq := StrTok(line, After(line, opts, kind.next));
          var passno := StrTok(line, After(line, freq, After(line, opts, kind.next)));
          Some(Mount(fsname.text, dir.text, kind.text, if opts.Tok? then opts.text else "", NumberAt(line, freq), NumberAt(line, passno)))
  }

  /** fgets: at most size - 1 characters, up to and including a newline. */
  function LineEnd(text: string, p: nat, limit: nat): (r: nat)
    requires p <= |text|
    ensures p <= r <= |text| && r - p <= limit
    ensures p < |text| && limit > 0 ==> p < r
    decreases limit
  {
    if p == |text| || limit == 0 then p
    else if text[p] == '\n' then p + 1
    else LineEnd(text, p + 1, limit - 1)
  }

  /** Lines that are passed over. */
  predicate IsSkipped(line: string) {
    line != "" && (line[0] == '#' || line[0] == '\n')
  }

  /** The entry read from a position and the position behind it; None at the end and at a line without three fields. */
  function GetEntry(text: string, p: nat, size: nat): (r: (Option<Entry>, nat))
    requires p <= |text|
    ensures p <= r.1 <= |text|
    ensures r.0.Some? ==> p < r.1
    decreases |text| - p
  {
    if p == |text| || size == 0 then (None, p)
    else
      var end := LineEnd(text, p, size - 1);
      var line := text[p..end];
      if IsSkipped(line) then GetEntry(text, end, size)
      else
        EntryNeedsText(CText(line));
        (ParseEntry(CText(line)), end)
  }

  lemma EntryNeedsText(line: string)
    ensures ParseEntry(line).Some? ==> line != ""
  {
  }

  /** Reading until there is no entry. */
  function ReadAll(text: string, p: nat, size: nat): seq<Entry>
    requires p <= |text|
    decreases |text| - p
  {
    var (entry, next) := GetEntry(text, p, size);
    if entry.None? then [] else [entry.value] + ReadAll(text, next, size)
  }

  function PrintEntry(e: Entry): string {
    e.fsname + " " + e.dir + " " + e.kind + " " + e.opts + " " + PrintInt(e.freq) + " " + PrintInt(e.passno) + "\n"
  }

  function PrintAll(es: seq<Entry>): string {
    if es == [] then "" else PrintEntry(es[0]) + PrintAll(es[1..])
  }

  /** Entries that survive: the fields are words without NUL, and the line is no comment. */
  predicate CleanField(s: string) {
    IsWord(s) && NUL !in s
  }

  predicate Clean(e: Entry) {
    CleanField(e.fsname) && CleanField(e.dir) && CleanField(e.kind) && CleanField(e.opts) && e.fsname[0] != '#'
  }

  predicate Fits(e: Entry, size: nat) {
    |PrintEntry(e)| < size
  }

  // ---------------------------------------------------------------------------
  // Round trip
  // ---------------------------------------------------------------------------

  lemma TokenBehind(before: string, word: string, sep: char, rest: string)
    requires IsWord(word) && IsSep(sep)
    ensures StrTok(before + word + [sep] + rest, |before|) == Tok(word, |before| + |word| + 1)
  {
    hide StrTok, IsWord;
    var s := before + word + [sep] + rest;
    WordIsToken(s, |before|, word);
  }

  lemma {:induction false} DecimalIsWord(n: nat)
    ensures CleanField(Decimal(n)) && '\n' !in Decimal(n)
  {
    hide Decimal;
    var s := Decimal(n);
    assert forall k :: 0 <= k < |s| ==> !IsSep(s[k]) && s[k] != NUL && s[k] != '\n';
  }

  lemma IntIsWord(n: int)
    ensures CleanField(PrintInt(n)) && '\n' !in PrintInt(n)
  {
    hide Decimal;
    DecimalIsWord(if n < 0 then -n else n);
  }

  /** Where the fields of a printed line start. */
  lemma PrintedNames(e: Entry)
    requires IsWord(e.fsname) && IsWord(e.dir) && IsWord(e.kind)
    ensures var s := PrintEntry(e);
            && StrTok(s, 0) == Tok(e.fsname, |e.fsname| + 1)
            && StrTok(s, |e.fsname| + 1) == Tok(e.dir, |e.fsname| + |e.dir| + 2)
            && StrTok(s, |e.fsname| + |e.dir| + 2) == Tok(e.kind, |e.fsname| + |e.dir| + |e.kind| + 3)
  {
    hide StrTok, IsWord, PrintInt;
    var s := PrintEntry(e);
    var tail := e.opts + " " + PrintInt(e.freq) + " " + PrintInt(e.passno) + "\n";
    SplitAt(s, "", e.fsname, ' ', e.dir + " " + e.kind + " " + tail);
    SplitAt(s, e.fsname + " ", e.dir, ' ', e.kind + " " + tail);
    SplitAt(s, e.fsname + " " + e.dir + " ", e.kind, ' ', tail);
  }

  lemma PrintedRest(e: Entry)
    requires IsWord(e.opts)
    ensures var s, n := PrintEntry(e), |e.fsname| + |e.dir| + |e.kind| + 3;
            var f, p := PrintInt(e.freq), PrintInt(e.passno);
            && StrTok(s, n) == Tok(e.opts, n + |e.opts| + 1)
            && StrTok(s, n + |e.opts| + 1) == Tok(f, n + |e.opts| + |f| + 2)
            && StrTok(s, n + |e.opts| + |f| + 2) == Tok(p, n + |e.opts| + |f| + |p| + 3)
  {
    hide StrTok, IsWord, PrintInt;
    IntIsWord(e.freq);
    IntIsWord(e.passno);
    var f, p := PrintInt(e.freq), PrintInt(e.passno);
    var s := PrintEntry(e);
    var head := e.fsname + " " + e.dir + " " + e.kind + " ";
    SplitAt(s, head, e.opts, ' ', f + " " + p + "\n");
    SplitAt(s, head + e.opts + " ", f, ' ', p + "\n");
    SplitAt(s, head + e.opts + " " + f + " ", p, '\n', "");
  }

  lemma PrintedParses(e: Entry)
    requires IsWord(e.fsname) && IsWord(e.dir) && IsWord(e.kind) && IsWord(e.opts)
    ensures ParseEntry(PrintEntry(e)) == Some(e)
  {
    hide StrTok, IsWord, PrintInt, Atoi, PrintEntry;
    PrintedNames(e);
    PrintedRest(e);
    IntRoundTrip(e.freq);
    IntRoundTrip(e.passno);
  }

  /** The order of the fields, read and written. */
  lemma FieldOrder(a: string, b: string, c: string, d: string)
    requires IsWord(a) && IsWord(b) && IsWord(c) && IsWord(d)
    ensures var line := a + " " + b + " " + c + " " + d + " 10 -7\n";
            var e := ParseEntry(line);
            && e.Some? && e.value.fsname == a && e.value.dir == b && e.value.kind == c && e.value.opts == d
            && e.value.freq == 10 && e.value.passno == -7
            && PrintEntry(e.value) == line
  {
    hide ParseEntry, IsWord, Decimal;
    var e := Mount(a, b, c, d, 10, -7);
    NumberTexts();
    PrintedParses(e);
    assert PrintEntry(e) == a + " " + b + " " + c + " " + d + " 10 -7\n" by {
      assert "10" + " " + "-7" + "\n" == "10 -7\n" && " " + "10 -7\n" == " 10 -7\n";
      FieldsJoin(a + " " + b + " " + c + " " + d);
    }
  }

  lemma FieldsJoin(x: string)
    ensures x + " " + "10" + " " + "-7" + "\n" == x + " 10 -7\n"
  {
  }

  lemma NumberTexts()
    ensures PrintInt(10) == "10" && PrintInt(-7) == "-7"
  {
    assert Decimal(1) == "1" && Decimal(7) == "7";
    assert Decimal(10) == Decimal(1) + [Digit(0)];
    assert "1" + "0" == "10" && "-" + "7" == "-7";
  }

  lemma SplitAt(s: string, before: string, word: string, sep: char, rest: string)
    requires s == before + word + [sep] + rest && IsWord(word) && IsSep(sep)
    ensures StrTok(s, |before|) == Tok(word, |before| + |word| + 1)
  {
    TokenBehind(before, word, sep, rest);
  }

  /** A line needs three fields; missing options are empty and missing numbers 0. */
  lemma ShortLines(a: string, b: string, c: string)
    requires IsWord(a) && IsWord(b) && IsWord(c)
    ensures ParseEntry(a + "\n") == None && ParseEntry(a + " " + b + "\n") == None
    ensures ParseEntry(a + " " + b + " " + c + "\n") == Some(Mount(a, b, c, "", 0, 0))
  {
    hide IsWord, StrTok;
    var two, three := a + " " + b, a + " " + b + " " + c;
    SplitAt(a + "\n", "", a, '\n', "");
    NoMore(a + "\n");
    SplitAt(two + "\n", "", a, ' ', b + "\n");
    SplitAt(two + "\n", a + " ", b, '\n', "");
    NoMore(two + "\n");
    SplitAt(three + "\n", "", a, ' ', b + " " + c + "\n");
    SplitAt(three + "\n", a + " ", b, ' ', c + "\n");
    SplitAt(three + "\n", two + " ", c, '\n', "");
    NoMore(three + "\n");
  }

  lemma LineWithoutNumbers(a: string, b: string, c: string, d: string)
    requires IsWord(a) && IsWord(b) && IsWord(c) && IsWord(d)
    ensures ParseEntry(a + " " + b + " " + c + " " + d + "\n") == Some(Mount(a, b, c, d, 0, 0))
  {
    hide IsWord, StrTok;
    var three := a + " " + b + " " + c;
    var line := three + " " + d + "\n";
    SplitAt(line, "", a, ' ', b + " " + c + " " + d + "\n");
    SplitAt(line, a + " ", b, ' ', c + " " + d + "\n");
    SplitAt(line, a + " " + b + " ", c, ' ', d + "\n");
    SplitAt(line, three + " ", d, '\n', "");
    NoMore(line);
  }

  lemma NoMore(s: string)
    ensures StrTok(s, |s|) == NoTok
  {
  }

  lemma {:induction false} LineEndIs(text: string, p: nat, limit: nat, r: nat)
    requires p < r <= |text| && r - p <= limit && text[r - 1] == '\n' && forall k :: p <= k < r - 1 ==> text[k] != '\n'
    ensures LineEnd(text, p, limit) == r
    decreases r - p
  {
    if p < r - 1 {
      LineEndIs(text, p + 1, limit - 1, r);
    }
  }

  /** A printed line that fits is read as one line. */
  lemma PrintedLine(e: Entry, text: string, p: nat, size: nat)
    requires p + |PrintEntry(e)| <= |text| && text[p..p + |PrintEntry(e)|] == PrintEntry(e) && Fits(e, size)
    requires '\n' !in e.fsname && '\n' !in e.dir && '\n' !in e.kind && '\n' !in e.opts
    ensures LineEnd(text, p, size - 1) == p + |PrintEntry(e)|
  {
    hide PrintInt, LineEnd;
    IntIsWord(e.freq);
    IntIsWord(e.passno);
    var s := PrintEntry(e);
    var n := |s|;
    var body := e.fsname + " " + e.dir + " " + e.kind + " " + e.opts + " " + PrintInt(e.freq) + " " + PrintInt(e.passno);
    assert s == body + "\n" && '\n' !in body;
    assert forall k :: p <= k < p + n ==> text[k] == s[k - p];
    LineEndIs(text, p, size - 1, p + n);
  }

  lemma WordIsNotEmpty(s: string)
    requires IsWord(s)
    ensures s != "" && s[0] != '\n'
  {
  }

  lemma WordHasNoNewline(s: string)
    requires IsWord(s) || s == ""
    ensures '\n' !in s
  {
  }

  lemma PrintedIsClean(e: Entry)
    requires NUL !in e.fsname && NUL !in e.dir && NUL !in e.kind && NUL !in e.opts
    ensures CText(PrintEntry(e)) == PrintEntry(e)
  {
    hide PrintInt;
    IntIsWord(e.freq);
    IntIsWord(e.passno);
    assert NUL !in PrintEntry(e);
  }

  lemma CleanEntryIsRead(e: Entry, text: string, p: nat, size: nat)
    requires Clean(e) && Fits(e, size)
    requires p + |PrintEntry(e)| <= |text| && text[p..p + |PrintEntry(e)|] == PrintEntry(e)
    ensures GetEntry(text, p, size) == (Some(e), p + |PrintEntry(e)|)
  {
    hide PrintInt, LineEnd, IsWord, ParseEntry;
    WordIsNotEmpty(e.fsname);
    WordHasNoNewline(e.fsname);
    WordHasNoNewline(e.dir);
    WordHasNoNewline(e.kind);
    WordHasNoNewline(e.opts);
    PrintedLine(e, text, p, size);
    PrintedParses(e);
    PrintedIsClean(e);
    assert PrintEntry(e)[0] == e.fsname[0];
  }

  lemma {:induction false} ReadsPrinted(es: seq<Entry>, text: string, p: nat, size: nat)
    requires p <= |text| && text[p..] == PrintAll(es)
    requires forall i :: 0 <= i < |es| ==> Clean(es[i]) && Fits(es[i], size)
    ensures ReadAll(text, p, size) == es
    decreases |es|
  {
    hide PrintEntry, PrintAll, Clean, Fits, GetEntry, ReadAll;
    PrintAllParts(es);
    if es == [] {
      ReadAtEnd(text, size);
    } else {
      var line, rest := PrintEntry(es[0]), PrintAll(es[1..]);
      FrontOfRest(text, p, line, rest);
      CleanEntryIsRead(es[0], text, p, size);
      ReadOne(text, p, size, es[0], p + |line|);
      ReadsPrinted(es[1..], text, p + |line|, size);
    }
  }

  lemma PrintAllParts(es: seq<Entry>)
    ensures PrintAll(es) == if es == [] then "" else PrintEntry(es[0]) + PrintAll(es[1..])
  {
  }

  lemma ReadAtEnd(text: string, size: nat)
    ensures ReadAll(text, |text|, size) == []
  {
  }

  lemma ReadOne(text: string, p: nat, size: nat, e: Entry, next: nat)
    requires p <= |text| && GetEntry(text, p, size) == (Some(e), next)
    ensures next <= |text| && ReadAll(text, p, size) == [e] + ReadAll(text, next, size)
  {
    hide GetEntry;
  }

  lemma FrontOfRest(text: string, p: nat, line: string, rest: string)
    requires p <= |text| && text[p..] == line + rest
    ensures p + |line| <= |text| && text[p..p + |line|] == line && text[p + |line|..] == rest
  {
    assert text[p..p + |line|] == text[p..][..|line|];
    assert text[p + |line|..] == text[p..][|line|..];
  }

  // --- Behind an existing table ----------------------------------------------------

  /** Every line is ended. */
  predicate Ended(text: string) {
    text == "" || text[|text| - 1] == '\n'
  }

  /** Reading reaches the end: every line is passed over or holds an entry. */
  predicate ReadsThrough(text: string, p: nat, size: nat)
    requires p <= |text|
    decreases |text| - p
  {
    p == |text| ||
    (size > 0 &&
     var end := LineEnd(text, p, size - 1);
     p < end && (IsSkipped(text[p..end]) || ParseEntry(CText(text[p..end])).Some?) && ReadsThrough(text, end, size))
  }

  lemma {:induction false} LineEndStays(text: string, tail: string, p: nat, limit: nat)
    requires p < |text| && text[|text| - 1] == '\n'
    ensures LineEnd(text + tail, p, limit) == LineEnd(text, p, limit)
    decreases limit
  {
    if limit > 0 && text[p] != '\n' {
      LineEndStays(text, tail, p + 1, limit - 1);
    }
  }

  /** Lines that are there are read as before; behind them, reading goes on exactly if it reached the end. */
  lemma {:induction false} ReadBehind(text: string, tail: string, p: nat, size: nat)
    requires p <= |text| && Ended(text)
    ensures ReadAll(text + tail, p, size)
         == ReadAll(text, p, size) + (if ReadsThrough(text, p, size) then ReadAll(text + tail, |text|, size) else [])
    decreases |text| - p
  {
    hide ParseEntry, CText, IsSkipped, LineEnd, Ended, GetEntry, ReadAll;
    var whole := text + tail;
    if p == |text| {
      ReadAtEnd(text, size);
      assert [] + ReadAll(whole, |text|, size) == ReadAll(whole, |text|, size);
    } else if size <= 1 {
      NoLine(whole, p, size);
      NoLine(text, p, size);
    } else {
      EndedByNewline(text);
      LineEndStays(text, tail, p, size - 1);
      var end := LineEnd(text, p, size - 1);
      LineAdvances(text, p, size - 1);
      assert whole[p..end] == text[p..end];
      ReadBehind(text, tail, end, size);
      ReadLine(whole, p, size);
      ReadLine(text, p, size);
    }
  }

  lemma EndedByNewline(text: string)
    requires Ended(text) && text != ""
    ensures text[|text| - 1] == '\n'
  {
  }

  lemma LineAdvances(text: string, p: nat, limit: nat)
    requires p < |text| && limit > 0
    ensures p < LineEnd(text, p, limit) <= |text|
  {
  }

  lemma NoLine(text: string, p: nat, size: nat)
    requires p < |text| && size <= 1
    ensures ReadAll(text, p, size) == [] && !ReadsThrough(text, p, size)
  {
  }

  /** A line that fills the buffer is cut there, and its rest is read as the next line. */
  lemma LongLinesAreCut(line: string, rest: string, size: nat)
    requires '\n' !in line && |line| + 1 == size && line != "" && line[0] != '#'
    ensures GetEntry(line + rest, 0, size) == (ParseEntry(CText(line)), |line|)
  {
    hide ParseEntry, CText, LineEnd;
    var text := line + rest;
    CutAt(text, 0, |line|);
    assert text[0..|line|] == line;
  }

  lemma {:induction false} CutAt(text: string, p: nat, limit: nat)
    requires p + limit <= |text| && forall k :: p <= k < p + limit ==> text[k] != '\n'
    ensures LineEnd(text, p, limit) == p + limit
    decreases limit
  {
    if limit > 0 {
      CutAt(text, p + 1, limit - 1);
    }
  }

  /** Comment lines and empty lines that fit the buffer are passed over. */
  lemma CommentsAreSkipped(comment: string, rest: string, size: nat)
    requires '\n' !in comment && |comment| + 2 < size
    ensures ReadAll("#" + comment + "\n" + rest, 0, size) == ReadAll("#" + comment + "\n" + rest, |comment| + 2, size)
    ensures ReadAll("\n" + rest, 0, size) == ReadAll("\n" + rest, 1, size)
  {
    hide ParseEntry, CText, LineEnd, ReadAll;
    var text := "#" + comment + "\n" + rest;
    var n := |comment| + 2;
    assert text[0] == '#' && text[n - 1] == '\n' && forall k :: 1 <= k < n - 1 ==> text[k] == comment[k - 1];
    LineEndIs(text, 0, size - 1, n);
    ReadLine(text, 0, size);
    LineEndIs("\n" + rest, 0, size - 1, 1);
    ReadLine("\n" + rest, 0, size);
  }

  /** Reading on from the next line. */
  lemma ReadLine(text: string, p: nat, size: nat)
    requires p < |text| && size > 1
    ensures var end := LineEnd(text, p, size - 1);
            var entry := ParseEntry(CText(text[p..end]));
            ReadAll(text, p, size) == (if IsSkipped(text[p..end]) then ReadAll(text, end, size)
                                       else if entry.None? then []
                                       else [entry.value] + ReadAll(text, end, size))
  {
    hide ParseEntry, CText, LineEnd, IsSkipped;
  }

  /** Clean entries that fit the buffer, appended to a table, are read behind what is read of it, if that is all of it. */
  lemma AppendReadRoundTrip(text: string, es: seq<Entry>, size: nat)
    requires Ended(text) && forall i :: 0 <= i < |es| ==> Clean(es[i]) && Fits(es[i], size)
    ensures ReadAll(text + PrintAll(es), 0, size)
         == ReadAll(text, 0, size) + (if ReadsThrough(text, 0, size) then es else [])
  {
    hide PrintAll, Clean, Fits, ReadAll, Ended, ReadsThrough;
    var whole := text + PrintAll(es);
    assert whole[|text|..] == PrintAll(es);
    ReadsPrinted(es, whole, |text|, size);
    ReadBehind(text, PrintAll(es), 0, size);
  }

  /** Clean entries that fit the buffer, written to an empty table, come back. */
  lemma PrintReadRoundTrip(es: seq<Entry>, size: nat)
    requires forall i :: 0 <= i < |es| ==> Clean(es[i]) && Fits(es[i], size)
    ensures ReadAll(PrintAll(es), 0, size) == es
  {
    hide PrintAll, Clean, Fits;
    AppendReadRoundTrip("", es, size);
    assert "" + PrintAll(es) == PrintAll(es);
  }

  // ---------------------------------------------------------------------------
  // Nothing else comes back
  // ---------------------------------------------------------------------------

  lemma TokenIsWord(s: string, p: nat)
    requires p <= |s| && NUL !in s
    ensures StrTok(s, p).Tok? ==> CleanField(StrTok(s, p).text)
  {
  }

  lemma ParsedFields(line: string)
    requires NUL !in line && ParseEntry(line).Some?
    ensures var e := ParseEntry(line).value;
            CleanField(e.fsname) && CleanField(e.dir) && CleanField(e.kind) && (e.opts == "" || CleanField(e.opts))
  {
    hide StrTok, CleanField;
    var fsname := StrTok(line, 0);
    TokenIsWord(line, 0);
    var dir := StrTok(line, fsname.next);
    TokenIsWord(line, fsname.next);
    var kind := StrTok(line, dir.next);
    TokenIsWord(line, dir.next);
    TokenIsWord(line, kind.next);
  }

  /** What is read always has clean fields, except that the options can be missing. */
  lemma {:induction false} ReadFields(text: string, p: nat, size: nat)
    requires p <= |text| && GetEntry(text, p, size).0.Some?
    ensures var e := GetEntry(text, p, size).0.value;
            CleanField(e.fsname) && CleanField(e.dir) && CleanField(e.kind) && (e.opts == "" || CleanField(e.opts))
    decreases |text| - p
  {
    hide ParseEntry, CleanField, LineEnd;
    var end := LineEnd(text, p, size - 1);
    var line := text[p..end];
    if IsSkipped(line) {
      ReadFields(text, end, size);
    } else {
      ParsedFields(CText(line));
    }
  }

  /** Without options, the number that follows is taken for them. */
  lemma MissingOptions(e: Entry)
    requires CleanField(e.fsname) && CleanField(e.dir) && CleanField(e.kind) && e.opts == ""
    ensures ParseEntry(PrintEntry(e)).Some? && ParseEntry(PrintEntry(e)).value.opts == PrintInt(e.freq)
  {
    hide StrTok, IsWord, PrintInt, Atoi;
    IntIsWord(e.freq);
    var f, p := PrintInt(e.freq), PrintInt(e.passno);
    var s := PrintEntry(e);
    var head := e.fsname + " " + e.dir + " " + e.kind + " ";
    PrintedNames(e);
    assert s == head + " " + f + [' '] + (p + "\n");
    TokenAfterBlank(s, head, f, ' ', p + "\n");
  }

  lemma TokenAfterBlank(s: string, before: string, word: string, sep: char, rest: string)
    requires s == before + " " + word + [sep] + rest && IsWord(word) && IsSep(sep)
    ensures StrTok(s, |before|).Tok? && StrTok(s, |before|).text == word
  {
    var begin := |before| + 1;
    var end := begin + |word|;
    assert forall k :: begin <= k < end ==> s[k] == word[k - begin];
    ScanIs(s, |before|, true, begin);
    ScanIs(s, begin, false, end);
    assert s[begin..end] == word;
  }

  /** One entry that fits comes back from its printed line exactly if it is clean. */
  lemma EntryComesBackExactly(e: Entry, size: nat)
    requires Fits(e, size)
    ensures ReadAll(PrintEntry(e), 0, size) == [e] <==> Clean(e)
  {
    hide GetEntry, IsWord, PrintEntry, ParseEntry;
    var text := PrintEntry(e);
    if Clean(e) {
      assert PrintAll([e]) == text by {
        assert [e][1..] == [];
        assert text + "" == text;
      }
      PrintReadRoundTrip([e], size);
    } else if ReadAll(text, 0, size) == [e] {
      assert GetEntry(text, 0, size).0 == Some(e);
      ReadFields(text, 0, size);
      UncleanIsNotRead(e, size);
      assert false;
    }
  }

  lemma UncleanIsNotRead(e: Entry, size: nat)
    requires Fits(e, size) && !Clean(e)
    requires CleanField(e.fsname) && CleanField(e.dir) && CleanField(e.kind) && (e.opts == "" || CleanField(e.opts))
    ensures GetEntry(PrintEntry(e), 0, size).0 != Some(e)
  {
    hide PrintInt, LineEnd, IsWord, ParseEntry;
    WordIsNotEmpty(e.fsname);
    IntIsWord(e.freq);
    WordIsNotEmpty(PrintInt(e.freq));
    var text := PrintEntry(e);
    WordHasNoNewline(e.fsname);
    WordHasNoNewline(e.dir);
    WordHasNoNewline(e.kind);
    WordHasNoNewline(e.opts);
    assert text[0..|text|] == text;
    PrintedLine(e, text, 0, size);
    PrintedIsClean(e);
    assert text[0] == e.fsname[0];
    if e.fsname[0] == '#' {
      assert GetEntry(text, |text|, size).0 == None;
    } else {
      MissingOptions(e);
    }
  }

  // ---------------------------------------------------------------------------
  // The file
  // ---------------------------------------------------------------------------

  /** A mount table open for reading and appending. */
  class TableFile {
    var text: string
    var pos: nat

    predicate Valid()
      reads this
    {
      pos <= |text|
    }

    constructor (text: string)
      ensures Valid() && this.text == text && pos == 0
    {
      this.text, pos := text, 0;
    }

    /** getmntent_r: comment lines and empty lines are passed over, then one line is taken apart. */
    method GetMntent(size: nat) returns (entry: Option<Entry>)
      requires Valid()
      modifies this`pos
      ensures Valid() && (entry, pos) == GetEntry(text, old(pos), size)
    {
      hide ParseEntry, CText;
      var found, line := false, "";
      while !found && pos < |text| && size > 0
        invariant Valid() && old(pos) <= pos
        invariant if found then GetEntry(text, old(pos), size) == (ParseEntry(CText(line)), pos)
                  else GetEntry(text, old(pos), size) == GetEntry(text, pos, size)
        decreases if found then 0 else 1, |text| - pos
      {
        var end := LineEnd(text, pos, size - 1);
        line := text[pos..end];
        found := !IsSkipped(line);
        pos := end;
      }
      if !found {
        return None;
      }
      entry := ParseLine(CText(line));
    }

    method ParseLine(buff: string) returns (entry: Option<Entry>)
      ensures entry == ParseEntry(buff)
    {
      hide StrTok, Atoi;
      var fsname := StrTok(buff, 0);
      if fsname.NoTok? {
        return None;
      }
      var dir := StrTok(buff, fsname.next);
      if dir.NoTok? {
        return None;
      }
      var kind := StrTok(buff, dir.next);
      if kind.NoTok? {
        return None;
      }
      var opts := StrTok(buff, kind.next);
      var rest := After(buff, opts, kind.next);
      var freq := StrTok(buff, rest);
      var passno := StrTok(buff, After(buff, freq, rest));
      entry := Some(Mount(fsname.text, dir.text, kind.text, if opts.Tok? then opts.text else "",
                          NumberAt(buff, freq), NumberAt(buff, passno)));
    }

    /** addmntent writes at the end wherever the position was. */
    method AddMntent(e: Entry)
      requires Valid()
      modifies this
      ensures Valid() && text == old(text) + PrintEntry(e) && pos == |text|
    {
      text := text + PrintEntry(e);
      pos := |text|;
    }
  }
}
