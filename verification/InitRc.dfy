/** The rewriter of /init.rc: it imports the multiboot services and disables installd. */
module InitRc {
  import opened Strings
  import opened PropertyFile

  // ---------------------------------------------------------------------------
  // Lines
  // ---------------------------------------------------------------------------

  /** getline: up to and including the next newline. */
  function FirstLineOf(text: string): (r: string)
    requires text != ""
    ensures r != "" && r <= text
  {
    var line := Before('\n', text);
    if |line| < |text| then text[..|line| + 1] else text
  }

  function Lines(text: string): seq<string>
    decreases |text|
  {
    if text == "" then [] else [FirstLineOf(text)] + Lines(text[|FirstLineOf(text)|..])
  }

  function Concat(lines: seq<string>): string {
    if lines == [] then "" else lines[0] + Concat(lines[1..])
  }

  lemma {:induction false} ConcatLines(text: string)
    ensures Concat(Lines(text)) == text
    decreases |text|
  {
    if text != "" {
      var line := FirstLineOf(text);
      var rest := text[|line|..];
      ConcatLines(rest);
      var all := Lines(text);
      assert all[0] == line && all[1..] == Lines(rest);
      assert text == line + rest;
    }
  }

  /** A line with its newline at the end and nowhere else. */
  predicate IsFullLine(line: string) {
    line != "" && line[|line| - 1] == '\n' && '\n' !in line[..|line| - 1]
  }

  lemma LinesOfFull(line: string, rest: string)
    requires IsFullLine(line)
    ensures Lines(line + rest) == [line] + Lines(rest)
  {
    var body := line[..|line| - 1];
    BeforeConcat('\n', body, rest);
    assert line == body + ['\n'];
    assert line + rest == body + ['\n'] + rest;
    assert (line + rest)[|line|..] == rest;
  }

  lemma LinesOfLast(line: string)
    requires line != "" && '\n' !in line
    ensures Lines(line) == [line]
  {
    assert line[|line|..] == "";
  }

  /** Only the last line of a text can lack a newline. */
  lemma FirstLineShape(text: string)
    requires text != ""
    ensures var line := FirstLineOf(text);
            IsFullLine(line) || (line == text && '\n' !in line)
  {
    var line := Before('\n', text);
    if |line| < |text| {
      assert text[..|line| + 1][..|line|] == line;
    }
  }

  // ---------------------------------------------------------------------------
  // What a line says
  // ---------------------------------------------------------------------------

  const IMPORT := "import /init.multiboot.rc"
  const IMPORT_LINE := "import /init.multiboot.rc\n"
  const DISABLED_LINE := "    disabled\n"

  predicate IsImport(line: string) {
    Contains(CText(line), IMPORT)
  }

  predicate StartsService(line: string) {
    StartsWith(CText(line), "service")
  }

  predicate NamesInstalld(line: string) {
    Contains(CText(line), "installd")
  }

  predicate IsInstalldService(line: string) {
    StartsService(line) && NamesInstalld(line)
  }

  predicate SaysDisabled(line: string) {
    Contains(CText(line), "disabled")
  }

  predicate IsBlank(line: string) {
    forall i :: 0 <= i < |CText(line)| ==> IsSpace(CText(line)[i])
  }

  predicate IsComment(line: string) {
    line != "" && line[0] == '#'
  }

  // ---------------------------------------------------------------------------
  // The two passes
  // ---------------------------------------------------------------------------

  /** Whether the scan is inside the installd service after a line. */
  function Inside(inside: bool, line: string): bool {
    if StartsService(line) then NamesInstalld(line) else inside && !IsBlank(line)
  }

  predicate HasImport(lines: seq<string>) {
    exists i :: 0 <= i < |lines| && IsImport(lines[i])
  }

  /** Whether a line inside an installd service says disabled, the scan starting inside or outside of one. */
  predicate HasDisabled(lines: seq<string>, inside: bool) {
    lines != [] &&
    var inside' := Inside(inside, lines[0]);
    (inside' && SaysDisabled(lines[0])) || HasDisabled(lines[1..], inside')
  }

  datatype Chunk = Kept(text: string) | Inserted(text: string)

  function ChunksOfLine(line: string, imported: bool, disabled: bool): seq<Chunk> {
    (if !imported && !IsComment(line) then [Inserted(IMPORT_LINE)] else [])
    + [Kept(line)]
    + (if !disabled && IsInstalldService(line) then [Inserted(DISABLED_LINE)] else [])
  }

  function Chunks(lines: seq<string>, imported: bool, disabled: bool): seq<Chunk> {
    if lines == [] then []
    else
      ChunksOfLine(lines[0], imported, disabled)
      + Chunks(lines[1..], imported || !IsComment(lines[0]), disabled)
  }

  function Text(chunks: seq<Chunk>): string {
    if chunks == [] then "" else chunks[0].text + Text(chunks[1..])
  }

  function KeptText(chunks: seq<Chunk>): string {
    if chunks == [] then ""
    else (if chunks[0].Kept? then chunks[0].text else "") + KeptText(chunks[1..])
  }

  function RewrittenChunks(text: string): seq<Chunk> {
    Chunks(Lines(text), HasImport(Lines(text)), HasDisabled(Lines(text), false))
  }

  function Rewritten(text: string): string {
    Text(RewrittenChunks(text))
  }

  lemma FirstLineIs(body: string, rest: string)
    requires '\n' !in body
    ensures FirstLineOf(body + ['\n'] + rest) == body + ['\n']
    ensures body != "" ==> FirstLineOf(body) == body
  {
    BeforeConcat('\n', body, rest);
  }

  lemma FirstLineAt(text: string, pos: nat, end: nat)
    requires pos <= end <= |text| && pos < |text| && '\n' !in text[pos..end] && (end < |text| ==> text[end] == '\n')
    ensures FirstLineOf(text[pos..]) == if end < |text| then text[pos..end + 1] else text[pos..end]
  {
    hide FirstLineOf;
    if end < |text| {
      FirstLineIs(text[pos..end], text[end + 1..]);
      LineSplits(text, pos, end);
    } else {
      FirstLineIs(text[pos..end], "");
      assert text[pos..] == text[pos..end];
    }
  }

  lemma LineSplits(text: string, pos: nat, end: nat)
    requires pos <= end < |text| && text[end] == '\n'
    ensures text[pos..end + 1] == text[pos..end] + ['\n']
    ensures text[pos..] == text[pos..end] + ['\n'] + text[end + 1..]
  {
  }

  method ReadLine(text: string, pos: nat) returns (line: string, next: nat)
    requires pos < |text|
    ensures line == FirstLineOf(text[pos..]) && next == pos + |line| <= |text|
    ensures text[pos..][|line|..] == text[next..]
  {
    hide FirstLineOf;
    next := pos;
    while next < |text| && text[next] != '\n'
      invariant pos <= next <= |text|
      invariant '\n' !in text[pos..next]
    {
      next := next + 1;
    }
    FirstLineAt(text, pos, next);
    if next < |text| {
      next := next + 1;
    }
    line := text[pos..next];
  }

  /** The first pass. */
  method ScanLines(text: string) returns (hasImport: bool, hasDisabled: bool)
    ensures hasImport == HasImport(Lines(text))
    ensures hasDisabled == HasDisabled(Lines(text), false)
  {
    hide IsImport, StartsService, NamesInstalld, SaysDisabled, IsBlank, FirstLineOf;
    hasImport, hasDisabled := false, false;
    var insideService := false;
    var pos := 0;
    assert text[0..] == text;
    while pos < |text|
      invariant 0 <= pos <= |text|
      invariant HasImport(Lines(text)) == (hasImport || HasImport(Lines(text[pos..])))
      invariant HasDisabled(Lines(text), false) == (hasDisabled || HasDisabled(Lines(text[pos..]), insideService))
    {
      ghost var rest := Lines(text[pos..]);
      var line, next := ReadLine(text, pos);
      assert rest == [line] + Lines(text[next..]) && rest[1..] == Lines(text[next..]);
      HasImportStep(line, Lines(text[next..]));
      if IsImport(line) {
        hasImport := true;
      }
      if StartsService(line) {
        insideService := NamesInstalld(line);
      } else if insideService && IsBlank(line) {
        insideService := false;
      }
      if insideService && SaysDisabled(line) {
        hasDisabled := true;
      }
      pos := next;
    }
  }

  lemma HasImportStep(line: string, rest: seq<string>)
    ensures HasImport([line] + rest) <==> IsImport(line) || HasImport(rest)
  {
    hide IsImport;
    var all := [line] + rest;
    assert forall i :: 0 <= i < |rest| ==> all[i + 1] == rest[i];
    if IsImport(line) {
      assert IsImport(all[0]);
    }
  }

  /** One line of the second pass. */
  method WriteLine(before: string, line: string, imported: bool, disabled: bool) returns (output: string, imported': bool)
    ensures imported' == (imported || !IsComment(line))
    ensures output == before + LineText(line, imported, disabled)
  {
    hide IsComment, IsInstalldService;
    output, imported' := before, imported;
    if !imported && !IsComment(line) {
      imported' := true;
      output := output + IMPORT_LINE;
    }
    output := output + line;
    if !disabled && IsInstalldService(line) {
      output := output + DISABLED_LINE;
    }
  }

  /** Both passes, as add_mbtool_services makes them. */
  method AddMbtoolServices(text: string) returns (output: string)
    ensures output == Rewritten(text)
  {
    hide IsInstalldService, FirstLineOf, HasImport, HasDisabled, IsComment, Text, ChunksOfLine, LineText;
    var hasImport, hasDisabled := ScanLines(text);
    output := "";
    ghost var all := RewrittenChunks(text);
    var pos := 0;
    assert text[0..] == text && output + Text(all) == Text(all);
    while pos < |text|
      invariant 0 <= pos <= |text|
      invariant output + Text(Chunks(Lines(text[pos..]), hasImport, hasDisabled)) == Text(all)
    {
      ghost var before, imported := output, hasImport;
      var line, next := ReadLine(text, pos);
      assert Lines(text[pos..])[1..] == Lines(text[next..]);
      output, hasImport := WriteLine(output, line, hasImport, hasDisabled);
      TextOfLine(before, line, imported, hasDisabled, Chunks(Lines(text[next..]), hasImport, hasDisabled));
      pos := next;
    }
    TextCons(Kept(""), []);
  }

  lemma TextCons(c: Chunk, rest: seq<Chunk>)
    ensures Text([]) == "" && Text([c] + rest) == c.text + Text(rest)
    ensures KeptText([]) == "" && KeptText([c] + rest) == (if c.Kept? then c.text else "") + KeptText(rest)
  {
    assert ([c] + rest)[1..] == rest;
  }

  lemma TextOfKept(line: string, disabled: bool, rest: seq<Chunk>)
    ensures var last := if !disabled && IsInstalldService(line) then [Inserted(DISABLED_LINE)] else [];
            && Text([Kept(line)] + (last + rest)) == line + (if !disabled && IsInstalldService(line) then DISABLED_LINE else "") + Text(rest)
            && KeptText([Kept(line)] + (last + rest)) == line + KeptText(rest)
  {
    hide IsInstalldService, Text, KeptText;
    var last := if !disabled && IsInstalldService(line) then [Inserted(DISABLED_LINE)] else [];
    TextCons(Inserted(DISABLED_LINE), rest);
    TextCons(Kept(line), last + rest);
    assert last == [] ==> last + rest == rest;
  }

  lemma TextOfChunks(line: string, imported: bool, disabled: bool, rest: seq<Chunk>)
    ensures Text(ChunksOfLine(line, imported, disabled) + rest) == LineText(line, imported, disabled) + Text(rest)
    ensures KeptText(ChunksOfLine(line, imported, disabled) + rest) == line + KeptText(rest)
  {
    hide IsComment, IsInstalldService, Text, KeptText;
    var last := if !disabled && IsInstalldService(line) then [Inserted(DISABLED_LINE)] else [];
    var tail := [Kept(line)] + (last + rest);
    TextOfKept(line, disabled, rest);
    TextCons(Inserted(IMPORT_LINE), tail);
    if !imported && !IsComment(line) {
      assert ChunksOfLine(line, imported, disabled) + rest == [Inserted(IMPORT_LINE)] + tail;
    } else {
      assert ChunksOfLine(line, imported, disabled) + rest == tail;
    }
  }

  /** The text that the chunks of one line add in front of the rest. */
  lemma TextOfLine(before: string, line: string, imported: bool, disabled: bool, rest: seq<Chunk>)
    ensures before + LineText(line, imported, disabled) + Text(rest)
         == before + Text(ChunksOfLine(line, imported, disabled) + rest)
    ensures KeptText(ChunksOfLine(line, imported, disabled) + rest) == line + KeptText(rest)
  {
    hide LineText, ChunksOfLine, Text, KeptText;
    TextOfChunks(line, imported, disabled, rest);
  }

  function LineText(line: string, imported: bool, disabled: bool): string {
    (if !imported && !IsComment(line) then IMPORT_LINE else "")
    + line
    + (if !disabled && IsInstalldService(line) then DISABLED_LINE else "")
  }

  // ---------------------------------------------------------------------------
  // Only insertions
  // ---------------------------------------------------------------------------

  function Imports(chunks: seq<Chunk>): nat {
    if chunks == [] then 0 else (if chunks[0] == Inserted(IMPORT_LINE) then 1 else 0) + Imports(chunks[1..])
  }

  predicate OnlyKnown(chunks: seq<Chunk>) {
    forall i :: 0 <= i < |chunks| ==> chunks[i].Kept? || chunks[i].text in {IMPORT_LINE, DISABLED_LINE}
  }

  lemma ImportsCons(c: Chunk, rest: seq<Chunk>)
    ensures Imports([c] + rest) == (if c == Inserted(IMPORT_LINE) then 1 else 0) + Imports(rest)
    ensures OnlyKnown([c] + rest) <==> (c.Kept? || c.text in {IMPORT_LINE, DISABLED_LINE}) && OnlyKnown(rest)
  {
    var all := [c] + rest;
    assert all[1..] == rest;
    assert forall i :: 0 <= i < |rest| ==> rest[i] == all[i + 1];
  }

  lemma ConstantLines()
    ensures IMPORT_LINE != DISABLED_LINE
    ensures IsFullLine(IMPORT_LINE) && IsFullLine(DISABLED_LINE)
    ensures CText(IMPORT_LINE) == IMPORT_LINE && CText(DISABLED_LINE) == DISABLED_LINE
  {
    assert IMPORT_LINE[0] != DISABLED_LINE[0];
    assert '\n' !in IMPORT_LINE[..|IMPORT_LINE| - 1] && '\n' !in DISABLED_LINE[..|DISABLED_LINE| - 1];
    assert NUL !in IMPORT_LINE && NUL !in DISABLED_LINE;
  }

  lemma ImportsOfLine(line: string, imported: bool, disabled: bool, rest: seq<Chunk>)
    ensures Imports(ChunksOfLine(line, imported, disabled) + rest)
         == (if !imported && !IsComment(line) then 1 else 0) + Imports(rest)
    ensures OnlyKnown(rest) ==> OnlyKnown(ChunksOfLine(line, imported, disabled) + rest)
  {
    hide IsComment, IsInstalldService, Imports, OnlyKnown;
    ConstantLines();
    var last := if !disabled && IsInstalldService(line) then [Inserted(DISABLED_LINE)] else [];
    var tail := last + rest;
    ImportsCons(Inserted(DISABLED_LINE), rest);
    ImportsCons(Kept(line), tail);
    ImportsCons(Inserted(IMPORT_LINE), [Kept(line)] + tail);
    assert last == [] ==> tail == rest;
    var first := if !imported && !IsComment(line) then [Inserted(IMPORT_LINE)] else [];
    assert ChunksOfLine(line, imported, disabled) + rest == first + ([Kept(line)] + tail);
    assert first == [] ==> first + ([Kept(line)] + tail) == [Kept(line)] + tail;
  }

  lemma {:induction false} ChunksOnlyInsert(lines: seq<string>, imported: bool, disabled: bool)
    ensures var cs := Chunks(lines, imported, disabled);
            && KeptText(cs) == Concat(lines)
            && OnlyKnown(cs)
            && Imports(cs) <= (if imported then 0 else 1)
  {
    if lines != [] {
      hide IsComment, IsInstalldService, ChunksOfLine, OnlyKnown;
      var imported' := imported || !IsComment(lines[0]);
      var rest := Chunks(lines[1..], imported', disabled);
      ChunksOnlyInsert(lines[1..], imported', disabled);
      TextOfLine("", lines[0], imported, disabled, rest);
      ImportsOfLine(lines[0], imported, disabled, rest);
    }
  }

  /** Nothing is lost or reordered: without the inserted lines the output is the input, and at most one import is inserted. */
  lemma OnlyInserts(text: string)
    ensures KeptText(RewrittenChunks(text)) == text
    ensures OnlyKnown(RewrittenChunks(text)) && Imports(RewrittenChunks(text)) <= 1
  {
    hide Chunks, OnlyKnown, Lines, HasImport, HasDisabled;
    ChunksOnlyInsert(Lines(text), HasImport(Lines(text)), HasDisabled(Lines(text), false));
    ConcatLines(text);
  }

  // ---------------------------------------------------------------------------
  // A second run changes nothing
  // ---------------------------------------------------------------------------

  predicate AllComments(lines: seq<string>) {
    forall i :: 0 <= i < |lines| ==> IsComment(lines[i])
  }

  predicate NoInstalld(lines: seq<string>) {
    forall i :: 0 <= i < |lines| ==> !IsInstalldService(lines[i])
  }

  /** Neither of the two insertions is due. */
  predicate Settled(lines: seq<string>) {
    && (HasImport(lines) || AllComments(lines))
    && (HasDisabled(lines, false) || NoInstalld(lines))
  }

  lemma {:induction false} NothingDue(lines: seq<string>, imported: bool, disabled: bool)
    requires (imported || AllComments(lines)) && (disabled || NoInstalld(lines))
    ensures Text(Chunks(lines, imported, disabled)) == Concat(lines)
  {
    hide IsComment, IsInstalldService;
    if lines != [] {
      NothingDue(lines[1..], imported || !IsComment(lines[0]), disabled);
      var rest := Chunks(lines[1..], imported || !IsComment(lines[0]), disabled);
      TextOfLine("", lines[0], imported, disabled, rest);
      assert "" + LineText(lines[0], imported, disabled) == lines[0];
      assert "" + Text(ChunksOfLine(lines[0], imported, disabled) + rest) == Text(ChunksOfLine(lines[0], imported, disabled) + rest);
    }
  }

  lemma SettledStays(text: string)
    requires Settled(Lines(text))
    ensures Rewritten(text) == text
  {
    hide HasImport, HasDisabled, AllComments, NoInstalld, Chunks, Lines;
    NothingDue(Lines(text), HasImport(Lines(text)), HasDisabled(Lines(text), false));
    ConcatLines(text);
  }

  /** The lines of the output of one line; an insertion behind a last line without newline becomes part of that line. */
  function OutLine(line: string, disabled: bool): seq<string> {
    if !disabled && IsInstalldService(line) then
      if IsFullLine(line) then [line, DISABLED_LINE] else [line + DISABLED_LINE]
    else [line]
  }

  function OutLines(line: string, imported: bool, disabled: bool): seq<string> {
    (if !imported && !IsComment(line) then [IMPORT_LINE] else []) + OutLine(line, disabled)
  }

  predicate ProperLines(lines: seq<string>) {
    && (forall i :: 0 <= i < |lines| ==> lines[i] != "" && '\n' !in lines[i][..|lines[i]| - 1])
    && (forall i :: 0 <= i < |lines| - 1 ==> IsFullLine(lines[i]))
  }

  lemma {:induction false} LinesAreProper(text: string)
    ensures ProperLines(Lines(text))
    decreases |text|
  {
    hide FirstLineOf;
    if text != "" {
      FirstLineShape(text);
      var line := FirstLineOf(text);
      var rest := text[|line|..];
      LinesAreProper(rest);
      var all := Lines(text);
      assert forall i :: 1 <= i < |all| ==> all[i] == Lines(rest)[i - 1];
      if !IsFullLine(line) {
        assert rest == "";
      }
    }
  }

  function OutAll(lines: seq<string>, imported: bool, disabled: bool): seq<string> {
    if lines == [] then []
    else OutLines(lines[0], imported, disabled) + OutAll(lines[1..], imported || !IsComment(lines[0]), disabled)
  }

  lemma LinesWithDisabled(line: string, rest: string)
    requires IsFullLine(line) || ('\n' !in line && line != "" && rest == "")
    ensures Lines(line + (DISABLED_LINE + rest))
         == (if IsFullLine(line) then [line, DISABLED_LINE] else [line + DISABLED_LINE]) + Lines(rest)
  {
    hide IsFullLine, Lines;
    ConstantLines();
    if IsFullLine(line) {
      LinesOfFull(line, DISABLED_LINE + rest);
      LinesOfFull(DISABLED_LINE, rest);
    } else {
      LastLineGrows(line);
      LinesOfFull(line + DISABLED_LINE, rest);
      assert line + DISABLED_LINE + rest == line + (DISABLED_LINE + rest);
    }
  }

  lemma LinesWithout(line: string, rest: string)
    requires IsFullLine(line) || ('\n' !in line && line != "" && rest == "")
    ensures Lines(line + rest) == [line] + Lines(rest)
  {
    assert rest == "" ==> Lines(rest) == [];
    hide IsFullLine, Lines;
    if IsFullLine(line) {
      LinesOfFull(line, rest);
    } else {
      LinesOfLast(line);
      assert line + rest == line;
    }
  }

  lemma LinesOfBody(line: string, disabled: bool, rest: string)
    requires IsFullLine(line) || ('\n' !in line && line != "" && rest == "")
    ensures Lines(line + (if !disabled && IsInstalldService(line) then DISABLED_LINE else "") + rest) == OutLine(line, disabled) + Lines(rest)
  {
    hide IsInstalldService, IsFullLine, Lines;
    if !disabled && IsInstalldService(line) {
      LinesWithDisabled(line, rest);
      assert line + DISABLED_LINE + rest == line + (DISABLED_LINE + rest);
    } else {
      LinesWithout(line, rest);
      assert line + "" + rest == line + rest;
    }
  }

  lemma LinesOfLine(line: string, imported: bool, disabled: bool, rest: string)
    requires IsFullLine(line) || ('\n' !in line && line != "" && rest == "")
    ensures Lines(LineText(line, imported, disabled) + rest) == OutLines(line, imported, disabled) + Lines(rest)
  {
    hide IsComment, IsInstalldService, IsFullLine, Lines, OutLine;
    var body := line + (if !disabled && IsInstalldService(line) then DISABLED_LINE else "");
    LinesOfBody(line, disabled, rest);
    if !imported && !IsComment(line) {
      ConstantLines();
      LinesOfFull(IMPORT_LINE, body + rest);
      assert LineText(line, imported, disabled) == IMPORT_LINE + body;
      assert IMPORT_LINE + body + rest == IMPORT_LINE + (body + rest);
    } else {
      assert LineText(line, imported, disabled) == body;
    }
  }

  lemma LastLineGrows(line: string)
    requires '\n' !in line
    ensures IsFullLine(line + DISABLED_LINE)
  {
    ConstantLines();
    var whole := line + DISABLED_LINE;
    assert whole[..|whole| - 1] == line + DISABLED_LINE[..|DISABLED_LINE| - 1];
  }

  lemma OnlyLastIsCut(lines: seq<string>)
    requires ProperLines(lines) && lines != []
    ensures lines[0] != "" && ProperLines(lines[1..])
    ensures IsFullLine(lines[0]) || ('\n' !in lines[0] && lines[1..] == [])
  {
    var line := lines[0];
    assert forall i :: 0 <= i < |lines[1..]| ==> lines[1..][i] == lines[i + 1];
    if !IsFullLine(line) {
      assert line == line[..|line| - 1] + [line[|line| - 1]];
    }
  }

  /** The lines of the output. */
  lemma {:induction false} LinesOfOutput(lines: seq<string>, imported: bool, disabled: bool)
    requires ProperLines(lines)
    ensures Lines(Text(Chunks(lines, imported, disabled))) == OutAll(lines, imported, disabled)
  {
    if lines != [] {
      assert Text([]) == "";
      hide IsComment, IsInstalldService, ChunksOfLine, OutLines, Lines, Text, ProperLines, IsFullLine, LineText;
      var line, imported' := lines[0], imported || !IsComment(lines[0]);
      var rest := Chunks(lines[1..], imported', disabled);
      OnlyLastIsCut(lines);
      LinesOfOutput(lines[1..], imported', disabled);
      TextOfChunks(line, imported, disabled, rest);
      assert lines[1..] == [] ==> rest == [];
      LinesOfLine(line, imported, disabled, Text(rest));
    }
  }

  // --- What the output says -------------------------------------------------

  lemma LongerSays(line: string, more: string)
    ensures CText(line) <= CText(line + more)
    ensures NUL in line ==> CText(line + more) == CText(line)
    ensures NUL !in line ==> CText(line + more) == line + CText(more)
    decreases |line|
  {
    if line == "" {
      assert line + more == more;
    } else if line[0] != NUL {
      LongerSays(line[1..], more);
      assert (line + more)[1..] == line[1..] + more;
      assert line == [line[0]] + line[1..];
    }
  }

  lemma LongerContains(s: string, t: string, needle: string)
    requires s <= t && Contains(s, needle)
    ensures Contains(t, needle)
  {
    var i :| 0 <= i <= |s| && OccursAt(s, needle, i);
    assert t[i..i + |needle|] == s[i..i + |needle|];
    assert OccursAt(t, needle, i);
  }

  lemma ConcatContains(a: string, b: string, needle: string)
    requires Contains(b, needle)
    ensures Contains(a + b, needle)
  {
    var i :| 0 <= i <= |b| && OccursAt(b, needle, i);
    assert (a + b)[|a| + i..|a| + i + |needle|] == b[i..i + |needle|];
    assert OccursAt(a + b, needle, |a| + i);
  }

  lemma ContainsFirst(s: string, needle: string)
    requires needle != "" && Contains(s, needle)
    ensures needle[0] in s
  {
    var i :| 0 <= i <= |s| && OccursAt(s, needle, i);
    assert s[i] == s[i..i + |needle|][0];
  }

  lemma ImportOccurs()
    ensures Contains(IMPORT_LINE, IMPORT)
  {
    assert IMPORT_LINE[0..25] == IMPORT;
    assert OccursAt(IMPORT_LINE, IMPORT, 0);
  }

  /** The import line is an import, no service, not blank, no comment and does not say disabled. */
  lemma ImportLineSays()
    ensures IsImport(IMPORT_LINE) && !StartsService(IMPORT_LINE) && !IsBlank(IMPORT_LINE)
    ensures !IsComment(IMPORT_LINE) && !SaysDisabled(IMPORT_LINE)
  {
    hide Contains, CText;
    ConstantLines();
    ImportOccurs();
    assert 'd' !in IMPORT_LINE;
    if SaysDisabled(IMPORT_LINE) {
      ContainsFirst(IMPORT_LINE, "disabled");
      assert false;
    }
    assert IMPORT_LINE[0] == 'i' && !IsSpace(IMPORT_LINE[0]);
  }

  lemma DisabledLineSays()
    ensures SaysDisabled(DISABLED_LINE) && !StartsService(DISABLED_LINE) && !IsBlank(DISABLED_LINE)
  {
    ConstantLines();
    assert DISABLED_LINE[4..4 + |"disabled"|] == "disabled";
    assert OccursAt(DISABLED_LINE, "disabled", 4);
    assert DISABLED_LINE[0] == ' ' && DISABLED_LINE[4] == 'd' && !IsSpace(DISABLED_LINE[4]);
  }

  /** A last line that the insertion was appended to. */
  lemma GrownLineSays(line: string)
    ensures IsImport(line) ==> IsImport(line + DISABLED_LINE)
    ensures IsInstalldService(line) ==> IsInstalldService(line + DISABLED_LINE)
    ensures NUL !in line ==> SaysDisabled(line + DISABLED_LINE)
    ensures NUL in line ==> CText(line + DISABLED_LINE) == CText(line)
  {
    hide Contains;
    ConstantLines();
    LongerSays(line, DISABLED_LINE);
    if IsImport(line) {
      LongerContains(CText(line), CText(line + DISABLED_LINE), IMPORT);
    }
    if NamesInstalld(line) {
      LongerContains(CText(line), CText(line + DISABLED_LINE), "installd");
    }
    if NUL !in line {
      DisabledLineSays();
      ConcatContains(line, DISABLED_LINE, "disabled");
    }
  }

  lemma HasDisabledCons(line: string, rest: seq<string>, inside: bool)
    ensures HasDisabled([line] + rest, inside)
       <==> (Inside(inside, line) && SaysDisabled(line)) || HasDisabled(rest, Inside(inside, line))
  {
    assert ([line] + rest)[1..] == rest;
  }

  /** An import line in front makes no difference to the scan for disabled. */
  lemma HasDisabledImport(rest: seq<string>, inside: bool)
    ensures HasDisabled([IMPORT_LINE] + rest, inside) <==> HasDisabled(rest, inside)
  {
    hide SaysDisabled, StartsService, IsBlank, HasDisabled;
    ImportLineSays();
    HasDisabledCons(IMPORT_LINE, rest, inside);
  }

  lemma HasDisabledOut(lines: seq<string>, imported: bool, disabled: bool, inside: bool)
    requires lines != []
    ensures HasDisabled(OutAll(lines, imported, disabled), inside)
       <==> HasDisabled(OutLine(lines[0], disabled) + OutAll(lines[1..], imported || !IsComment(lines[0]), disabled), inside)
  {
    hide IsComment, IsInstalldService, HasDisabled, IsFullLine;
    var rest := OutLine(lines[0], disabled) + OutAll(lines[1..], imported || !IsComment(lines[0]), disabled);
    HasDisabledImport(rest, inside);
    if !imported && !IsComment(lines[0]) {
      assert OutAll(lines, imported, disabled) == [IMPORT_LINE] + rest;
    } else {
      assert OutAll(lines, imported, disabled) == rest;
    }
  }

  /** A service line whose insertion ends up where the C string functions do not see it. */
  predicate Hidden(line: string) {
    !IsFullLine(line) && NUL in line
  }

  /** Every insertion that is due is lost behind a NUL in an unterminated last line. */
  predicate HiddenByNul(lines: seq<string>) {
    && !HasDisabled(lines, false)
    && !NoInstalld(lines)
    && (forall i :: 0 <= i < |lines| && IsInstalldService(lines[i]) ==> Hidden(lines[i]))
  }

  lemma {:induction false} OutScansTheSame(lines: seq<string>, imported: bool, disabled: bool, inside: bool)
    requires disabled || forall i :: 0 <= i < |lines| && IsInstalldService(lines[i]) ==> Hidden(lines[i])
    ensures HasDisabled(OutAll(lines, imported, disabled), inside) <==> HasDisabled(lines, inside)
  {
    hide IsComment, StartsService, NamesInstalld, HasDisabled, SaysDisabled, IsBlank, IsFullLine;
    if lines != [] {
      var line, imported' := lines[0], imported || !IsComment(lines[0]);
      var rest := OutAll(lines[1..], imported', disabled);
      assert forall i :: 0 <= i < |lines[1..]| ==> lines[1..][i] == lines[i + 1];
      OutScansTheSame(lines[1..], imported', disabled, Inside(inside, line));
      HasDisabledOut(lines, imported, disabled, inside);
      HasDisabledCons(line, lines[1..], inside);
      HasDisabledCons(line, rest, inside);
      HasDisabledCons(line + DISABLED_LINE, rest, inside);
      assert [line] + lines[1..] == lines;
      if !disabled && IsInstalldService(line) {
        GrownLineSays(line);
        SameText(line, line + DISABLED_LINE, inside);
      }
    }
  }

  lemma SameText(a: string, b: string, inside: bool)
    requires CText(a) == CText(b)
    ensures Inside(inside, a) == Inside(inside, b) && SaysDisabled(a) == SaysDisabled(b)
    ensures IsInstalldService(a) == IsInstalldService(b)
  {
    hide CText, Contains;
  }

  lemma {:induction false} OutSaysDisabled(lines: seq<string>, imported: bool, inside: bool, k: nat)
    requires k < |lines| && IsInstalldService(lines[k]) && !Hidden(lines[k])
    ensures HasDisabled(OutAll(lines, imported, false), inside)
    decreases k
  {
    hide IsComment, StartsService, NamesInstalld, HasDisabled, SaysDisabled, IsBlank, IsFullLine;
    var line, imported' := lines[0], imported || !IsComment(lines[0]);
    var rest := OutAll(lines[1..], imported', false);
    HasDisabledOut(lines, imported, false, inside);
    DisabledLineSays();
    GrownLineSays(line);
    HasDisabledCons(line, rest, inside);
    HasDisabledCons(line, [DISABLED_LINE] + rest, inside);
    HasDisabledCons(DISABLED_LINE, rest, Inside(inside, line));
    HasDisabledCons(line + DISABLED_LINE, rest, inside);
    assert [line, DISABLED_LINE] + rest == [line] + ([DISABLED_LINE] + rest);
    if k > 0 {
      OutSaysDisabled(lines[1..], imported', Inside(inside, line), k - 1);
      OutSaysDisabled(lines[1..], imported', Inside(Inside(inside, line), DISABLED_LINE), k - 1);
      OutSaysDisabled(lines[1..], imported', Inside(inside, line + DISABLED_LINE), k - 1);
    }
  }

  lemma HasImportConcat(a: seq<string>, b: seq<string>)
    ensures HasImport(a + b) <==> HasImport(a) || HasImport(b)
  {
    hide IsImport;
    if HasImport(a) {
      var i :| 0 <= i < |a| && IsImport(a[i]);
      assert IsImport((a + b)[i]);
    }
    if HasImport(b) {
      var i :| 0 <= i < |b| && IsImport(b[i]);
      assert IsImport((a + b)[|a| + i]);
    }
  }

  lemma NoInstalldConcat(a: seq<string>, b: seq<string>)
    ensures NoInstalld(a + b) <==> NoInstalld(a) && NoInstalld(b)
  {
    hide IsInstalldService;
    assert forall i :: 0 <= i < |a| ==> (a + b)[i] == a[i];
    assert forall i :: 0 <= i < |b| ==> (a + b)[|a| + i] == b[i];
  }

  lemma OutLinesImport(line: string, imported: bool, disabled: bool)
    ensures IsImport(line) || (!imported && !IsComment(line)) ==> HasImport(OutLines(line, imported, disabled))
  {
    hide IsImport, IsComment, IsInstalldService, IsFullLine;
    ImportLineSays();
    GrownLineSays(line);
    var first := if !imported && !IsComment(line) then [IMPORT_LINE] else [];
    var last := if !disabled && IsInstalldService(line) then
        if IsFullLine(line) then [line, DISABLED_LINE] else [line + DISABLED_LINE]
      else [line];
    HasImportConcat(first, last);
    assert first != [] ==> IsImport(first[0]);
    assert IsImport(line) ==> IsImport(last[0]);
  }

  lemma {:induction false} OutHasImport(lines: seq<string>, imported: bool, disabled: bool)
    requires HasImport(lines) || (!imported && !AllComments(lines))
    ensures HasImport(OutAll(lines, imported, disabled))
  {
    hide IsImport, IsComment, OutLines;
    if lines != [] {
      var line, imported' := lines[0], imported || !IsComment(lines[0]);
      OutLinesImport(line, imported, disabled);
      HasImportStep(line, lines[1..]);
      assert lines == [line] + lines[1..];
      if HasImport(lines[1..]) || (!imported' && !AllComments(lines[1..])) {
        OutHasImport(lines[1..], imported', disabled);
      }
      HasImportConcat(OutLines(line, imported, disabled), OutAll(lines[1..], imported', disabled));
    }
  }

  lemma CommentIsNoService(line: string)
    requires IsComment(line)
    ensures !StartsService(line)
  {
  }

  lemma {:induction false} OutOfComments(lines: seq<string>, disabled: bool)
    requires AllComments(lines)
    ensures OutAll(lines, false, disabled) == lines
  {
    hide IsComment, StartsService, NamesInstalld, IsFullLine;
    if lines != [] {
      CommentIsNoService(lines[0]);
      OutOfComments(lines[1..], disabled);
    }
  }

  lemma OutLinesInstalld(line: string, imported: bool)
    ensures NoInstalld(OutLines(line, imported, false)) <==> !IsInstalldService(line)
  {
    hide IsComment, StartsService, NamesInstalld, IsFullLine;
    ImportLineSays();
    GrownLineSays(line);
    var first := if !imported && !IsComment(line) then [IMPORT_LINE] else [];
    var last := if IsInstalldService(line) then
        if IsFullLine(line) then [line, DISABLED_LINE] else [line + DISABLED_LINE]
      else [line];
    NoInstalldConcat(first, last);
    assert !IsInstalldService(line) <==> NoInstalld(last) by {
      if IsInstalldService(line) {
        assert IsInstalldService(last[0]);
      }
    }
  }

  lemma {:induction false} OutInstalld(lines: seq<string>, imported: bool)
    ensures NoInstalld(OutAll(lines, imported, false)) <==> NoInstalld(lines)
  {
    hide IsComment, IsInstalldService, OutLines;
    if lines != [] {
      var line, imported' := lines[0], imported || !IsComment(lines[0]);
      OutLinesInstalld(line, imported);
      OutInstalld(lines[1..], imported');
      NoInstalldConcat(OutLines(line, imported, false), OutAll(lines[1..], imported', false));
      NoInstalldConcat([line], lines[1..]);
      assert lines == [line] + lines[1..];
    }
  }

  /** The output has its import, and installd is disabled in it unless the insertion is hidden. */
  lemma OutputSettles(text: string)
    ensures Settled(Lines(Rewritten(text))) <==> !HiddenByNul(Lines(text))
  {
    hide Lines, Text, Chunks, HasImport, HasDisabled, AllComments, IsInstalldService, OutAll, Hidden, ProperLines;
    var lines := Lines(text);
    var imported, disabled := HasImport(lines), HasDisabled(lines, false);
    var out := OutAll(lines, imported, disabled);
    LinesAreProper(text);
    LinesOfOutput(lines, imported, disabled);
    if AllComments(lines) && !imported {
      OutOfComments(lines, disabled);
    } else {
      OutHasImport(lines, imported, disabled);
    }
    if !disabled {
      OutInstalld(lines, imported);
      if k :| 0 <= k < |lines| && IsInstalldService(lines[k]) && !Hidden(lines[k]) {
        OutSaysDisabled(lines, imported, false, k);
      } else {
        OutScansTheSame(lines, imported, disabled, false);
      }
    } else {
      OutScansTheSame(lines, imported, disabled, false);
    }
  }

  lemma {:induction false} InsertionsLengthen(lines: seq<string>, imported: bool, disabled: bool)
    ensures |Text(Chunks(lines, imported, disabled))| >= |Concat(lines)|
    ensures !disabled && !NoInstalld(lines) ==> |Text(Chunks(lines, imported, disabled))| > |Concat(lines)|
    ensures !imported && !AllComments(lines) ==> |Text(Chunks(lines, imported, disabled))| > |Concat(lines)|
  {
    hide IsComment, IsInstalldService, ChunksOfLine, Text;
    if lines == [] {
      TextCons(Kept(""), []);
    } else {
      var rest := Chunks(lines[1..], imported || !IsComment(lines[0]), disabled);
      InsertionsLengthen(lines[1..], imported || !IsComment(lines[0]), disabled);
      TextOfLine("", lines[0], imported, disabled, rest);
      NoInstalldConcat([lines[0]], lines[1..]);
      assert lines == [lines[0]] + lines[1..];
    }
  }

  /** A second run changes nothing, except where the first one hid what it inserted. */
  lemma RewritingTwice(text: string)
    ensures Rewritten(Rewritten(text)) == Rewritten(text) <==> !HiddenByNul(Lines(text))
  {
    hide Lines, HasImport, HasDisabled, AllComments, Chunks, Text, HiddenByNul, NoInstalld;
    var once := Rewritten(text);
    OutputSettles(text);
    if Settled(Lines(once)) {
      SettledStays(once);
    } else {
      InsertionsLengthen(Lines(once), HasImport(Lines(once)), HasDisabled(Lines(once), false));
      ConcatLines(once);
    }
  }

  const HIDING_TEXT := SERVICE + [NUL]

  const SERVICE := "service " + "installd"

  lemma HidingText()
    ensures CText(HIDING_TEXT) == SERVICE
    ensures '\n' !in HIDING_TEXT && NUL in HIDING_TEXT && HIDING_TEXT[|HIDING_TEXT| - 1] == NUL
  {
    ServiceLetters();
    UpToNul(SERVICE);
  }

  lemma ServiceLetters()
    ensures NUL !in SERVICE && '\n' !in SERVICE
  {
    assert NUL !in "service " && NUL !in "installd" && '\n' !in "service " && '\n' !in "installd";
  }

  lemma UpToNul(s: string)
    requires NUL !in s && '\n' !in s
    ensures var text := s + [NUL];
            CText(text) == s && '\n' !in text && NUL in text && text[|text| - 1] == NUL
  {
    BeforeConcat(NUL, s, "");
    assert s + [NUL] + "" == s + [NUL];
  }

  lemma SuffixIsContained(s: string, needle: string)
    ensures Contains(s + needle, needle)
  {
    assert OccursAt(s + needle, needle, |s|);
  }

  lemma HidingLineSays()
    ensures IsInstalldService(HIDING_TEXT) && !SaysDisabled(HIDING_TEXT)
    ensures '\n' !in HIDING_TEXT && NUL in HIDING_TEXT && HIDING_TEXT[|HIDING_TEXT| - 1] == NUL
  {
    hide Contains, CText;
    HidingText();
    SuffixIsContained("service ", "installd");
    if SaysDisabled(HIDING_TEXT) {
      ContainsLetter(SERVICE, "disabled", 4, 'b');
      assert false;
    }
  }

  /** An unterminated last line with a NUL: the second run inserts once more. */
  lemma SecondRunDiffers()
    ensures Rewritten(Rewritten(HIDING_TEXT)) != Rewritten(HIDING_TEXT)
  {
    hide Rewritten, IsInstalldService, SaysDisabled, StartsService, NamesInstalld, Lines;
    HidingLineSays();
    LinesOfLast(HIDING_TEXT);
    HasDisabledCons(HIDING_TEXT, [], false);
    assert [HIDING_TEXT] + [] == [HIDING_TEXT];
    assert IsInstalldService(Lines(HIDING_TEXT)[0]);
    RewritingTwice(HIDING_TEXT);
  }

  lemma ContainsLetter(s: string, needle: string, k: nat, c: char)
    requires k < |needle| && needle[k] == c && Contains(s, needle)
    ensures c in s
  {
    var i :| 0 <= i <= |s| && OccursAt(s, needle, i);
    assert s[i + k] == s[i..i + |needle|][k];
  }
}
