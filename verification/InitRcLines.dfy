/** The rewriting of init.rc line by line, in the words of the file. */
module InitRcLines {
  import opened Strings
  import opened PropertyFile
  import opened InitRc

  /** The line as far as a NUL lets it be seen. */
  predicate Says(line: string, words: string) {
    Contains(CText(line), words)
  }

  predicate OpensService(line: string) {
    "service" <= CText(line)
  }

  predicate OpensInstalld(line: string) {
    OpensService(line) && Says(line, "installd")
  }

  predicate OnlyWhitespace(line: string) {
    forall c :: c in CText(line) ==> c == ' ' || 9 <= c as int <= 13
  }

  /** The j-th line belongs to the installd service that the i-th line opens: no other service and no empty line comes between. */
  predicate BelongsTo(lines: seq<string>, i: nat, j: nat) {
    && i <= j < |lines| && OpensInstalld(lines[i])
    && forall k :: i < k <= j ==> !OpensService(lines[k]) && !OnlyWhitespace(lines[k])
  }

  /** Some line of an installd service says disabled. */
  ghost predicate IsDisabled(lines: seq<string>) {
    exists i: nat, j: nat :: BelongsTo(lines, i, j) && Says(lines[j], "disabled")
  }

  lemma BlankIsWhitespace(line: string)
    ensures IsBlank(line) <==> OnlyWhitespace(line)
  {
    if OnlyWhitespace(line) {
      assert forall i :: 0 <= i < |CText(line)| ==> CText(line)[i] in CText(line);
    }
  }

  /** A line says disabled in the service that was open before the first line. */
  predicate StillOpen(lines: seq<string>, j: nat) {
    j < |lines| && forall k :: 0 <= k <= j ==> !OpensService(lines[k]) && !OnlyWhitespace(lines[k])
  }

  lemma BelongsLater(lines: seq<string>, i: nat, j: nat)
    requires lines != []
    ensures BelongsTo(lines[1..], i, j) <==> BelongsTo(lines, i + 1, j + 1)
    ensures j + 1 < |lines| ==> lines[1..][j] == lines[j + 1]
  {
    hide OpensService, OpensInstalld, OnlyWhitespace;
    var rest := lines[1..];
    assert forall k :: 0 <= k < |rest| ==> rest[k] == lines[k + 1];
    if BelongsTo(rest, i, j) {
      forall k | i + 1 < k <= j + 1 ensures !OpensService(lines[k]) && !OnlyWhitespace(lines[k]) {
        assert lines[k] == rest[k - 1];
      }
    }
  }

  /** The scan of the first pass, started inside or outside of an installd service. */
  lemma {:induction false} ScanFinds(lines: seq<string>, inside: bool)
    ensures HasDisabled(lines, inside) <==>
              IsDisabled(lines) || (inside && exists j: nat :: StillOpen(lines, j) && Says(lines[j], "disabled"))
  {
    if lines != [] {
      hide OpensService, OnlyWhitespace, Says, CText, Contains, BelongsTo, StillOpen;
      var rest, inside' := lines[1..], Inside(inside, lines[0]);
      ScanFinds(rest, inside');
      BlankIsWhitespace(lines[0]);
      ServiceIs(lines[0]);
      FromRest(lines, inside);
      if IsDisabled(lines) || (inside && exists j: nat :: StillOpen(lines, j) && Says(lines[j], "disabled")) {
        ToRest(lines, inside);
      }
    }
  }

  lemma ServiceIs(line: string)
    ensures StartsService(line) <==> OpensService(line)
    ensures NamesInstalld(line) <==> Says(line, "installd")
    ensures SaysDisabled(line) <==> Says(line, "disabled")
  {
  }

  /** What a scan of the rest finds is there. */
  lemma FromRest(lines: seq<string>, inside: bool)
    requires lines != []
    ensures var rest := lines[1..];
            var inside' := if OpensService(lines[0]) then Says(lines[0], "installd") else inside && !OnlyWhitespace(lines[0]);
            (inside' && Says(lines[0], "disabled")) || IsDisabled(rest) || (inside' && exists j: nat :: StillOpen(rest, j) && Says(rest[j], "disabled"))
            ==> IsDisabled(lines) || (inside && exists j: nat :: StillOpen(lines, j) && Says(lines[j], "disabled"))
  {
    hide OpensService, OnlyWhitespace, Says;
    var rest := lines[1..];
    var inside' := if OpensService(lines[0]) then Says(lines[0], "installd") else inside && !OnlyWhitespace(lines[0]);
    if IsDisabled(rest) {
      var i: nat, j: nat :| BelongsTo(rest, i, j) && Says(rest[j], "disabled");
      BelongsLater(lines, i, j);
      assert BelongsTo(lines, i + 1, j + 1) && Says(lines[j + 1], "disabled");
    } else if inside' && Says(lines[0], "disabled") {
      if OpensService(lines[0]) {
        assert BelongsTo(lines, 0, 0);
      } else {
        assert StillOpen(lines, 0);
      }
    } else if inside' && exists j: nat :: StillOpen(rest, j) && Says(rest[j], "disabled") {
      var j: nat :| StillOpen(rest, j) && Says(rest[j], "disabled");
      assert forall k :: 1 <= k <= j + 1 ==> lines[k] == rest[k - 1];
      if OpensService(lines[0]) {
        assert BelongsTo(lines, 0, j + 1);
      } else {
        assert StillOpen(lines, j + 1);
      }
    }
  }

  /** What is there is found at the first line or by the scan of the rest. */
  lemma ToRest(lines: seq<string>, inside: bool)
    requires lines != []
    requires IsDisabled(lines) || (inside && exists j: nat :: StillOpen(lines, j) && Says(lines[j], "disabled"))
    ensures var rest := lines[1..];
            var inside' := if OpensService(lines[0]) then Says(lines[0], "installd") else inside && !OnlyWhitespace(lines[0]);
            (inside' && Says(lines[0], "disabled")) || IsDisabled(rest) || (inside' && exists j: nat :: StillOpen(rest, j) && Says(rest[j], "disabled"))
  {
    hide OpensService, OnlyWhitespace, Says;
    var rest := lines[1..];
    assert forall k :: 0 <= k < |rest| ==> rest[k] == lines[k + 1];
    if IsDisabled(lines) {
      var i: nat, j: nat :| BelongsTo(lines, i, j) && Says(lines[j], "disabled");
      if i > 0 {
        BelongsLater(lines, i - 1, j - 1);
        assert BelongsTo(rest, i - 1, j - 1);
      } else if j > 0 {
        assert StillOpen(rest, j - 1) && rest[j - 1] == lines[j];
      }
    } else {
      var j: nat :| StillOpen(lines, j) && Says(lines[j], "disabled");
      if j > 0 {
        assert StillOpen(rest, j - 1) && rest[j - 1] == lines[j];
      }
    }
  }

  // ---------------------------------------------------------------------------
  // The output
  // ---------------------------------------------------------------------------

  /** The import goes in front of the first line that is no comment, if no line has it. */
  predicate ImportGoesBefore(lines: seq<string>, i: nat)
    requires i < |lines|
  {
    && !("#" <= lines[i]) && (forall j :: 0 <= j < i ==> "#" <= lines[j])
    && forall j :: 0 <= j < |lines| ==> !Says(lines[j], "import /init.multiboot.rc")
  }

  /** One line of the output. */
  ghost function LineOut(lines: seq<string>, i: nat): string
    requires i < |lines|
  {
    (if ImportGoesBefore(lines, i) then "import /init.multiboot.rc\n" else "")
    + lines[i]
    + (if OpensInstalld(lines[i]) && !IsDisabled(lines) then "    disabled\n" else "")
  }

  ghost function OutputFrom(lines: seq<string>, i: nat): string
    requires i <= |lines|
    decreases |lines| - i
  {
    if i == |lines| then "" else LineOut(lines, i) + OutputFrom(lines, i + 1)
  }

  lemma ImportIs(lines: seq<string>)
    ensures HasImport(lines) <==> exists j :: 0 <= j < |lines| && Says(lines[j], "import /init.multiboot.rc")
  {
    forall j | 0 <= j < |lines| ensures IsImport(lines[j]) <==> Says(lines[j], "import /init.multiboot.rc") {
    }
  }

  lemma CommentIs(line: string)
    ensures IsComment(line) <==> "#" <= line
  {
  }

  lemma LineTextIs(lines: seq<string>, i: nat, imported: bool)
    requires i < |lines|
    requires imported <==> HasImport(lines) || exists j :: 0 <= j < i && !("#" <= lines[j])
    ensures LineText(lines[i], imported, IsDisabled(lines)) == LineOut(lines, i)
  {
    hide Says, IsDisabled, IsImport, OpensInstalld;
    ImportIs(lines);
    CommentIs(lines[i]);
    InstalldIs(lines[i]);
    if ImportGoesBefore(lines, i) {
      assert forall j :: 0 <= j < i ==> "#" <= lines[j];
    } else if "#" <= lines[i] {
    } else if j :| 0 <= j < i && !("#" <= lines[j]) {
    } else {
      assert HasImport(lines);
    }
  }

  lemma InstalldIs(line: string)
    ensures IsInstalldService(line) <==> OpensInstalld(line)
  {
    ServiceIs(line);
  }

  lemma {:induction false} OutputIs(lines: seq<string>, i: nat, imported: bool)
    requires i <= |lines|
    requires imported <==> HasImport(lines) || exists j :: 0 <= j < i && !("#" <= lines[j])
    ensures Text(Chunks(lines[i..], imported, IsDisabled(lines))) == OutputFrom(lines, i)
    decreases |lines| - i
  {
    hide LineOut, LineText, ChunksOfLine, Text, IsDisabled, HasImport;
    if i < |lines| {
      var line, rest := lines[i], lines[i + 1..];
      var imported' := imported || !IsComment(line);
      CommentIs(line);
      LineTextIs(lines, i, imported);
      assert lines[i..][0] == line && lines[i..][1..] == rest;
      TextOfChunks(line, imported, IsDisabled(lines), Chunks(rest, imported', IsDisabled(lines)));
      OutputIs(lines, i + 1, imported');
    } else {
      TextCons(Kept(""), []);
    }
  }

  /** What a run makes of a text, line by line. */
  lemma RewrittenIs(text: string)
    ensures Rewritten(text) == OutputFrom(Lines(text), 0)
  {
    hide LineOut, Text, Chunks, IsDisabled, HasImport, HasDisabled, OutputFrom;
    var lines := Lines(text);
    ScanFinds(lines, false);
    assert lines[0..] == lines;
    OutputIs(lines, 0, HasImport(lines));
  }
}
