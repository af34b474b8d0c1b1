/** What the calls of an updater script become, in the words of the script. */
module StandardPatcherCalls {
  import opened Bytes
  import opened Strings
  import opened EdifyTokenizer
  import opened StandardPatcher

  // ---------------------------------------------------------------------------
  // Partitions
  // ---------------------------------------------------------------------------

  predicate NamesDevice(str: string, devices: seq<string>) {
    exists k :: 0 <= k < |devices| && Contains(str, devices[k])
  }

  predicate NamesSystem(str: string, devs: Devices) {
    Contains(str, "/system") || NamesDevice(str, devs.system)
  }

  predicate NamesCache(str: string, devs: Devices) {
    Contains(str, "/cache") || NamesDevice(str, devs.cache)
  }

  predicate NamesData(str: string, devs: Devices) {
    Contains(str, "/data") || Contains(str, "/userdata") || NamesDevice(str, devs.data)
  }

  predicate NamesPartition(str: string, devs: Devices) {
    NamesSystem(str, devs) || NamesCache(str, devs) || NamesData(str, devs)
  }

  /** The mount point a string stands for: the system if it is named at all, else the cache, else the data partition. */
  predicate StandsFor(str: string, devs: Devices, mount: string) {
    || (NamesSystem(str, devs) && mount == "/system")
    || (!NamesSystem(str, devs) && NamesCache(str, devs) && mount == "/cache")
    || (!NamesSystem(str, devs) && !NamesCache(str, devs) && NamesData(str, devs) && mount == "/data")
  }

  // ---------------------------------------------------------------------------
  // Which argument decides
  // ---------------------------------------------------------------------------

  /** The k-th argument is the first string that names a partition. */
  predicate FirstNaming(args: seq<Token>, devs: Devices, k: nat) {
    && k < |args| && args[k].Str? && NamesPartition(args[k].str, devs)
    && forall j :: 0 <= j < k && args[j].Str? ==> !NamesPartition(args[j].str, devs)
  }

  /** The k-th argument is the last string. */
  predicate LastStringAt(args: seq<Token>, k: nat) {
    k < |args| && args[k].Str? && forall j :: k < j < |args| ==> !args[j].Str?
  }

  const WHOLE_PARTITIONS: set<string> := {"/system", "/system/", "/cache", "/cache/"}

  /** The k-th argument is the first string that denotes a whole partition. */
  predicate FirstWhole(args: seq<Token>, k: nat) {
    && k < |args| && args[k].Str? && UnescapedString(args[k]) in WHOLE_PARTITIONS
    && forall j :: 0 <= j < k && args[j].Str? ==> UnescapedString(args[j]) !in WHOLE_PARTITIONS
  }

  /** The command and mount point with which a run_program call is replaced, by the ending of its last string. */
  predicate ProgramBecomes(t: Token, devs: Devices, command: string, mount: string)
    requires t.Str?
  {
    var program := UnescapedString(t);
    if EndsWith(program, "umount") then command == "unmount" && StandsFor(t.str, devs, mount)
    else if EndsWith(program, "mount") then command == "mount" && StandsFor(t.str, devs, mount)
    else if EndsWith(program, "/format.sh") then command == "format" && mount == "/system"
    else EndsWith(program, "/mke2fs") && command == "format" && StandsFor(t.str, devs, mount)
  }

  /** The command and mount point with which a call is replaced. */
  ghost predicate Becomes(name: string, args: seq<Token>, devs: Devices, command: string, mount: string) {
    if name in {"mount", "unmount", "format"} then
      command == name && exists k: nat :: FirstNaming(args, devs, k) && StandsFor(args[k].str, devs, mount)
    else if name == "run_program" then
      exists k: nat :: LastStringAt(args, k) && ProgramBecomes(args[k], devs, command, mount)
    else
      && name == "delete_recursive" && command == "format"
      && exists k: nat :: FirstWhole(args, k) && UnescapedString(args[k]) in {mount, mount + "/"} && mount in {"/system", "/cache"}
  }

  /** The tokens of (run_program("/update-binary-tool", "command", "mount point") == 0). */
  function Expression(command: string, mount: string): seq<Token> {
    [Key(LeftParen), Str("run_program", false), Key(LeftParen), Str("\"/update-binary-tool\"", true), Key(Comma), Whitespace(" "),
     Str("\"" + command + "\"", true), Key(Comma), Whitespace(" "), Str("\"" + mount + "\"", true), Key(RightParen),
     Whitespace(" "), Key(Equals), Whitespace(" "), Str("0", false), Key(RightParen)]
  }

  function Word(c: Command): string {
    match c
    case Mount => "mount"
    case Unmount => "unmount"
    case Format => "format"
  }

  function Point(p: Partition): string {
    match p
    case System => "/system"
    case Cache => "/cache"
    case Data => "/data"
  }

  lemma GeneratedIs(c: Command, p: Partition)
    ensures Generated(c, p) == Expression(Word(c), Point(p))
  {
    hide CommandText, MountPoint, Word, Point;
    QuotedWords(c, p);
  }

  lemma QuotedWords(c: Command, p: Partition)
    ensures CommandText(c) == "\"" + Word(c) + "\"" && MountPoint(p) == "\"" + Point(p) + "\""
  {
  }

  // ---------------------------------------------------------------------------
  // The decision
  // ---------------------------------------------------------------------------

  lemma PartitionIs(str: string, devs: Devices)
    ensures PartitionOf(str, devs).Some? <==> NamesPartition(str, devs)
    ensures forall mount :: StandsFor(str, devs, mount) <==> PartitionOf(str, devs).Some? && mount == Point(PartitionOf(str, devs).value)
  {
    hide Contains;
  }

  lemma {:induction false} FirstNamingIs(args: seq<Token>, devs: Devices)
    ensures FirstPartition(args, devs).None? ==> forall k: nat :: !FirstNaming(args, devs, k)
    ensures FirstPartition(args, devs).Some? ==>
              exists k: nat :: FirstNaming(args, devs, k) && StandsFor(args[k].str, devs, Point(FirstPartition(args, devs).value))
  {
    hide NamesPartition, StandsFor, PartitionOf;
    if args != [] {
      if args[0].Str? {
        PartitionIs(args[0].str, devs);
      }
      if args[0].Str? && PartitionOf(args[0].str, devs).Some? {
        assert FirstNaming(args, devs, 0);
      } else {
        FirstNamingIs(args[1..], devs);
        forall k: nat ensures k > 0 && FirstNaming(args, devs, k) <==> k > 0 && FirstNaming(args[1..], devs, k - 1) {
          NamingLater(args, devs, k);
        }
        assert !FirstNaming(args, devs, 0);
        if FirstPartition(args, devs).Some? {
          var k: nat :| FirstNaming(args[1..], devs, k) && StandsFor(args[1..][k].str, devs, Point(FirstPartition(args, devs).value));
          assert FirstNaming(args, devs, k + 1) && args[k + 1] == args[1..][k];
        }
      }
    }
  }

  lemma NamingLater(args: seq<Token>, devs: Devices, k: nat)
    requires args != [] && !(args[0].Str? && NamesPartition(args[0].str, devs))
    ensures k > 0 && FirstNaming(args, devs, k) <==> k > 0 && FirstNaming(args[1..], devs, k - 1)
  {
    hide NamesPartition;
    var rest := args[1..];
    assert forall j :: 0 <= j < |rest| ==> rest[j] == args[j + 1];
    if k > 0 && FirstNaming(rest, devs, k - 1) {
      forall j | 0 <= j < k && j < |args| && args[j].Str? ensures !NamesPartition(args[j].str, devs) {
        if j > 0 {
          assert args[j] == rest[j - 1];
        }
      }
    }
  }

  lemma NamingIsUnique(args: seq<Token>, devs: Devices, i: nat, k: nat)
    requires FirstNaming(args, devs, i) && FirstNaming(args, devs, k)
    ensures i == k
  {
    hide NamesPartition;
    assert !(i < k) && !(k < i);
  }

  lemma {:induction false} LastStringIs(args: seq<Token>)
    ensures LastString(args).None? ==> forall k: nat :: !LastStringAt(args, k)
    ensures LastString(args).Some? ==> exists k: nat :: LastStringAt(args, k) && args[k] == LastString(args).value
  {
    if args != [] {
      var n := |args| - 1;
      if args[n].Str? {
        assert LastStringAt(args, n);
      } else {
        LastStringIs(args[..n]);
        forall k: nat ensures LastStringAt(args, k) <==> LastStringAt(args[..n], k) {
        }
        if LastString(args).Some? {
          var k: nat :| LastStringAt(args[..n], k) && args[..n][k] == LastString(args).value;
          assert LastStringAt(args, k);
        }
      }
    }
  }

  lemma {:induction false} FirstWholeIs(args: seq<Token>)
    ensures DeleteAction(args).Leave? ==> forall k: nat :: !FirstWhole(args, k)
    ensures DeleteAction(args).Replace? ==>
              DeleteAction(args).command == Format
              && exists k: nat :: FirstWhole(args, k) && UnescapedString(args[k]) in {Point(DeleteAction(args).partition), Point(DeleteAction(args).partition) + "/"}
                             && Point(DeleteAction(args).partition) in {"/system", "/cache"}
  {
    hide UnescapedString;
    assert "/system" + "/" == "/system/" && "/cache" + "/" == "/cache/";
    if args != [] {
      if args[0].Str? && UnescapedString(args[0]) in WHOLE_PARTITIONS {
        assert FirstWhole(args, 0);
      } else {
        FirstWholeIs(args[1..]);
        forall k: nat ensures k > 0 && FirstWhole(args, k) <==> k > 0 && FirstWhole(args[1..], k - 1) {
          WholeLater(args, k);
        }
        assert !FirstWhole(args, 0);
        if DeleteAction(args).Replace? {
          var point := Point(DeleteAction(args).partition);
          var k: nat :| FirstWhole(args[1..], k) && UnescapedString(args[1..][k]) in {point, point + "/"};
          assert FirstWhole(args, k + 1) && args[k + 1] == args[1..][k];
        }
      }
    }
  }

  lemma WholeLater(args: seq<Token>, k: nat)
    requires args != [] && !(args[0].Str? && UnescapedString(args[0]) in WHOLE_PARTITIONS)
    ensures k > 0 && FirstWhole(args, k) <==> k > 0 && FirstWhole(args[1..], k - 1)
  {
    hide UnescapedString;
    var rest := args[1..];
    assert forall j :: 0 <= j < |rest| ==> rest[j] == args[j + 1];
    if k > 0 && FirstWhole(rest, k - 1) {
      forall j | 0 <= j < k && j < |args| && args[j].Str? ensures UnescapedString(args[j]) !in WHOLE_PARTITIONS {
        if j > 0 {
          assert args[j] == rest[j - 1];
        }
      }
    }
  }

  lemma ProgramIs(args: seq<Token>, devs: Devices, command: string, mount: string)
    ensures (exists k: nat :: LastStringAt(args, k) && ProgramBecomes(args[k], devs, command, mount))
       <==> ProgramAction(args, devs).Replace? && command == Word(ProgramAction(args, devs).command)
            && mount == Point(ProgramAction(args, devs).partition)
  {
    hide UnescapedString, PartitionOf, NamesPartition, StandsFor, LastString, EndsWith;
    LastStringIs(args);
    if LastString(args).Some? {
      var k: nat :| LastStringAt(args, k) && args[k] == LastString(args).value;
      PartitionIs(args[k].str, devs);
      assert forall j: nat :: LastStringAt(args, j) ==> j == k;
    }
  }

  lemma FinderIs(name: string, c: Command, args: seq<Token>, devs: Devices, command: string, mount: string)
    requires name == Word(c)
    ensures command == name && (exists k: nat :: FirstNaming(args, devs, k) && StandsFor(args[k].str, devs, mount))
       <==> ReplaceIn(c, FirstPartition(args, devs)).Replace? && command == Word(c)
            && FirstPartition(args, devs).Some? && mount == Point(FirstPartition(args, devs).value)
  {
    hide NamesPartition, StandsFor, FirstPartition;
    FirstNamingIs(args, devs);
    if FirstPartition(args, devs).Some? {
      var k: nat :| FirstNaming(args, devs, k) && StandsFor(args[k].str, devs, Point(FirstPartition(args, devs).value));
      forall j: nat | FirstNaming(args, devs, j) ensures j == k {
        NamingIsUnique(args, devs, j, k);
      }
      OneMount(args[k].str, devs, mount, Point(FirstPartition(args, devs).value));
    }
  }

  lemma OneMount(str: string, devs: Devices, mount: string, mount': string)
    requires StandsFor(str, devs, mount')
    ensures StandsFor(str, devs, mount) <==> mount == mount'
  {
    hide NamesSystem, NamesCache, NamesData;
  }

  lemma DeleteIs(args: seq<Token>, mount: string)
    ensures (exists k: nat :: FirstWhole(args, k) && UnescapedString(args[k]) in {mount, mount + "/"} && mount in {"/system", "/cache"})
       <==> DeleteAction(args).Replace? && mount == Point(DeleteAction(args).partition)
  {
    hide UnescapedString, DeleteAction;
    FirstWholeIs(args);
    if DeleteAction(args).Replace? {
      var point := Point(DeleteAction(args).partition);
      var k: nat :| FirstWhole(args, k) && UnescapedString(args[k]) in {point, point + "/"};
      forall j: nat | FirstWhole(args, j) ensures j == k {
        WholeIsUnique(args, j, k);
      }
      assert "/system" + "/" == "/system/" && "/cache" + "/" == "/cache/";
    }
  }

  lemma WholeIsUnique(args: seq<Token>, i: nat, k: nat)
    requires FirstWhole(args, i) && FirstWhole(args, k)
    ensures i == k
  {
    hide UnescapedString;
    assert !(i < k) && !(k < i);
  }

  /** The decision of the rewriter, for each call: replaced with this command and mount point, or not at all. */
  lemma DecisionIs(name: string, args: seq<Token>, devs: Devices, command: string, mount: string)
    ensures var a := ActionFor(name, args, devs);
            Becomes(name, args, devs, command, mount) <==>
              a.Replace? && command == Word(a.command) && mount == Point(a.partition)
  {
    hide FirstPartition, ProgramAction, DeleteAction, FirstNaming, LastStringAt, FirstWhole, StandsFor, ProgramBecomes, UnescapedString;
    if name == "mount" {
      FinderIs(name, Mount, args, devs, command, mount);
    } else if name == "unmount" {
      FinderIs(name, Unmount, args, devs, command, mount);
    } else if name == "format" {
      FinderIs(name, Format, args, devs, command, mount);
    } else if name == "run_program" {
      ProgramIs(args, devs, command, mount);
    } else if name == "delete_recursive" {
      DeleteIs(args, mount);
      DeletesAreFormats(args);
    }
  }

  lemma {:induction false} DeletesAreFormats(args: seq<Token>)
    ensures DeleteAction(args).Replace? ==> DeleteAction(args).command == Format
  {
    hide UnescapedString;
    if args != [] {
      DeletesAreFormats(args[1..]);
    }
  }

  // ---------------------------------------------------------------------------
  // Edited arguments
  // ---------------------------------------------------------------------------

  /** The k-th device is the first one that occurs in the text. */
  predicate FirstDevice(u: string, devices: seq<string>, k: nat) {
    k < |devices| && Contains(u, devices[k]) && forall j :: 0 <= j < k ==> !Contains(u, devices[j])
  }

  /** What becomes of an argument of an editing call. */
  ghost predicate ArgBecomes(t: Token, bareSystem: bool, devs: Devices, after: Token) {
    if !t.Str? then after == t
    else
      var u := UnescapedString(t);
      if bareSystem && u == "system" then after == Str("\"/mb/system.img\"", true)
      else if exists k: nat :: FirstDevice(u, devs.system, k)
      then exists k: nat :: FirstDevice(u, devs.system, k)
                            && after == Str("\"" + Escape(ReplaceAll(u, devs.system[k], "/mb/system.img")) + "\"", true)
      else after == t
  }

  lemma {:induction false} FirstDeviceIs(u: string, devices: seq<string>)
    ensures DevicesReplaced(u, devices).None? ==> forall k: nat :: !FirstDevice(u, devices, k)
    ensures DevicesReplaced(u, devices).Some? ==>
              exists k: nat :: FirstDevice(u, devices, k) && DevicesReplaced(u, devices).value == ReplaceAll(u, devices[k], "/mb/system.img")
  {
    hide Contains, ReplaceAll;
    if devices != [] {
      if Contains(u, devices[0]) {
        assert FirstDevice(u, devices, 0);
      } else {
        var rest := devices[1..];
        FirstDeviceIs(u, rest);
        assert forall j :: 0 <= j < |rest| ==> rest[j] == devices[j + 1];
        forall k: nat ensures FirstDevice(u, devices, k) <==> k > 0 && FirstDevice(u, rest, k - 1) {
          DeviceLater(u, devices, k);
        }
        if DevicesReplaced(u, devices).Some? {
          var k: nat :| FirstDevice(u, rest, k) && DevicesReplaced(u, rest).value == ReplaceAll(u, rest[k], "/mb/system.img");
          assert FirstDevice(u, devices, k + 1) && devices[k + 1] == rest[k];
        }
      }
    }
  }

  lemma DeviceLater(u: string, devices: seq<string>, k: nat)
    requires devices != [] && !Contains(u, devices[0])
    ensures FirstDevice(u, devices, k) <==> k > 0 && FirstDevice(u, devices[1..], k - 1)
  {
    hide Contains;
    var rest := devices[1..];
    assert forall j :: 0 <= j < |rest| ==> rest[j] == devices[j + 1];
    if k > 0 && FirstDevice(u, rest, k - 1) {
      forall j | 0 <= j < k ensures !Contains(u, devices[j]) {
        if j > 0 {
          assert devices[j] == rest[j - 1];
        }
      }
    }
  }

  lemma BareSystem()
    ensures ReplaceAll("system", "system", "/mb/system.img") == "/mb/system.img"
    ensures Quoted("/mb/system.img") == Str("\"/mb/system.img\"", true)
  {
    hide ReplaceAll, Escape, Quoted;
    WholeReplaced("system", "/mb/system.img");
    PathIsPrintable();
    PrintableQuoted("/mb/system.img");
    assert "\"" + "/mb/system.img" + "\"" == "\"/mb/system.img\"";
  }

  lemma WholeReplaced(s: string, with: string)
    requires s != ""
    ensures ReplaceAll(s, s, with) == with
  {
    assert s[0..|s|] == s && s[|s|..] == "";
    assert ReplaceAll("", s, with) == "";
    assert with + "" == with;
  }

  lemma PathIsPrintable()
    ensures forall i :: 0 <= i < |"/mb/system.img"| ==> ' ' <= "/mb/system.img"[i] <= '~' && "/mb/system.img"[i] != '\\'
  {
  }

  lemma PrintableQuoted(s: string)
    requires forall i :: 0 <= i < |s| ==> ' ' <= s[i] <= '~' && s[i] != '\\'
    ensures Quoted(s) == Str("\"" + s + "\"", true)
  {
    hide Escape;
    PathIsEscaped(s);
  }

  lemma PrintableStays(c: char)
    requires ' ' <= c <= '~' && c != '\\'
    ensures EscapedChar(c) == [c]
  {
  }

  lemma {:induction false} PathIsEscaped(s: string)
    requires forall i :: 0 <= i < |s| ==> ' ' <= s[i] <= '~' && s[i] != '\\'
    ensures Escape(s) == s
  {
    hide EscapedChar;
    if s != "" {
      PrintableStays(s[0]);
      PathIsEscaped(s[1..]);
      assert s == [s[0]] + s[1..];
    }
  }

  lemma EditIs(t: Token, bareSystem: bool, devs: Devices, after: Token)
    ensures ArgBecomes(t, bareSystem, devs, after) <==> after == EditToken(t, bareSystem, devs)
  {
    hide UnescapedString, ReplaceAll, Escape, Contains;
    if t.Str? {
      BareSystem();
      var u := UnescapedString(t);
      FirstDeviceIs(u, devs.system);
      if DevicesReplaced(u, devs.system).Some? {
        var k: nat :| FirstDevice(u, devs.system, k) && DevicesReplaced(u, devs.system).value == ReplaceAll(u, devs.system[k], "/mb/system.img");
        assert forall j: nat :: FirstDevice(u, devs.system, j) ==> j == k;
      }
    }
  }

  // ---------------------------------------------------------------------------
  // Replacing throughout
  // ---------------------------------------------------------------------------

  /** The parts of a text with something between them. */
  function JoinedBy(parts: seq<string>, between: string): string {
    if parts == [] then "" else if |parts| == 1 then parts[0] else parts[0] + between + JoinedBy(parts[1..], between)
  }

  /** No earlier occurrence than the one that ends each part. */
  predicate SplitAtFirst(parts: seq<string>, from: string) {
    && parts != []
    && (forall i :: 0 <= i < |parts| - 1 ==> forall k :: 0 <= k < |parts[i]| ==> !OccursAt(JoinedBy(parts[i..], from), from, k))
    && !Contains(parts[|parts| - 1], from)
  }

  /** Each occurrence, taken from the left and without overlaps, is replaced, and nothing else. */
  lemma {:induction false} ReplacedThroughout(s: string, from: string, with: string) returns (parts: seq<string>)
    requires from != ""
    ensures SplitAtFirst(parts, from) && JoinedBy(parts, from) == s && JoinedBy(parts, with) == ReplaceAll(s, from, with)
    decreases |s|
  {
    hide OccursAt, ReplaceAll, JoinedBy, SplitAtFirst;
    ReplaceStep(s, from, with);
    if s == "" {
      parts := [""];
      EmptySplits(from, with);
    } else if OccursAt(s, from, 0) {
      OccursWhole(s, from);
      var later := ReplacedThroughout(s[|from|..], from, with);
      parts := [""] + later;
      SplitIsNotEmpty(later, from);
      JoinedCons(later, from);
      JoinedCons(later, with);
      LaterSplits("", later, from);
    } else {
      var later := ReplacedThroughout(s[1..], from, with);
      SplitIsNotEmpty(later, from);
      parts := [[s[0]] + later[0]] + later[1..];
      LongerFirst(s[0], later, from);
      LongerFirst(s[0], later, with);
      assert s == [s[0]] + s[1..];
      FirstGrows(s, later, parts, from);
    }
  }

  lemma ReplaceStep(s: string, from: string, with: string)
    requires from != ""
    ensures ReplaceAll(s, from, with)
         == if s == "" then ""
            else if OccursAt(s, from, 0) then with + ReplaceAll(s[|from|..], from, with)
            else [s[0]] + ReplaceAll(s[1..], from, with)
  {
    hide OccursAt;
  }

  lemma EmptySplits(from: string, with: string)
    requires from != ""
    ensures SplitAtFirst([""], from) && JoinedBy([""], from) == "" && JoinedBy([""], with) == ""
  {
    NothingContains(from);
  }

  lemma SplitIsNotEmpty(parts: seq<string>, from: string)
    requires SplitAtFirst(parts, from)
    ensures parts != []
  {
  }

  lemma JoinedCons(later: seq<string>, between: string)
    requires later != []
    ensures JoinedBy([""] + later, between) == between + JoinedBy(later, between)
  {
    var parts := [""] + later;
    assert parts[1..] == later;
    assert "" + between + JoinedBy(later, between) == between + JoinedBy(later, between);
  }

  lemma NothingContains(from: string)
    requires from != ""
    ensures !Contains("", from)
  {
  }

  lemma OccursWhole(s: string, from: string)
    requires OccursAt(s, from, 0)
    ensures |from| <= |s| && s == from + s[|from|..]
  {
  }

  lemma LongerFirst(c: char, parts: seq<string>, between: string)
    requires parts != []
    ensures JoinedBy([[c] + parts[0]] + parts[1..], between) == [c] + JoinedBy(parts, between)
  {
    var longer := [[c] + parts[0]] + parts[1..];
    assert longer[1..] == parts[1..];
    if |parts| > 1 {
      assert [c] + parts[0] + between + JoinedBy(parts[1..], between) == [c] + (parts[0] + between + JoinedBy(parts[1..], between));
    } else {
      assert longer == [[c] + parts[0]];
    }
  }

  lemma LaterSplits(first: string, later: seq<string>, from: string)
    requires first == "" && SplitAtFirst(later, from)
    ensures SplitAtFirst([first] + later, from)
  {
    hide OccursAt, JoinedBy, Contains;
    var parts := [first] + later;
    forall i, k | 0 <= i < |parts| - 1 && 0 <= k < |parts[i]| ensures !OccursAt(JoinedBy(parts[i..], from), from, k) {
      assert i > 0 && parts[i..] == later[i - 1..] && parts[i] == later[i - 1];
    }
  }

  lemma FirstGrows(s: string, later: seq<string>, parts: seq<string>, from: string)
    requires s != "" && from != "" && SplitAtFirst(later, from) && JoinedBy(later, from) == s[1..] && !OccursAt(s, from, 0)
    requires parts == [[s[0]] + later[0]] + later[1..] && JoinedBy(parts, from) == s
    ensures SplitAtFirst(parts, from)
  {
    hide JoinedBy, Contains;
    forall i, k | 0 <= i < |parts| - 1 && 0 <= k < |parts[i]| ensures !OccursAt(JoinedBy(parts[i..], from), from, k) {
      if i > 0 {
        assert parts[i..] == later[i..] && parts[i] == later[i];
      } else {
        assert parts[0..] == parts && later[0..] == later;
        if k > 0 {
          assert !OccursAt(s[1..], from, k - 1);
          OccursLater(s, from, k);
        }
      }
    }
    if |parts| == 1 {
      assert JoinedBy(parts, from) == parts[0] && JoinedBy(later, from) == later[0] by { SinglePart(parts, from); SinglePart(later, from); }
      NotInLonger(s, from);
    } else {
      assert parts[|parts| - 1] == later[|later| - 1];
    }
  }

  lemma SinglePart(parts: seq<string>, between: string)
    requires |parts| == 1
    ensures JoinedBy(parts, between) == parts[0]
  {
  }

  lemma OccursLater(s: string, from: string, k: nat)
    requires k > 0 && s != ""
    ensures OccursAt(s, from, k) <==> OccursAt(s[1..], from, k - 1)
  {
    if k + |from| <= |s| {
      assert s[k..k + |from|] == s[1..][k - 1..k - 1 + |from|];
    }
  }

  lemma NotInLonger(s: string, from: string)
    requires s != "" && from != "" && !OccursAt(s, from, 0) && !Contains(s[1..], from)
    ensures !Contains(s, from)
  {
    hide OccursAt;
    forall k: nat | k <= |s| ensures !OccursAt(s, from, k) {
      if k > 0 {
        OccursLater(s, from, k);
      }
    }
  }
}
