/** The rewriter of updater scripts: mount, unmount and format calls are redirected to the multiboot tool. */
module StandardPatcher {
  import opened Bytes
  import opened Strings
  import opened EdifyTokenizer

  // ---------------------------------------------------------------------------
  // Text tests
  // ---------------------------------------------------------------------------

  predicate ContainsAny(haystack: string, needles: seq<string>) {
    exists k :: 0 <= k < |needles| && Contains(haystack, needles[k])
  }

  function ReplaceAll(s: string, from: string, with: string): string
    decreases |s|
  {
    if from == "" || s == "" then s
    else if OccursAt(s, from, 0) then with + ReplaceAll(s[|from|..], from, with)
    else [s[0]] + ReplaceAll(s[1..], from, with)
  }

  /** Block devices of the partitions of a device. */
  datatype Devices = Devices(system: seq<string>, cache: seq<string>, data: seq<string>)

  datatype Partition = System | Cache | Data

  /** The partition a string refers to; the system partition is preferred, then the cache. */
  function PartitionOf(str: string, devs: Devices): Option<Partition> {
    if Contains(str, "/system") || ContainsAny(str, devs.system) then Some(System)
    else if Contains(str, "/cache") || ContainsAny(str, devs.cache) then Some(Cache)
    else if Contains(str, "/data") || Contains(str, "/userdata") || ContainsAny(str, devs.data) then Some(Data)
    else None
  }

  // ---------------------------------------------------------------------------
  // Calls
  // ---------------------------------------------------------------------------

  predicate IsTrivia(t: Token) {
    t.Whitespace? || t == Key(Newline) || t.Comment?
  }

  /** The first token from i on that is not whitespace, a newline or a comment. */
  function NextSignificant(s: seq<Token>, i: nat): (r: nat)
    requires i <= |s|
    ensures i <= r <= |s|
    ensures forall k :: i <= k < r ==> IsTrivia(s[k])
    ensures r < |s| ==> !IsTrivia(s[r])
    decreases |s| - i
  {
    if i < |s| && IsTrivia(s[i]) then NextSignificant(s, i + 1) else i
  }

  /** The parenthesis that closes `depth` open ones, scanning from i. */
  function Closing(s: seq<Token>, i: nat, depth: nat): (r: Option<nat>)
    requires i <= |s| && depth >= 1
    ensures r.Some? ==> i <= r.value < |s| && s[r.value] == Key(RightParen)
    decreases |s| - i
  {
    if i == |s| then None
    else if s[i] == Key(LeftParen) then Closing(s, i + 1, depth + 1)
    else if s[i] == Key(RightParen) then if depth == 1 then Some(i) else Closing(s, i + 1, depth - 1)
    else Closing(s, i + 1, depth)
  }

  /** A string token that is followed, trivia aside, by a left parenthesis. */
  predicate CallAt(s: seq<Token>, i: nat)
    requires i < |s|
  {
    s[i].Str? &&
    var lp := NextSignificant(s, i + 1);
    lp < |s| && s[lp] == Key(LeftParen)
  }

  datatype Found = Call(funcName: nat, leftParen: nat, rightParen: nat) | NoCall

  /** The first call from i on; a first call without a closing parenthesis counts as none. */
  function FirstCall(s: seq<Token>, i: nat): (r: Found)
    requires i <= |s|
    ensures r.Call? ==> i <= r.funcName < r.leftParen < r.rightParen < |s| && s[r.funcName].Str?
    decreases |s| - i
  {
    if i == |s| then NoCall
    else if !CallAt(s, i) then FirstCall(s, i + 1)
    else
      var lp := NextSignificant(s, i + 1);
      match Closing(s, lp + 1, 1)
      case None => NoCall
      case Some(rp) => Call(i, lp, rp)
  }

  // ---------------------------------------------------------------------------
  // Replacements
  // ---------------------------------------------------------------------------

  datatype Command = Mount | Unmount | Format

  function CommandText(c: Command): string {
    match c
    case Mount => "\"mount\""
    case Unmount => "\"unmount\""
    case Format => "\"format\""
  }

  function MountPoint(p: Partition): string {
    match p
    case System => "\"/system\""
    case Cache => "\"/cache\""
    case Data => "\"/data\""
  }

  /** The call inside a generated expression. */
  function GeneratedCall(c: Command, p: Partition): (r: seq<Token>)
    ensures |r| == 10
  {
    [Str("run_program", false), Key(LeftParen), Str("\"/update-binary-tool\"", true), Key(Comma), Whitespace(" "),
     Str(CommandText(c), true), Key(Comma), Whitespace(" "), Str(MountPoint(p), true), Key(RightParen)]
  }

  function GeneratedTail(): (r: seq<Token>)
    ensures |r| == 5
  {
    [Whitespace(" "), Key(Equals), Whitespace(" "), Str("0", false), Key(RightParen)]
  }

  /** The tokens of (run_program("/update-binary-tool", command, mount point) == 0). */
  function Generated(c: Command, p: Partition): (r: seq<Token>)
    ensures |r| == 16
  {
    [Key(LeftParen)] + GeneratedCall(c, p) + GeneratedTail()
  }

  datatype Action = Replace(command: Command, partition: Partition) | Edit(bareSystem: bool) | Leave | NotHandled

  /** mount, unmount and format act on the first string argument that names a partition. */
  function FirstPartition(args: seq<Token>, devs: Devices): Option<Partition> {
    if args == [] then None
    else if args[0].Str? && PartitionOf(args[0].str, devs).Some? then PartitionOf(args[0].str, devs)
    else FirstPartition(args[1..], devs)
  }

  /** run_program looks at the last string argument only. */
  function LastString(args: seq<Token>): (r: Option<Token>)
    ensures r.Some? ==> r.value.Str?
  {
    if args == [] then None
    else if args[|args| - 1].Str? then Some(args[|args| - 1])
    else LastString(args[..|args| - 1])
  }

  function ReplaceIn(c: Command, p: Option<Partition>): (r: Action)
    ensures r.Leave? || r.Replace?
  {
    match p
    case None => Leave
    case Some(q) => Replace(c, q)
  }

  function ProgramAction(args: seq<Token>, devs: Devices): (r: Action)
    ensures r.Leave? || r.Replace?
  {
    match LastString(args)
    case None => Leave
    case Some(t) =>
      var unescaped := UnescapedString(t);
      var p := PartitionOf(t.str, devs);
      if EndsWith(unescaped, "umount") then ReplaceIn(Unmount, p)
      else if EndsWith(unescaped, "mount") then ReplaceIn(Mount, p)
      else if EndsWith(unescaped, "/format.sh") then Replace(Format, System)
      else if EndsWith(unescaped, "/mke2fs") then ReplaceIn(Format, p)
      else Leave
  }

  /** delete_recursive becomes a format when it deletes a whole partition. */
  function DeleteAction(args: seq<Token>): (r: Action)
    ensures r.Leave? || r.Replace?
  {
    if args == [] then Leave
    else if args[0].Str? && UnescapedString(args[0]) in {"/system", "/system/"} then Replace(Format, System)
    else if args[0].Str? && UnescapedString(args[0]) in {"/cache", "/cache/"} then Replace(Format, Cache)
    else DeleteAction(args[1..])
  }

  function ActionFor(name: string, args: seq<Token>, devs: Devices): Action {
    if name == "mount" then ReplaceIn(Mount, FirstPartition(args, devs))
    else if name == "unmount" then ReplaceIn(Unmount, FirstPartition(args, devs))
    else if name == "run_program" then ProgramAction(args, devs)
    else if name == "delete_recursive" then DeleteAction(args)
    else if name == "format" then ReplaceIn(Format, FirstPartition(args, devs))
    else if name == "block_image_update" then Edit(true)
    else if name == "package_extract_file" then Edit(false)
    else if name == "range_sha1" then Edit(false)
    else NotHandled
  }

  const IMAGE_PATH := "/mb/system.img"

  /** The first system device that occurs in a text is replaced throughout. */
  function DevicesReplaced(u: string, devs: seq<string>): Option<string> {
    if devs == [] then None
    else if Contains(u, devs[0]) then Some(ReplaceAll(u, devs[0], IMAGE_PATH))
    else DevicesReplaced(u, devs[1..])
  }

  /** What a string argument becomes; None when it stays. block_image_update also takes the bare partition name. */
  function NewText(u: string, bareSystem: bool, devs: Devices): Option<string> {
    if bareSystem && u == "system" then Some(ReplaceAll("system", "system", IMAGE_PATH))
    else DevicesReplaced(u, devs.system)
  }

  function EditToken(t: Token, bareSystem: bool, devs: Devices): (r: Token)
    ensures if t.Str? then r.Str? && (r == t || r.quoted) else r == t
  {
    if !t.Str? then t
    else
      match NewText(UnescapedString(t), bareSystem, devs)
      case None => t
      case Some(w) => Quoted(w)
  }

  function EditArgs(args: seq<Token>, bareSystem: bool, devs: Devices): (r: seq<Token>)
    ensures |r| == |args|
    ensures forall k :: 0 <= k < |args| ==> r[k] == EditToken(args[k], bareSystem, devs)
  {
    if args == [] then [] else [EditToken(args[0], bareSystem, devs)] + EditArgs(args[1..], bareSystem, devs)
  }

  // ---------------------------------------------------------------------------
  // The rewriting as a function of the token list
  // ---------------------------------------------------------------------------

  /** What happens at the head of a list: so many tokens are consumed and become these, or rewriting ends. */
  datatype Step = Step(consumed: nat, output: seq<Token>) | Stop

  function CallStep(s: seq<Token>, lp: nat, rp: nat, devs: Devices): (r: Step)
    requires 0 < lp < rp < |s| && s[0].Str?
    ensures r.Step? && 1 <= r.consumed <= |s|
  {
    match ActionFor(UnescapedString(s[0]), s[lp + 1..rp], devs)
    case NotHandled => Step(1, s[..1])
    case Leave => Step(rp + 1, s[..rp + 1])
    case Replace(c, p) => Step(rp + 1, Generated(c, p))
    case Edit(bare) => Step(rp + 1, s[..lp + 1] + EditArgs(s[lp + 1..rp], bare, devs) + [s[rp]])
  }

  function HeadStep(s: seq<Token>, devs: Devices): (r: Step)
    requires s != []
    ensures r.Step? ==> 1 <= r.consumed <= |s|
  {
    if !CallAt(s, 0) then Step(1, s[..1])
    else
      var lp := NextSignificant(s, 1);
      match Closing(s, lp + 1, 1)
      case None => Stop
      case Some(rp) => CallStep(s, lp, rp, devs)
  }

  function Rewritten(s: seq<Token>, devs: Devices): seq<Token>
    decreases |s|
  {
    if s == [] then []
    else
      match HeadStep(s, devs)
      case Stop => s
      case Step(n, out) => out + Rewritten(s[n..], devs)
  }

  // ---------------------------------------------------------------------------
  // The rewriter
  // ---------------------------------------------------------------------------

  class TokenVector {
    var tokens: seq<Token>

    constructor (tokens: seq<Token>)
      ensures this.tokens == tokens
    {
      this.tokens := tokens;
    }
  }

  method FindFunction(tokens: seq<Token>, begin: nat) returns (found: bool, funcName: nat, leftParen: nat, rightParen: nat)
    requires begin <= |tokens|
    ensures found == FirstCall(tokens, begin).Call?
    ensures found ==> FirstCall(tokens, begin) == Call(funcName, leftParen, rightParen)
  {
    hide Closing;
    funcName, leftParen, rightParen := 0, 0, 0;
    var it := begin;
    while it < |tokens|
      invariant begin <= it <= |tokens|
      invariant FirstCall(tokens, it) == FirstCall(tokens, begin)
    {
      if tokens[it].Str? {
        funcName := it;
        var it2 := it + 1;
        while it2 < |tokens| && IsTrivia(tokens[it2])
          invariant it < it2 <= |tokens|
          invariant NextSignificant(tokens, it2) == NextSignificant(tokens, it + 1)
        {
          it2 := it2 + 1;
        }
        if it2 < |tokens| && tokens[it2] == Key(LeftParen) {
          leftParen := it2;
          var closed;
          closed, rightParen := FindClosing(tokens, leftParen);
          return closed, funcName, leftParen, rightParen;
        }
      }
      it := it + 1;
    }
    found := false;
  }

  /** The depth counter starts at the left parenthesis itself. */
  method FindClosing(tokens: seq<Token>, leftParen: nat) returns (found: bool, rightParen: nat)
    requires leftParen < |tokens| && tokens[leftParen] == Key(LeftParen)
    ensures found == Closing(tokens, leftParen + 1, 1).Some?
    ensures found ==> rightParen == Closing(tokens, leftParen + 1, 1).value
  {
    var depth := 0;
    var it2 := leftParen;
    while it2 < |tokens|
      invariant leftParen <= it2 <= |tokens|
      invariant it2 == leftParen ==> depth == 0
      invariant it2 > leftParen ==> depth >= 1 && Closing(tokens, it2, depth) == Closing(tokens, leftParen + 1, 1)
    {
      if tokens[it2] == Key(LeftParen) {
        depth := depth + 1;
      } else if tokens[it2] == Key(RightParen) {
        depth := depth - 1;
      }
      if depth == 0 {
        return true, it2;
      }
      it2 := it2 + 1;
    }
    return false, 0;
  }

  /** The tokens of the call are erased and the replacement is inserted; the position behind it is returned. */
  method ReplaceFunction(v: TokenVector, funcName: nat, rightParen: nat, replacement: seq<Token>) returns (it: nat)
    requires funcName <= rightParen < |v.tokens|
    modifies v
    ensures v.tokens == old(v.tokens)[..funcName] + replacement + old(v.tokens)[rightParen + 1..]
    ensures it == funcName + |replacement|
  {
    v.tokens := v.tokens[..funcName] + v.tokens[rightParen..];
    it := funcName;
    v.tokens := v.tokens[..it] + v.tokens[it + 1..];
    v.tokens := v.tokens[..it] + replacement + v.tokens[it..];
    it := it + |replacement|;
  }

  /** The search over the arguments that mount, unmount and format share. */
  method FindPartition(args: seq<Token>, devs: Devices) returns (r: Option<Partition>)
    ensures r == FirstPartition(args, devs)
  {
    hide PartitionOf;
    var i := 0;
    while i < |args|
      invariant 0 <= i <= |args|
      invariant FirstPartition(args[i..], devs) == FirstPartition(args, devs)
    {
      if args[i].Str? {
        var p := PartitionOf(args[i].str, devs);
        if p.Some? {
          return p;
        }
      }
      i := i + 1;
    }
    r := None;
  }

  /** The flags are overwritten by every string argument, so the last one decides. */
  method DecideProgram(args: seq<Token>, devs: Devices) returns (r: Action)
    ensures r == ProgramAction(args, devs)
  {
    hide PartitionOf, UnescapedString;
    var foundMount, foundUmount, foundFormatSh, foundMke2fs := false, false, false, false;
    var partition: Option<Partition> := None;
    ghost var last: Option<Token> := None;
    for i := 0 to |args|
      invariant last == LastString(args[..i])
      invariant last.None? ==> !foundMount && !foundUmount && !foundFormatSh && !foundMke2fs
      invariant last.Some? ==>
                  var u := UnescapedString(last.value);
                  && foundMount == EndsWith(u, "mount") && foundUmount == EndsWith(u, "umount")
                  && foundFormatSh == EndsWith(u, "/format.sh") && foundMke2fs == EndsWith(u, "/mke2fs")
                  && partition == PartitionOf(last.value.str, devs)
    {
      assert args[..i + 1][..i] == args[..i];
      if args[i].Str? {
        var unescaped := UnescapedString(args[i]);
        foundMount := EndsWith(unescaped, "mount");
        foundUmount := EndsWith(unescaped, "umount");
        foundFormatSh := EndsWith(unescaped, "/format.sh");
        foundMke2fs := EndsWith(unescaped, "/mke2fs");
        partition := PartitionOf(args[i].str, devs);
        last := Some(args[i]);
      }
    }
    assert args[..|args|] == args;
    if foundUmount {
      r := ReplaceIn(Unmount, partition);
    } else if foundMount {
      r := ReplaceIn(Mount, partition);
    } else if foundFormatSh {
      r := Replace(Format, System);
    } else if foundMke2fs {
      r := ReplaceIn(Format, partition);
    } else {
      r := Leave;
    }
  }

  method DecideDelete(args: seq<Token>) returns (r: Action)
    ensures r == DeleteAction(args)
  {
    hide UnescapedString;
    var i := 0;
    while i < |args|
      invariant 0 <= i <= |args|
      invariant DeleteAction(args[i..]) == DeleteAction(args)
    {
      if args[i].Str? {
        var unescaped := UnescapedString(args[i]);
        if unescaped == "/system" || unescaped == "/system/" {
          return Replace(Format, System);
        } else if unescaped == "/cache" || unescaped == "/cache/" {
          return Replace(Format, Cache);
        }
      }
      i := i + 1;
    }
    r := Leave;
  }

  /** String arguments are replaced one by one in place. */
  method EditInPlace(v: TokenVector, leftParen: nat, rightParen: nat, bareSystem: bool, devs: Devices)
    requires leftParen < rightParen < |v.tokens|
    modifies v
    ensures v.tokens == old(v.tokens)[..leftParen + 1] + EditArgs(old(v.tokens)[leftParen + 1..rightParen], bareSystem, devs)
                        + old(v.tokens)[rightParen..]
  {
    hide EditToken;
    var it := leftParen + 1;
    while it < rightParen
      invariant leftParen < it <= rightParen && |v.tokens| == |old(v.tokens)|
      invariant forall k :: 0 <= k < |v.tokens| ==>
                  v.tokens[k] == if leftParen < k < it then EditToken(old(v.tokens)[k], bareSystem, devs) else old(v.tokens)[k]
    {
      v.tokens := v.tokens[it := EditToken(v.tokens[it], bareSystem, devs)];
      it := it + 1;
    }
  }

  method Decide(name: string, args: seq<Token>, devs: Devices) returns (r: Action)
    ensures r == ActionFor(name, args, devs)
  {
    var p;
    if name == "mount" {
      p := FindPartition(args, devs);
      r := ReplaceIn(Mount, p);
    } else if name == "unmount" {
      p := FindPartition(args, devs);
      r := ReplaceIn(Unmount, p);
    } else if name == "run_program" {
      r := DecideProgram(args, devs);
    } else if name == "delete_recursive" {
      r := DecideDelete(args);
    } else if name == "format" {
      p := FindPartition(args, devs);
      r := ReplaceIn(Format, p);
    } else if name == "block_image_update" {
      r := Edit(true);
    } else if name == "package_extract_file" || name == "range_sha1" {
      r := Edit(false);
    } else {
      r := NotHandled;
    }
  }

  // ---------------------------------------------------------------------------
  // Positions in a suffix and in a prefix
  // ---------------------------------------------------------------------------

  lemma {:induction false} NextSignificantInSuffix(s: seq<Token>, b: nat, i: nat)
    requires b + i <= |s|
    ensures NextSignificant(s, b + i) == b + NextSignificant(s[b..], i)
    decreases |s| - i
  {
    if b + i < |s| && IsTrivia(s[b + i]) {
      NextSignificantInSuffix(s, b, i + 1);
    }
  }

  lemma {:induction false} ClosingInSuffix(s: seq<Token>, b: nat, i: nat, depth: nat)
    requires b + i <= |s| && depth >= 1
    ensures Closing(s, b + i, depth)
         == match Closing(s[b..], i, depth) case None => None case Some(rp) => Some(b + rp)
    decreases |s| - i
  {
    if b + i < |s| {
      var deeper := if s[b + i] == Key(LeftParen) then depth + 1 else if s[b + i] == Key(RightParen) then depth - 1 else depth;
      if deeper >= 1 {
        ClosingInSuffix(s, b, i + 1, deeper);
      }
    }
  }

  lemma {:induction false} NextSignificantInPrefix(s: seq<Token>, e: nat, i: nat)
    requires i <= e <= |s| && NextSignificant(s, i) < e
    ensures NextSignificant(s[..e], i) == NextSignificant(s, i)
    decreases e - i
  {
    if IsTrivia(s[i]) {
      NextSignificantInPrefix(s, e, i + 1);
    }
  }

  lemma {:induction false} ClosingInPrefix(s: seq<Token>, e: nat, i: nat, depth: nat)
    requires i <= e <= |s| && depth >= 1 && Closing(s, i, depth).Some? && Closing(s, i, depth).value < e
    ensures Closing(s[..e], i, depth) == Closing(s, i, depth)
    decreases e - i
  {
    var deeper := if s[i] == Key(LeftParen) then depth + 1 else if s[i] == Key(RightParen) then depth - 1 else depth;
    if deeper >= 1 {
      ClosingInPrefix(s, e, i + 1, deeper);
    }
  }

  lemma CallInSuffix(s: seq<Token>, f: nat)
    requires f < |s|
    ensures CallAt(s, f) == CallAt(s[f..], 0)
    ensures CallAt(s, f) ==>
              var lp := NextSignificant(s, f + 1);
              && lp - f == NextSignificant(s[f..], 1)
              && Closing(s, lp + 1, 1) == match Closing(s[f..], lp - f + 1, 1) case None => None case Some(rp) => Some(f + rp)
  {
    hide Closing, NextSignificant, IsTrivia;
    NextSignificantInSuffix(s, f, 1);
    var lp := NextSignificant(s, f + 1);
    if CallAt(s, f) {
      ClosingInSuffix(s, f, lp - f + 1, 1);
    }
  }

  lemma {:induction false} FirstCallIsCall(s: seq<Token>, b: nat)
    requires b <= |s| && FirstCall(s, b).Call?
    ensures var Call(f, lp, rp) := FirstCall(s, b);
            CallAt(s, f) && lp == NextSignificant(s, f + 1) && Closing(s, lp + 1, 1) == Some(rp)
    decreases |s| - b
  {
    hide NextSignificant, IsTrivia, Closing;
    if !CallAt(s, b) {
      FirstCallIsCall(s, b + 1);
    }
  }

  lemma NothingRewritten(s: seq<Token>, devs: Devices)
    requires s == []
    ensures Rewritten(s, devs) == []
  {
  }

  lemma NonCallStays(s: seq<Token>, devs: Devices)
    requires s != [] && !CallAt(s, 0)
    ensures Rewritten(s, devs) == s[..1] + Rewritten(s[1..], devs)
  {
    hide CallStep, CallAt;
  }

  /** Rewriting starts at the first call that is found; everything before it stays. */
  lemma {:induction false} RewritingStartsAtCall(s: seq<Token>, b: nat, devs: Devices)
    requires b <= |s|
    ensures FirstCall(s, b).NoCall? ==> Rewritten(s[b..], devs) == s[b..]
    ensures FirstCall(s, b).Call? ==>
              var f := FirstCall(s, b).funcName;
              Rewritten(s[b..], devs) == s[b..f] + Rewritten(s[f..], devs)
    decreases |s| - b
  {
    hide CallStep, CallAt, Closing, NextSignificant, Rewritten;
    if b == |s| {
      NothingRewritten(s[b..], devs);
    } else {
      var suffix := s[b..];
      CallInSuffix(s, b);
      if CallAt(s, b) {
        UnclosedCallStays(suffix, devs);
        assert s[b..b] + Rewritten(suffix, devs) == Rewritten(suffix, devs);
      } else {
        NonCallStays(suffix, devs);
        RewritingStartsAtCall(s, b + 1, devs);
        assert suffix[1..] == s[b + 1..];
        SuffixSplits(s, b);
        if FirstCall(s, b).Call? {
          var f := FirstCall(s, b).funcName;
          SegmentSplits(s, b, f, Rewritten(s[f..], devs));
        }
      }
    }
  }

  lemma SuffixSplits(s: seq<Token>, b: nat)
    requires b < |s|
    ensures s[b..] == s[b..][..1] + s[b + 1..]
  {
  }

  lemma SegmentSplits(s: seq<Token>, b: nat, f: nat, x: seq<Token>)
    requires b < f <= |s|
    ensures s[b..][..1] + (s[b + 1..f] + x) == s[b..f] + x
  {
    assert s[b..f] == s[b..][..1] + s[b + 1..f];
  }

  lemma UnclosedCallStays(s: seq<Token>, devs: Devices)
    requires s != [] && CallAt(s, 0)
    ensures Closing(s, NextSignificant(s, 1) + 1, 1).None? ==> Rewritten(s, devs) == s
  {
    hide CallStep, CallAt, Closing, NextSignificant;
  }

  lemma CallStays(s: seq<Token>, lp: nat, rp: nat, devs: Devices)
    requires s != [] && CallAt(s, 0) && lp == NextSignificant(s, 1) && Closing(s, lp + 1, 1) == Some(rp)
    ensures var step := CallStep(s, lp, rp, devs);
            Rewritten(s, devs) == step.output + Rewritten(s[step.consumed..], devs)
  {
    assert 0 < lp < rp < |s| && s[0].Str?;
    hide CallStep, CallAt, Closing, NextSignificant;
    assert HeadStep(s, devs) == CallStep(s, lp, rp, devs);
  }

  lemma SpliceParts(x: seq<Token>, y: seq<Token>, z: seq<Token>)
    ensures (x + y + z)[..|x| + |y|] == x + y && (x + y + z)[|x| + |y|..] == z
  {
  }

  lemma PrefixMoves(a: seq<Token>, b: nat, f: nat, x: seq<Token>, y: seq<Token>)
    requires b <= f <= |a|
    ensures a[..b] + (a[b..f] + (x + y)) == (a[..f] + x) + y
  {
    assert a[..f] == a[..b] + a[b..f];
  }

  lemma FirstCallRewritten(s: seq<Token>, b: nat, devs: Devices)
    requires b <= |s| && FirstCall(s, b).Call?
    ensures var Call(f, lp, rp) := FirstCall(s, b);
            var step := CallStep(s[f..], lp - f, rp - f, devs);
            Rewritten(s[b..], devs) == s[b..f] + (step.output + Rewritten(s[f..][step.consumed..], devs))
  {
    hide CallStep, FirstCall, CallAt, Closing, NextSignificant, Rewritten;
    RewritingStartsAtCall(s, b, devs);
    FirstCallInSuffix(s, b);
    var Call(f, lp, rp) := FirstCall(s, b);
    CallStays(s[f..], lp - f, rp - f, devs);
  }

  lemma FirstCallInSuffix(s: seq<Token>, b: nat)
    requires b <= |s| && FirstCall(s, b).Call?
    ensures var Call(f, lp, rp) := FirstCall(s, b);
            && CallAt(s[f..], 0) && lp - f == NextSignificant(s[f..], 1)
            && Closing(s[f..], lp - f + 1, 1) == Some(rp - f)
  {
    hide FirstCall, CallAt, Closing, NextSignificant;
    FirstCallIsCall(s, b);
    CallInSuffix(s, FirstCall(s, b).funcName);
  }

  /** One pass of the loop: the position moves behind what was written and what is still ahead only shrinks. */
  lemma PassKeepsResult(before: seq<Token>, begin: nat, f: nat, out: seq<Token>, rest: seq<Token>, devs: Devices)
    requires begin <= f < |before| && |rest| < |before| - f
    requires Rewritten(before[begin..], devs) == before[begin..f] + (out + Rewritten(rest, devs))
    ensures var after := before[..f] + out + rest;
            var next := f + |out|;
            && after[..next] + Rewritten(after[next..], devs) == before[..begin] + Rewritten(before[begin..], devs)
            && |after| - next < |before| - begin
  {
    hide Rewritten;
    SpliceParts(before[..f], out, rest);
    PrefixMoves(before, begin, f, out, Rewritten(rest, devs));
  }

  lemma SpliceKept(s: seq<Token>, f: nat, e: nat)
    requires f <= e <= |s|
    ensures s == s[..f] + s[f..][..e - f] + s[e..]
  {
    assert s[f..][..e - f] == s[f..e];
    assert s == s[..f] + s[f..e] + s[e..];
  }

  lemma SpliceEdited(s: seq<Token>, f: nat, lp: nat, rp: nat, args: seq<Token>)
    requires f < lp < rp < |s|
    ensures s[..lp + 1] + args + s[rp..]
         == s[..f] + (s[f..][..lp - f + 1] + args + [s[f..][rp - f]]) + s[rp + 1..]
  {
    assert s[..lp + 1] == s[..f] + s[f..][..lp - f + 1];
    assert s[rp..] == [s[f..][rp - f]] + s[rp + 1..];
  }

  /** One pass of the loop of patchFiles from the call that was found; the new position is returned. */
  method PatchCall(v: TokenVector, funcName: nat, leftParen: nat, rightParen: nat, devs: Devices) returns (begin: nat)
    requires funcName < leftParen < rightParen < |v.tokens| && v.tokens[funcName].Str?
    modifies v
    ensures var s := old(v.tokens);
            var step := CallStep(s[funcName..], leftParen - funcName, rightParen - funcName, devs);
            && v.tokens == s[..funcName] + step.output + s[funcName + step.consumed..]
            && begin == funcName + |step.output|
  {
    hide ActionFor, EditToken, Generated, UnescapedString;
    ghost var s := v.tokens;
    assert s[funcName..][leftParen - funcName + 1..rightParen - funcName] == s[leftParen + 1..rightParen];
    var name := UnescapedString(v.tokens[funcName]);
    var action := Decide(name, v.tokens[leftParen + 1..rightParen], devs);
    match action {
      case Replace(c, p) =>
        begin := ReplaceFunction(v, funcName, rightParen, Generated(c, p));
      case Edit(bare) =>
        EditInPlace(v, leftParen, rightParen, bare, devs);
        begin := rightParen + 1;
        SpliceEdited(s, funcName, leftParen, rightParen, EditArgs(s[leftParen + 1..rightParen], bare, devs));
      case Leave =>
        begin := rightParen + 1;
        SpliceKept(s, funcName, rightParen + 1);
      case NotHandled =>
        begin := funcName + 1;
        SpliceKept(s, funcName, funcName + 1);
    }
  }

  /** The loop of patchFiles over the tokens of a script. */
  method PatchTokens(v: TokenVector, devs: Devices)
    modifies v
    ensures v.tokens == Rewritten(old(v.tokens), devs)
  {
    hide Rewritten, FirstCall, CallStep, CallAt, Closing, NextSignificant;
    var begin: nat := 0;
    assert v.tokens[0..] == v.tokens;
    while true
      invariant begin <= |v.tokens|
      invariant v.tokens[..begin] + Rewritten(v.tokens[begin..], devs) == Rewritten(old(v.tokens), devs)
      decreases |v.tokens| - begin
    {
      ghost var before, from := v.tokens, begin;
      var found, funcName, leftParen, rightParen := FindFunction(v.tokens, begin);
      if !found {
        RewritingStartsAtCall(before, begin, devs);
        assert before == before[..begin] + before[begin..];
        break;
      }
      FirstCallRewritten(before, from, devs);
      ghost var step := CallStep(before[funcName..], leftParen - funcName, rightParen - funcName, devs);
      ghost var rest := before[funcName..][step.consumed..];
      begin := PatchCall(v, funcName, leftParen, rightParen, devs);
      assert rest == before[funcName + step.consumed..];
      PassKeepsResult(before, from, funcName, step.output, rest, devs);
    }
  }

  /** What patchFiles makes of the text of a script; None when it refuses it. */
  function PatchedText(contents: string, devs: Devices): Option<string> {
    if "#!" <= contents then Some(contents)
    else
      match Tokenize(contents)
      case None => None
      case Some(tokens) => Some(Untokenize(Rewritten(tokens, devs)))
  }

  /** patchFiles on the text of a script: one with a shebang line stays as it is, one with an open quote is refused. */
  method PatchScript(contents: string, devs: Devices) returns (ok: bool, patched: string)
    ensures ok == PatchedText(contents, devs).Some?
    ensures ok ==> patched == PatchedText(contents, devs).value
  {
    hide Tokenize, Rewritten, Untokenize;
    if |contents| >= 2 && contents[0] == '#' && contents[1] == '!' {
      return true, contents;
    }
    var tokens;
    ok, tokens := TokenizeScript(contents);
    if !ok {
      return false, contents;
    }
    var v := new TokenVector(tokens);
    PatchTokens(v, devs);
    patched := UntokenizeAll(v.tokens);
  }

  method UntokenizeAll(tokens: seq<Token>) returns (output: string)
    ensures output == Untokenize(tokens)
  {
    hide Generate;
    output := "";
    var i := 0;
    while i < |tokens|
      invariant 0 <= i <= |tokens|
      invariant output + Untokenize(tokens[i..]) == Untokenize(tokens)
    {
      assert tokens[i..][1..] == tokens[i + 1..];
      output := output + Generate(tokens[i]);
      i := i + 1;
    }
  }
}
