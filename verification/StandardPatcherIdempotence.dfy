/** Exactly when rewriting a rewritten script changes nothing. */
module StandardPatcherIdempotence {
  import opened Bytes
  import opened Strings
  import opened EdifyTokenizer
  import opened StandardPatcher
  import opened EdifyQuoting
  import opened StandardPatcherLaws

  // ---------------------------------------------------------------------------
  // Heads of token lists
  // ---------------------------------------------------------------------------

  /** What a list starts with: no call, a call that is never closed, or a call with its parentheses. */
  datatype Head = Plain | Open | Called(lp: nat, rp: nat)

  function HeadOf(s: seq<Token>): (h: Head)
    requires s != []
    ensures h.Called? ==> 0 < h.lp < h.rp < |s| && s[0].Str? && s[h.lp] == Key(LeftParen)
  {
    if !CallAt(s, 0) then Plain
    else
      var lp := NextSignificant(s, 1);
      match Closing(s, lp + 1, 1)
      case None => Open
      case Some(rp) => Called(lp, rp)
  }

  function ArgsOf(s: seq<Token>): seq<Token>
    requires s != [] && HeadOf(s).Called?
  {
    s[HeadOf(s).lp + 1..HeadOf(s).rp]
  }

  function ActionOf(s: seq<Token>, devs: Devices): Action
    requires s != [] && HeadOf(s).Called?
  {
    ActionFor(UnescapedString(s[0]), ArgsOf(s), devs)
  }

  lemma PlainStep(s: seq<Token>, devs: Devices)
    requires s != [] && HeadOf(s).Plain?
    ensures Rewritten(s, devs) == s[..1] + Rewritten(s[1..], devs)
  {
    hide Rewritten;
    NonCallStays(s, devs);
  }

  lemma OpenStep(s: seq<Token>, devs: Devices)
    requires s != [] && HeadOf(s).Open?
    ensures Rewritten(s, devs) == s
  {
    hide Rewritten;
    UnclosedCallStays(s, devs);
  }

  /** The call with its arguments edited. */
  function EditedCall(s: seq<Token>, bare: bool, devs: Devices): seq<Token>
    requires s != [] && HeadOf(s).Called?
  {
    s[..HeadOf(s).lp + 1] + EditArgs(ArgsOf(s), bare, devs) + [s[HeadOf(s).rp]]
  }

  /** What a closed call becomes when everything behind it is rewritten too. */
  function Acted(s: seq<Token>, devs: Devices): seq<Token>
    requires s != [] && HeadOf(s).Called?
  {
    var rp := HeadOf(s).rp;
    match ActionOf(s, devs)
    case NotHandled => s[..1] + Rewritten(s[1..], devs)
    case Leave => s[..rp + 1] + Rewritten(s[rp + 1..], devs)
    case Replace(c, p) => Generated(c, p) + Rewritten(s[rp + 1..], devs)
    case Edit(bare) => EditedCall(s, bare, devs) + Rewritten(s[rp + 1..], devs)
  }

  lemma NotHandledStep(s: seq<Token>, devs: Devices)
    requires s != [] && HeadOf(s).Called? && ActionOf(s, devs).NotHandled?
    ensures Rewritten(s, devs) == s[..1] + Rewritten(s[1..], devs)
  {
    hide Rewritten, HeadOf, ActionFor, EditArgs, Generated, UnescapedString;
    CalledIsStep(s, devs);
  }

  lemma LeaveStep(s: seq<Token>, devs: Devices)
    requires s != [] && HeadOf(s).Called? && ActionOf(s, devs).Leave?
    ensures Rewritten(s, devs) == s[..HeadOf(s).rp + 1] + Rewritten(s[HeadOf(s).rp + 1..], devs)
  {
    hide Rewritten, HeadOf, ActionFor, EditArgs, Generated, UnescapedString;
    CalledIsStep(s, devs);
  }

  lemma ReplaceStep(s: seq<Token>, devs: Devices)
    requires s != [] && HeadOf(s).Called? && ActionOf(s, devs).Replace?
    ensures Rewritten(s, devs) == Generated(ActionOf(s, devs).command, ActionOf(s, devs).partition) + Rewritten(s[HeadOf(s).rp + 1..], devs)
  {
    hide Rewritten, HeadOf, ActionFor, EditArgs, Generated, UnescapedString;
    CalledIsStep(s, devs);
  }

  lemma EditStep(s: seq<Token>, devs: Devices)
    requires s != [] && HeadOf(s).Called? && ActionOf(s, devs).Edit?
    ensures Rewritten(s, devs) == EditedCall(s, ActionOf(s, devs).bareSystem, devs) + Rewritten(s[HeadOf(s).rp + 1..], devs)
  {
    hide Rewritten, HeadOf, ActionFor, EditArgs, Generated, UnescapedString;
    CalledIsStep(s, devs);
  }

  lemma CalledStep(s: seq<Token>, devs: Devices)
    requires s != [] && HeadOf(s).Called?
    ensures Rewritten(s, devs) == Acted(s, devs)
  {
    hide Rewritten, HeadOf, ArgsOf, ActionFor, EditedCall, Generated, UnescapedString;
    match ActionOf(s, devs) {
      case NotHandled => NotHandledStep(s, devs);
      case Leave => LeaveStep(s, devs);
      case Replace(_, _) => ReplaceStep(s, devs);
      case Edit(_) => EditStep(s, devs);
    }
  }

  lemma CalledIsStep(s: seq<Token>, devs: Devices)
    requires s != [] && HeadOf(s).Called?
    ensures var step := CallStep(s, HeadOf(s).lp, HeadOf(s).rp, devs);
            Rewritten(s, devs) == step.output + Rewritten(s[step.consumed..], devs)
  {
    hide Rewritten, CallStep, Closing, NextSignificant;
    CallStays(s, HeadOf(s).lp, HeadOf(s).rp, devs);
  }

  lemma {:induction false} NextSignificantExtends(a: seq<Token>, b: seq<Token>, i: nat)
    requires i <= |a| && NextSignificant(a, i) < |a|
    ensures NextSignificant(a + b, i) == NextSignificant(a, i)
    decreases |a| - i
  {
    if IsTrivia(a[i]) {
      NextSignificantExtends(a, b, i + 1);
    }
  }

  lemma {:induction false} ClosingExtends(a: seq<Token>, b: seq<Token>, i: nat, depth: nat)
    requires i <= |a| && depth >= 1 && Closing(a, i, depth).Some?
    ensures Closing(a + b, i, depth) == Closing(a, i, depth)
    decreases |a| - i
  {
    var deeper := if a[i] == Key(LeftParen) then depth + 1 else if a[i] == Key(RightParen) then depth - 1 else depth;
    if deeper >= 1 {
      ClosingExtends(a, b, i + 1, deeper);
    }
  }

  /** A closed call does not depend on what follows it. */
  lemma CalledExtends(a: seq<Token>, b: seq<Token>)
    requires a != [] && HeadOf(a).Called?
    ensures HeadOf(a + b) == HeadOf(a) && ArgsOf(a + b) == ArgsOf(a)
  {
    hide NextSignificant, Closing, IsTrivia;
    NextSignificantExtends(a, b, 1);
    ClosingExtends(a, b, NextSignificant(a, 1) + 1, 1);
  }

  /** Tokens that are no strings are copied. */
  lemma {:induction false} NonStringsStay(a: seq<Token>, b: seq<Token>, devs: Devices)
    requires forall k :: 0 <= k < |a| ==> !a[k].Str?
    ensures Rewritten(a + b, devs) == a + Rewritten(b, devs)
  {
    hide Rewritten, NextSignificant;
    if a == [] {
      assert a + b == b && a + Rewritten(b, devs) == Rewritten(b, devs);
    } else {
      PlainStep(a + b, devs);
      NonStringsStay(a[1..], b, devs);
      assert (a + b)[1..] == a[1..] + b;
      assert (a + b)[..1] == a[..1] && a == a[..1] + a[1..];
    }
  }

  // ---------------------------------------------------------------------------
  // Generated expressions
  // ---------------------------------------------------------------------------

  lemma {:induction false} NextSignificantIs(s: seq<Token>, i: nat, n: nat)
    requires i <= n < |s| && !IsTrivia(s[n]) && forall k :: i <= k < n ==> IsTrivia(s[k])
    ensures NextSignificant(s, i) == n
    decreases n - i
  {
    if i < n {
      NextSignificantIs(s, i + 1, n);
    }
  }

  lemma {:induction false} ClosingOfFlat(s: seq<Token>, i: nat, rp: nat)
    requires i <= rp < |s| && s[rp] == Key(RightParen)
    requires forall k :: i <= k < rp ==> s[k] != Key(LeftParen) && s[k] != Key(RightParen)
    ensures Closing(s, i, 1) == Some(rp)
    decreases rp - i
  {
    if i < rp {
      ClosingOfFlat(s, i + 1, rp);
    }
  }

  lemma GeneratedCallHead(c: Command, p: Partition)
    ensures HeadOf(GeneratedCall(c, p)) == Called(1, 9)
    ensures LastString(ArgsOf(GeneratedCall(c, p))) == Some(Str(MountPoint(p), true))
  {
    hide Closing, NextSignificant, CommandText, MountPoint;
    var g := GeneratedCall(c, p);
    NextSignificantIs(g, 1, 1);
    ClosingOfFlat(g, 2, 9);
    var args := ArgsOf(g);
    assert args == g[2..9];
    assert args[6] == g[8];
  }

  function MountPath(p: Partition): string {
    match p
    case System => "/system"
    case Cache => "/cache"
    case Data => "/data"
  }

  lemma MountPointUnescaped(p: Partition)
    ensures UnescapedString(Str(MountPoint(p), true)) == MountPath(p)
  {
    QuotedPlain(MountPath(p));
    assert MountPoint(p) == "\"" + MountPath(p) + "\"";
  }

  lemma NoSuffix(s: string, suffix: string)
    requires |s| > 0 && |suffix| > 0 && s[|s| - 1] != suffix[|suffix| - 1]
    ensures !EndsWith(s, suffix)
  {
  }

  /** The last argument of a generated call is a mount point, so the call is left alone. */
  lemma MountPathIsNoProgram(p: Partition)
    ensures var u := MountPath(p);
            !EndsWith(u, "mount") && !EndsWith(u, "umount") && !EndsWith(u, "/format.sh") && !EndsWith(u, "/mke2fs")
  {
    NoSuffix(MountPath(p), "mount");
    NoSuffix(MountPath(p), "umount");
    NoSuffix(MountPath(p), "/format.sh");
    NoSuffix(MountPath(p), "/mke2fs");
  }

  lemma GeneratedCallIsLeft(c: Command, p: Partition, devs: Devices)
    ensures HeadOf(GeneratedCall(c, p)).Called? && ActionOf(GeneratedCall(c, p), devs) == Leave
  {
    hide HeadOf, ArgsOf, LastString, EndsWith, PartitionOf, MountPoint, MountPath;
    GeneratedCallHead(c, p);
    MountPointUnescaped(p);
    MountPathIsNoProgram(p);
    UnescapePlain("run_program");
    assert UnescapedString(GeneratedCall(c, p)[0]) == "run_program";
  }

  lemma PlainString(s: seq<Token>)
    requires |s| >= 2 && !IsTrivia(s[1]) && s[1] != Key(LeftParen)
    ensures HeadOf(s).Plain?
  {
    NextSignificantIs(s, 1, 1);
  }

  lemma GeneratedTailStays(x: seq<Token>, devs: Devices)
    ensures Rewritten(GeneratedTail() + x, devs) == GeneratedTail() + Rewritten(x, devs)
  {
    hide Rewritten, HeadOf;
    var t := GeneratedTail();
    var last := t[4..] + x;
    var zero := t[3..4] + last;
    NonStringsStay(t[..3], zero, devs);
    PlainString(zero);
    PlainStep(zero, devs);
    assert zero[..1] == t[3..4] && zero[1..] == last;
    NonStringsStay(t[4..], x, devs);
    assert t + x == t[..3] + zero;
    assert t + Rewritten(x, devs) == t[..3] + (t[3..4] + (t[4..] + Rewritten(x, devs)));
  }

  lemma GeneratedCallStays(c: Command, p: Partition, x: seq<Token>, devs: Devices)
    ensures Rewritten(GeneratedCall(c, p) + x, devs) == GeneratedCall(c, p) + Rewritten(x, devs)
  {
    hide Rewritten, HeadOf, ArgsOf, ActionFor, GeneratedCall;
    var g := GeneratedCall(c, p);
    GeneratedCallIsLeft(c, p, devs);
    GeneratedCallHead(c, p);
    CalledExtends(g, x);
    CalledStep(g + x, devs);
    assert (g + x)[..10] == g && (g + x)[10..] == x;
  }

  /** A generated expression is copied as it is. */
  lemma GeneratedStays(c: Command, p: Partition, x: seq<Token>, devs: Devices)
    ensures Rewritten(Generated(c, p) + x, devs) == Generated(c, p) + Rewritten(x, devs)
  {
    hide Rewritten, GeneratedCall, GeneratedTail;
    var first, call, tail := [Key(LeftParen)], GeneratedCall(c, p), GeneratedTail();
    NonStringsStay(first, call + (tail + x), devs);
    GeneratedCallStays(c, p, tail + x, devs);
    GeneratedTailStays(x, devs);
    assert Generated(c, p) + x == first + (call + (tail + x));
    assert Generated(c, p) + Rewritten(x, devs) == first + (call + (tail + Rewritten(x, devs)));
  }

  // ---------------------------------------------------------------------------
  // Closing parentheses survive
  // ---------------------------------------------------------------------------

  /** The number of open parentheses behind a, with `depth` open before it; None once it reaches zero. */
  function Level(a: seq<Token>, depth: nat): Option<nat>
    decreases |a|
  {
    if depth == 0 then None
    else if a == [] then Some(depth)
    else if a[0] == Key(LeftParen) then Level(a[1..], depth + 1)
    else if a[0] == Key(RightParen) then Level(a[1..], depth - 1)
    else Level(a[1..], depth)
  }

  lemma {:induction false} LevelConcat(a: seq<Token>, b: seq<Token>, depth: nat)
    ensures Level(a + b, depth) == match Level(a, depth) case None => None case Some(d) => Level(b, d)
    decreases |a|
  {
    if a == [] {
      assert a + b == b;
    } else if depth >= 1 {
      assert (a + b)[1..] == a[1..] + b;
      LevelConcat(a[1..], b, if a[0] == Key(LeftParen) then depth + 1 else if a[0] == Key(RightParen) then depth - 1 else depth);
    }
  }

  /** A closing parenthesis exists exactly when the level reaches zero. */
  lemma {:induction false} ClosingIsLevel(s: seq<Token>, i: nat, depth: nat)
    requires i <= |s| && depth >= 1
    ensures Closing(s, i, depth).Some? <==> Level(s[i..], depth).None?
    decreases |s| - i
  {
    if i < |s| {
      assert s[i..][1..] == s[i + 1..];
      var deeper := if s[i] == Key(LeftParen) then depth + 1 else if s[i] == Key(RightParen) then depth - 1 else depth;
      if deeper >= 1 {
        ClosingIsLevel(s, i + 1, deeper);
      }
    }
  }

  /** Up to the closing parenthesis, a list takes the level down by as much as it is open. */
  lemma {:induction false} LevelToClosing(s: seq<Token>, i: nat, open: nat, rp: nat, depth: nat)
    requires i <= |s| && open >= 1 && depth >= 1 && Closing(s, i, open) == Some(rp)
    ensures Level(s[i..rp + 1], depth + open) == Some(depth)
    decreases |s| - i
  {
    var span := s[i..rp + 1];
    assert span[0] == s[i] && span[1..] == s[i + 1..rp + 1];
    var deeper := if s[i] == Key(LeftParen) then open + 1 else if s[i] == Key(RightParen) then open - 1 else open;
    if deeper >= 1 {
      LevelToClosing(s, i + 1, deeper, rp, depth);
    } else {
      assert span[1..] == [];
    }
  }

  lemma {:induction false} LevelOfFlat(a: seq<Token>, depth: nat)
    requires depth >= 1
    requires forall k :: 0 <= k < |a| ==> a[k] != Key(LeftParen) && a[k] != Key(RightParen)
    ensures Level(a, depth) == Some(depth)
  {
    if a != [] {
      LevelOfFlat(a[1..], depth);
    }
  }

  lemma {:induction false} LevelOfEdited(a: seq<Token>, bare: bool, devs: Devices, depth: nat)
    ensures Level(EditArgs(a, bare, devs), depth) == Level(a, depth)
    decreases |a|
  {
    hide EditToken;
    if a != [] && depth >= 1 {
      assert EditArgs(a, bare, devs)[1..] == EditArgs(a[1..], bare, devs);
      LevelOfEdited(a[1..], bare, devs, if a[0] == Key(LeftParen) then depth + 1 else if a[0] == Key(RightParen) then depth - 1 else depth);
    }
  }

  lemma LevelOfHead(s: seq<Token>, lp: nat, depth: nat)
    requires lp < |s| && s[0].Str? && s[lp] == Key(LeftParen) && lp == NextSignificant(s, 1) && depth >= 1
    ensures Level(s[..lp + 1], depth) == Some(depth + 1)
  {
    LevelOfFlat(s[..lp], depth);
    LevelConcat(s[..lp], [s[lp]], depth);
    assert s[..lp + 1] == s[..lp] + [s[lp]];
    assert [s[lp]][1..] == [];
  }

  lemma LevelOfCall(s: seq<Token>, depth: nat)
    requires s != [] && HeadOf(s).Called? && depth >= 1
    ensures Level(s[..HeadOf(s).rp + 1], depth) == Some(depth)
  {
    hide NextSignificant, Closing, Level;
    var Called(lp, rp) := HeadOf(s);
    LevelOfHead(s, lp, depth);
    LevelToClosing(s, lp + 1, 1, rp, depth);
    LevelConcat(s[..lp + 1], s[lp + 1..rp + 1], depth);
    assert s[..rp + 1] == s[..lp + 1] + s[lp + 1..rp + 1];
  }

  lemma LevelOfEditedCall(s: seq<Token>, bare: bool, devs: Devices, depth: nat)
    requires s != [] && HeadOf(s).Called? && depth >= 1
    ensures Level(s[..HeadOf(s).lp + 1] + EditArgs(ArgsOf(s), bare, devs) + [s[HeadOf(s).rp]], depth) == Some(depth)
  {
    hide NextSignificant, Closing, Level, EditArgs;
    var Called(lp, rp) := HeadOf(s);
    var head, args, last := s[..lp + 1], ArgsOf(s), [s[rp]];
    LevelOfHead(s, lp, depth);
    LevelOfCall(s, depth);
    LevelOfEdited(args, bare, devs, depth + 1);
    LevelConcat(head, args, depth);
    LevelConcat(head + args, last, depth);
    LevelConcat(head, EditArgs(args, bare, devs), depth);
    LevelConcat(head + EditArgs(args, bare, devs), last, depth);
    assert s[..rp + 1] == head + args + last;
  }

  lemma OneParen(depth: nat)
    requires depth >= 1
    ensures Level([Key(LeftParen)], depth) == Some(depth + 1) && Level([Key(RightParen)], depth + 1) == Some(depth)
  {
    assert [Key(LeftParen)][1..] == [] && [Key(RightParen)][1..] == [];
  }

  lemma GeneratedParts(c: Command, p: Partition)
    ensures Generated(c, p) == [Key(LeftParen)] + GeneratedCall(c, p) + GeneratedTail()[..4] + [Key(RightParen)]
  {
    hide GeneratedCall;
    assert GeneratedTail() == GeneratedTail()[..4] + [Key(RightParen)];
  }

  /** Level through four parts that each are passed. */
  lemma LevelOfParts(a: seq<Token>, b: seq<Token>, c: seq<Token>, d: seq<Token>, depth: nat)
    requires Level(a, depth) == Some(depth + 1) && Level(b, depth + 1) == Some(depth + 1)
    requires Level(c, depth + 1) == Some(depth + 1) && Level(d, depth + 1) == Some(depth)
    ensures Level(a + b + c + d, depth) == Some(depth)
  {
    hide Level;
    LevelConcat(a, b, depth);
    LevelConcat(a + b, c, depth);
    LevelConcat(a + b + c, d, depth);
  }

  lemma LevelOfGenerated(c: Command, p: Partition, depth: nat)
    requires depth >= 1
    ensures Level(Generated(c, p), depth) == Some(depth)
  {
    hide HeadOf, GeneratedCall, Level, Generated;
    var call, flat := GeneratedCall(c, p), GeneratedTail()[..4];
    OneParen(depth);
    GeneratedCallHead(c, p);
    LevelOfCall(call, depth + 1);
    assert call[..10] == call;
    LevelOfFlat(flat, depth + 1);
    GeneratedParts(c, p);
    LevelOfParts([Key(LeftParen)], call, flat, [Key(RightParen)], depth);
  }

  /** Rewriting does not change whether open parentheses are closed. */
  lemma {:induction false} LevelSurvives(s: seq<Token>, devs: Devices, depth: nat)
    ensures Level(Rewritten(s, devs), depth) == Level(s, depth)
    decreases |s|
  {
    if s != [] && depth > 0 {
      LevelSurvivesAt(s, devs, depth);
    }
  }

  lemma {:induction false} LevelSurvivesAt(s: seq<Token>, devs: Devices, depth: nat)
    requires s != [] && depth >= 1
    ensures Level(Rewritten(s, devs), depth) == Level(s, depth)
    decreases |s|, 2
  {
    hide Rewritten, HeadOf, ActionFor, EditArgs, Generated, UnescapedString, Level;
    if HeadOf(s).Open? {
      OpenStep(s, devs);
    } else if HeadOf(s).Plain? || ActionOf(s, devs).NotHandled? {
      LevelOfKept(s, devs, depth);
    } else {
      LevelOfCalled(s, devs, depth);
    }
  }

  lemma {:induction false} LevelOfKept(s: seq<Token>, devs: Devices, depth: nat)
    requires s != [] && !HeadOf(s).Open? && (HeadOf(s).Called? ==> ActionOf(s, devs).NotHandled?)
    ensures Level(Rewritten(s, devs), depth) == Level(s, depth)
    decreases |s|, 1
  {
    hide Rewritten, HeadOf, ArgsOf, ActionFor, EditArgs, Generated, UnescapedString, Level;
    var head, rest := s[..1], s[1..];
    assert s == head + rest;
    LevelConcat(head, rest, depth);
    LevelConcat(head, Rewritten(rest, devs), depth);
    if Level(head, depth).Some? {
      LevelSurvives(rest, devs, Level(head, depth).value);
    }
    if HeadOf(s).Plain? {
      PlainStep(s, devs);
    } else {
      CalledStep(s, devs);
    }
  }

  lemma {:induction false} LevelOfCalled(s: seq<Token>, devs: Devices, depth: nat)
    requires s != [] && HeadOf(s).Called? && depth >= 1 && !ActionOf(s, devs).NotHandled?
    ensures Level(Rewritten(s, devs), depth) == Level(s, depth)
    decreases |s|, 1
  {
    hide Rewritten, HeadOf, ArgsOf, ActionFor, EditArgs, Generated, UnescapedString, Level;
    var Called(lp, rp) := HeadOf(s);
    var rest := s[rp + 1..];
    LevelSurvives(rest, devs, depth);
    LevelOfCall(s, depth);
    assert s == s[..rp + 1] + rest;
    LevelConcat(s[..rp + 1], rest, depth);
    CalledStep(s, devs);
    match ActionOf(s, devs) {
      case Leave =>
        LevelConcat(s[..rp + 1], Rewritten(rest, devs), depth);
      case Replace(c, p) =>
        LevelOfGenerated(c, p, depth);
        LevelConcat(Generated(c, p), Rewritten(rest, devs), depth);
      case Edit(bare) =>
        LevelOfEditedCall(s, bare, devs, depth);
        LevelConcat(s[..lp + 1] + EditArgs(ArgsOf(s), bare, devs) + [s[rp]], Rewritten(rest, devs), depth);
    }
  }

  // ---------------------------------------------------------------------------
  // Settled scripts
  // ---------------------------------------------------------------------------

  /** The tokens between the outer parentheses of a generated expression. */
  function Inside(c: Command, p: Partition): (r: seq<Token>)
    ensures |r| == 14
  {
    GeneratedCall(c, p) + GeneratedTail()[..4]
  }

  /** A name in front of a generated expression turns it into a call; does rewriting then change that call? */
  predicate Captures(name: string, c: Command, p: Partition, devs: Devices) {
    match ActionFor(name, Inside(c, p), devs)
    case NotHandled => false
    case Leave => false
    case Replace(_, _) => true
    case Edit(bare) => EditArgs(Inside(c, p), bare, devs) != Inside(c, p)
  }

  predicate BecomesGenerated(s: seq<Token>, devs: Devices) {
    s != [] && HeadOf(s).Called? && ActionOf(s, devs).Replace?
  }

  /** A string that is no call itself, in front of a call that is replaced, must not capture the replacement. */
  predicate StringSettled(s: seq<Token>, devs: Devices)
    requires s != [] && s[0].Str?
  {
    var next := s[NextSignificant(s, 1)..];
    BecomesGenerated(next, devs) ==>
      var a := ActionOf(next, devs);
      !Captures(UnescapedString(s[0]), a.command, a.partition, devs)
  }

  /** Editing a string argument of a call a second time must not change it again. */
  predicate ArgsSettled(args: seq<Token>, bare: bool, devs: Devices) {
    forall k :: 0 <= k < |args| ==> EditToken(EditToken(args[k], bare, devs), bare, devs) == EditToken(args[k], bare, devs)
  }

  predicate Settled(s: seq<Token>, devs: Devices)
    decreases |s|
  {
    if s == [] || HeadOf(s).Open? then true
    else if HeadOf(s).Plain? then (s[0].Str? ==> StringSettled(s, devs)) && Settled(s[1..], devs)
    else
      var rest := s[HeadOf(s).rp + 1..];
      match ActionOf(s, devs)
      case NotHandled => Settled(s[1..], devs)
      case Leave => Settled(rest, devs)
      case Replace(_, _) => Settled(rest, devs)
      case Edit(bare) => ArgsSettled(ArgsOf(s), bare, devs) && Settled(rest, devs)
  }

  /** Rewriting the rewritten list changes nothing. */
  predicate Stable(s: seq<Token>, devs: Devices) {
    Rewritten(Rewritten(s, devs), devs) == Rewritten(s, devs)
  }

  lemma SamePrefix(a: seq<Token>, x: seq<Token>, y: seq<Token>)
    ensures a + x == a + y <==> x == y
  {
    if a + x == a + y {
      assert x == (a + x)[|a|..] && y == (a + y)[|a|..];
    }
  }

  lemma StableAfter(s: seq<Token>, out: seq<Token>, rest: seq<Token>, devs: Devices)
    requires Rewritten(s, devs) == out + Rewritten(rest, devs)
    requires Rewritten(out + Rewritten(rest, devs), devs) == out + Rewritten(Rewritten(rest, devs), devs)
    ensures Stable(s, devs) <==> Stable(rest, devs)
  {
    hide Rewritten;
    SamePrefix(out, Rewritten(Rewritten(rest, devs), devs), Rewritten(rest, devs));
  }

  // --- Calls -------------------------------------------------------------------

  lemma ReplacedStable(s: seq<Token>, devs: Devices)
    requires BecomesGenerated(s, devs)
    ensures Stable(s, devs) <==> Stable(s[HeadOf(s).rp + 1..], devs)
  {
    hide Rewritten, HeadOf, ArgsOf, ActionFor, EditArgs, Generated, UnescapedString;
    var a, rest := ActionOf(s, devs), s[HeadOf(s).rp + 1..];
    CalledStep(s, devs);
    GeneratedStays(a.command, a.partition, Rewritten(rest, devs), devs);
    StableAfter(s, Generated(a.command, a.partition), rest, devs);
  }

  /** A closed call that stays in front of anything. */
  lemma LeftCallStays(s: seq<Token>, x: seq<Token>, devs: Devices)
    requires s != [] && HeadOf(s).Called? && ActionOf(s, devs).Leave?
    ensures var span := s[..HeadOf(s).rp + 1];
            Rewritten(span + x, devs) == span + Rewritten(x, devs)
  {
    hide Rewritten, HeadOf, ArgsOf, ActionFor, UnescapedString, Generated, EditArgs;
    var rp := HeadOf(s).rp;
    var span := s[..rp + 1];
    SpanHead(s);
    CalledExtends(span, x);
    CalledStep(span + x, devs);
    assert (span + x)[..rp + 1] == span && (span + x)[rp + 1..] == x;
  }

  /** The span of a call is that call by itself. */
  lemma SpanHead(s: seq<Token>)
    requires s != [] && HeadOf(s).Called?
    ensures var span := s[..HeadOf(s).rp + 1];
            HeadOf(span) == HeadOf(s) && ArgsOf(span) == ArgsOf(s)
  {
    hide NextSignificant, Closing, IsTrivia;
    var Called(lp, rp) := HeadOf(s);
    NextSignificantInPrefix(s, rp + 1, 1);
    ClosingInPrefix(s, rp + 1, lp + 1, 1);
  }

  lemma LeftStable(s: seq<Token>, devs: Devices)
    requires s != [] && HeadOf(s).Called? && ActionOf(s, devs).Leave?
    ensures Stable(s, devs) <==> Stable(s[HeadOf(s).rp + 1..], devs)
  {
    hide Rewritten, HeadOf, ArgsOf, ActionFor, UnescapedString;
    var rp := HeadOf(s).rp;
    CalledStep(s, devs);
    LeftCallStays(s, Rewritten(s[rp + 1..], devs), devs);
    StableAfter(s, s[..rp + 1], s[rp + 1..], devs);
  }

  /** A call whose name is not handled stays a call when what follows the parenthesis is rewritten. */
  lemma UnhandledStable(s: seq<Token>, devs: Devices)
    requires s != [] && HeadOf(s).Called? && ActionOf(s, devs).NotHandled?
    ensures Stable(s, devs) <==> Stable(s[1..], devs)
  {
    hide Rewritten, HeadOf, ArgsOf, EditArgs, UnescapedString, ActionFor;
    CalledStep(s, devs);
    UnhandledHead(s, devs);
    var y := Rewritten(s[1..], devs);
    var again := s[..1] + y;
    NameNotHandled(UnescapedString(s[0]), ArgsOf(s), ArgsOf(again), devs);
    CalledStep(again, devs);
    assert again[..1] == s[..1] && again[1..] == y;
    StableAfter(s, s[..1], s[1..], devs);
  }

  lemma NameNotHandled(name: string, args: seq<Token>, others: seq<Token>, devs: Devices)
    requires ActionFor(name, args, devs).NotHandled?
    ensures ActionFor(name, others, devs).NotHandled?
  {
  }

  lemma UnhandledHead(s: seq<Token>, devs: Devices)
    requires s != [] && HeadOf(s).Called?
    ensures HeadOf(s[..1] + Rewritten(s[1..], devs)).Called?
  {
    hide Rewritten, NextSignificant, Closing, Level;
    var Called(lp, rp) := HeadOf(s);
    var tail := s[lp + 1..];
    NonStringsStay(s[1..lp + 1], tail, devs);
    assert s[1..] == s[1..lp + 1] + tail;
    var again := s[..1] + Rewritten(s[1..], devs);
    assert again == s[..lp + 1] + Rewritten(tail, devs);
    NextSignificantIs(again, 1, lp);
    ClosingIsLevel(s, lp + 1, 1);
    LevelSurvives(tail, devs, 1);
    ClosingIsLevel(again, lp + 1, 1);
    assert again[lp + 1..] == Rewritten(tail, devs);
  }

  lemma EditedHead(s: seq<Token>, bare: bool, devs: Devices)
    requires s != [] && HeadOf(s).Called?
    ensures var e := EditedCall(s, bare, devs);
            e != [] && HeadOf(e) == HeadOf(s) && ArgsOf(e) == EditArgs(ArgsOf(s), bare, devs) && e[0] == s[0]
            && |e| == HeadOf(s).rp + 1
  {
    hide NextSignificant, Closing, EditToken;
    var Called(lp, rp) := HeadOf(s);
    var e := EditedCall(s, bare, devs);
    NextSignificantIs(e, 1, lp);
    forall k | lp + 1 <= k <= rp
      ensures (e[k] == Key(LeftParen)) == (s[k] == Key(LeftParen))
      ensures (e[k] == Key(RightParen)) == (s[k] == Key(RightParen))
    {
      if k < rp {
        assert e[k] == EditToken(s[k], bare, devs);
      }
    }
    ClosingOfLike(s, e, lp + 1, 1, rp);
  }

  lemma {:induction false} ClosingOfLike(s: seq<Token>, e: seq<Token>, i: nat, depth: nat, rp: nat)
    requires i <= rp < |s| && |e| == rp + 1 && depth >= 1 && Closing(s, i, depth) == Some(rp)
    requires forall k :: i <= k <= rp ==>
               (e[k] == Key(LeftParen)) == (s[k] == Key(LeftParen)) && (e[k] == Key(RightParen)) == (s[k] == Key(RightParen))
    ensures Closing(e, i, depth) == Some(rp)
    decreases rp - i
  {
    var deeper := if s[i] == Key(LeftParen) then depth + 1 else if s[i] == Key(RightParen) then depth - 1 else depth;
    if deeper >= 1 {
      ClosingOfLike(s, e, i + 1, deeper, rp);
    }
  }

  lemma NameIsEdit(name: string, args: seq<Token>, others: seq<Token>, devs: Devices)
    requires ActionFor(name, args, devs).Edit?
    ensures ActionFor(name, others, devs) == ActionFor(name, args, devs)
  {
  }

  lemma EditedStable(s: seq<Token>, devs: Devices)
    requires s != [] && HeadOf(s).Called? && ActionOf(s, devs).Edit?
    ensures var bare := ActionOf(s, devs).bareSystem;
            Stable(s, devs) <==> ArgsSettled(ArgsOf(s), bare, devs) && Stable(s[HeadOf(s).rp + 1..], devs)
  {
    hide Rewritten, HeadOf, ArgsOf, ActionFor, UnescapedString, EditArgs, EditToken;
    var Called(lp, rp) := HeadOf(s);
    var bare, rest := ActionOf(s, devs).bareSystem, s[rp + 1..];
    var args := ArgsOf(s);
    var e := EditedCall(s, bare, devs);
    var y := Rewritten(rest, devs);
    CalledStep(s, devs);
    EditedHead(s, bare, devs);
    CalledExtends(e, y);
    NameIsEdit(UnescapedString(s[0]), args, ArgsOf(e), devs);
    CalledStep(e + y, devs);
    var e2 := EditedCall(e, bare, devs);
    assert (e + y)[..lp + 1] == e[..lp + 1] && (e + y)[rp + 1..] == y;
    assert Rewritten(e + y, devs) == e2 + Rewritten(y, devs);
    EditedHead(e, bare, devs);
    SameLengthPrefix(e2, Rewritten(y, devs), e, y);
    SameArgs(args, bare, devs);
    SameEditedCall(e, bare, devs);
  }

  lemma SameLengthPrefix(a: seq<Token>, x: seq<Token>, b: seq<Token>, y: seq<Token>)
    requires |a| == |b|
    ensures a + x == b + y <==> a == b && x == y
  {
    if a + x == b + y {
      assert a == (a + x)[..|a|] && b == (b + y)[..|b|];
      assert x == (a + x)[|a|..] && y == (b + y)[|b|..];
    }
  }

  lemma SameArgs(args: seq<Token>, bare: bool, devs: Devices)
    ensures EditArgs(EditArgs(args, bare, devs), bare, devs) == EditArgs(args, bare, devs) <==> ArgsSettled(args, bare, devs)
  {
    hide EditToken;
    var once := EditArgs(args, bare, devs);
    var twice := EditArgs(once, bare, devs);
    if twice == once {
      forall k | 0 <= k < |args|
        ensures EditToken(EditToken(args[k], bare, devs), bare, devs) == EditToken(args[k], bare, devs)
      {
        assert twice[k] == once[k];
      }
    }
  }

  lemma SameEditedCall(e: seq<Token>, bare: bool, devs: Devices)
    requires e != [] && HeadOf(e).Called? && |e| == HeadOf(e).rp + 1
    ensures EditedCall(e, bare, devs) == e <==> EditArgs(ArgsOf(e), bare, devs) == ArgsOf(e)
  {
    hide EditArgs, HeadOf;
    var Called(lp, rp) := HeadOf(e);
    var head, args, last := e[..lp + 1], ArgsOf(e), [e[rp]];
    assert e == head + args + last;
    var edited := EditArgs(args, bare, devs);
    if EditedCall(e, bare, devs) == e {
      SameLengthPrefix(head + edited, last, head + args, last);
      SamePrefix(head, edited, args);
    }
  }

  // --- Strings in front of calls ----------------------------------------------

  lemma GeneratedParens(c: Command, p: Partition)
    ensures var g := Generated(c, p);
            && g == [Key(LeftParen)] + Inside(c, p) + [Key(RightParen)]
            && (forall k :: 0 <= k < 16 ==> (g[k] == Key(LeftParen) <==> k == 0 || k == 2))
            && (forall k :: 0 <= k < 16 ==> (g[k] == Key(RightParen) <==> k == 10 || k == 15))
  {
    hide CommandText, MountPoint;
    var g, tail := Generated(c, p), GeneratedTail();
    assert tail == tail[..4] + [Key(RightParen)];
    assert g == [Key(LeftParen)] + Inside(c, p) + [Key(RightParen)];
  }

  lemma GeneratedHead(h: seq<Token>, c: Command, p: Partition, x: seq<Token>)
    requires h != [] && h[0].Str? && forall k :: 1 <= k < |h| ==> IsTrivia(h[k])
    ensures var s := h + Generated(c, p) + x;
            HeadOf(s) == Called(|h|, |h| + 15) && ArgsOf(s) == Inside(c, p)
  {
    hide NextSignificant, Closing, Generated, Inside;
    var g := Generated(c, p);
    var s := h + g + x;
    GeneratedParens(c, p);
    NextSignificantIs(s, 1, |h|);
    assert forall k :: 0 <= k < 16 ==> s[|h| + k] == g[k];
    GeneratedClosing(s, |h|, g);
    assert s[|h| + 1..|h| + 15] == Inside(c, p);
  }

  lemma GeneratedClosing(s: seq<Token>, i: nat, g: seq<Token>)
    requires i + 16 <= |s| && |g| == 16 && forall k :: 0 <= k < 16 ==> s[i + k] == g[k]
    requires forall k :: 0 <= k < 16 ==> (g[k] == Key(LeftParen) <==> k == 0 || k == 2)
    requires forall k :: 0 <= k < 16 ==> (g[k] == Key(RightParen) <==> k == 10 || k == 15)
    ensures Closing(s, i + 1, 1) == Some(i + 15)
  {
    assert forall j :: i <= j < i + 16 ==> s[j] == g[j - i];
    ClosingSkips(s, i + 1, i + 2, 1);
    ClosingSkips(s, i + 3, i + 10, 2);
    ClosingSkips(s, i + 11, i + 15, 1);
  }

  lemma {:induction false} ClosingSkips(s: seq<Token>, i: nat, n: nat, depth: nat)
    requires i <= n <= |s| && depth >= 1
    requires forall k :: i <= k < n ==> s[k] != Key(LeftParen) && s[k] != Key(RightParen)
    ensures Closing(s, i, depth) == Closing(s, n, depth)
    decreases n - i
  {
    if i < n {
      ClosingSkips(s, i + 1, n, depth);
    }
  }

  /** A string that captures nothing. */
  lemma PlainStable(s: seq<Token>, devs: Devices)
    requires s != [] && HeadOf(s).Plain?
    requires HeadOf(s[..1] + Rewritten(s[1..], devs)).Plain?
    ensures Stable(s, devs) <==> Stable(s[1..], devs)
  {
    hide Rewritten, HeadOf;
    PlainStep(s, devs);
    var y := Rewritten(s[1..], devs);
    var again := s[..1] + y;
    PlainStep(again, devs);
    assert again[..1] == s[..1] && again[1..] == y;
    StableAfter(s, s[..1], s[1..], devs);
  }

  /** Unless a call is replaced, its first token stays. */
  lemma FirstTokenStays(s: seq<Token>, devs: Devices)
    requires s != [] && !BecomesGenerated(s, devs)
    ensures Rewritten(s, devs) != [] && Rewritten(s, devs)[0] == s[0]
  {
    hide Rewritten, HeadOf, ArgsOf, ActionFor, EditArgs, Generated, UnescapedString;
    match HeadOf(s) {
      case Plain => PlainStep(s, devs);
      case Open => OpenStep(s, devs);
      case Called(_, _) => CalledStep(s, devs);
    }
  }

  lemma TriviaStays(s: seq<Token>, devs: Devices)
    requires s != []
    ensures var n := NextSignificant(s, 1);
            s[..1] + Rewritten(s[1..], devs) == s[..n] + Rewritten(s[n..], devs)
  {
    hide Rewritten, NextSignificant;
    var n := NextSignificant(s, 1);
    NonStringsStay(s[1..n], s[n..], devs);
    assert s[1..] == s[1..n] + s[n..];
    assert s[..n] == s[..1] + s[1..n];
  }

  lemma UncapturingStays(s: seq<Token>, devs: Devices)
    requires s != [] && HeadOf(s).Plain?
    requires s[0].Str? ==> !BecomesGenerated(s[NextSignificant(s, 1)..], devs)
    ensures HeadOf(s[..1] + Rewritten(s[1..], devs)).Plain?
  {
    hide Rewritten, BecomesGenerated, Closing, NextSignificant, IsTrivia;
    if s[0].Str? {
      TriviaStays(s, devs);
      var n := NextSignificant(s, 1);
      if n < |s| {
        FirstTokenStays(s[n..], devs);
        SameStart(s, n, Rewritten(s[n..], devs));
      } else {
        NothingRewritten(s[n..], devs);
      }
    }
  }

  /** Whether a list starts with a call is decided up to the first significant token behind a string. */
  lemma SameStart(s: seq<Token>, n: nat, y: seq<Token>)
    requires s != [] && s[0].Str? && HeadOf(s).Plain? && n == NextSignificant(s, 1) < |s| && y != [] && y[0] == s[n]
    ensures HeadOf(s[..n] + y).Plain?
  {
    hide Closing, NextSignificant, IsTrivia;
    NextSignificantIs(s[..n] + y, 1, n);
  }

  /** What a string in front of a replaced call becomes, and again. */
  lemma CapturedStable(s: seq<Token>, devs: Devices)
    requires s != [] && HeadOf(s).Plain? && s[0].Str? && BecomesGenerated(s[NextSignificant(s, 1)..], devs)
    ensures Stable(s, devs) <==> StringSettled(s, devs) && Stable(s[1..], devs)
  {
    hide Rewritten, HeadOf, ArgsOf, ActionFor, EditArgs, Generated, UnescapedString, Inside, GeneratedCall, NextSignificant;
    var n := NextSignificant(s, 1);
    var call := s[n..];
    var a := ActionOf(call, devs);
    var g := Generated(a.command, a.partition);
    var rest := call[HeadOf(call).rp + 1..];
    var x := Rewritten(rest, devs);
    var h := s[..n];
    assert forall k :: 1 <= k < n ==> IsTrivia(h[k]) && h[k] == s[k];
    CalledStep(call, devs);
    NonStringsStay(s[1..n], call, devs);
    assert s[1..] == s[1..n] + call;
    assert Rewritten(s[1..], devs) == s[1..n] + (g + x);
    PlainStep(s, devs);
    var again := h + g + x;
    assert s[..1] + (s[1..n] + (g + x)) == again;
    assert Rewritten(s, devs) == again;
    // The second pass from the second token on.
    NonStringsStay(s[1..n], g + x, devs);
    GeneratedStays(a.command, a.partition, x, devs);
    assert again[1..] == s[1..n] + (g + x);
    // The second pass from the string on.
    GeneratedHead(h, a.command, a.partition, x);
    CalledStep(again, devs);
    assert again[..n + 16] == h + g && again[n + 16..] == x && again[0] == s[0];
    CapturedOutcome(s, again, h, g, x, a.command, a.partition, devs);
  }

  lemma CapturedOutcome(s: seq<Token>, again: seq<Token>, h: seq<Token>, g: seq<Token>, x: seq<Token>,
                        c: Command, p: Partition, devs: Devices)
    requires s != [] && s[0].Str? && h != [] && h[0] == s[0] && g == Generated(c, p) && again == h + g + x
    requires HeadOf(again) == Called(|h|, |h| + 15) && ArgsOf(again) == Inside(c, p)
    requires Rewritten(s, devs) == again && Rewritten(s[1..], devs) == again[1..]
    requires Rewritten(again[1..], devs) == h[1..] + (g + Rewritten(x, devs))
    ensures Stable(s, devs) <==> !Captures(UnescapedString(s[0]), c, p, devs) && Stable(s[1..], devs)
  {
    hide Rewritten, HeadOf, ArgsOf, ActionFor, EditArgs, Generated, UnescapedString, Inside, GeneratedCall;
    CalledStep(again, devs);
    var y := Rewritten(x, devs);
    assert again[..|h| + 16] == h + g && again[|h| + 16..] == x && again[0] == s[0] && again[..1] == [s[0]];
    HeadSplits(h, g, x);
    HeadSplits(h, g, y);
    SamePrefix([s[0]], h[1..] + (g + y), again[1..]);
    match ActionOf(again, devs) {
      case NotHandled =>
      case Leave =>
      case Replace(c', p') =>
        GeneratedStarts(c', p');
      case Edit(bare) =>
        GeneratedSplits(again, h, g, x, c, p);
        CapturedByEdit(again, h, g, x, y, again[..|h| + 1], Inside(c, p), EditArgs(Inside(c, p), bare, devs), [again[|h| + 15]]);
    }
  }

  lemma GeneratedStarts(c: Command, p: Partition)
    ensures Generated(c, p)[0] == Key(LeftParen)
  {
  }

  lemma CapturedByEdit(again: seq<Token>, h: seq<Token>, g: seq<Token>, x: seq<Token>, y: seq<Token>,
                       head: seq<Token>, args: seq<Token>, edited: seq<Token>, last: seq<Token>)
    requires again == h + g + x && h != [] && |args| == |edited| && h + g == head + args + last
    ensures head + edited + last + y == again <==> edited == args && h[1..] + (g + y) == again[1..]
  {
    CapturedEdit(head, args, edited, last);
    SameLengthPrefix(head + edited + last, y, h + g, x);
    SamePrefix(h[1..] + g, y, x);
    assert h[1..] + (g + y) == h[1..] + g + y && again[1..] == h[1..] + g + x;
  }

  lemma HeadSplits(h: seq<Token>, g: seq<Token>, y: seq<Token>)
    requires h != []
    ensures h + g + y == [h[0]] + (h[1..] + (g + y))
  {
    assert h == [h[0]] + h[1..];
  }

  lemma GeneratedSplits(again: seq<Token>, h: seq<Token>, g: seq<Token>, x: seq<Token>, c: Command, p: Partition)
    requires again == h + g + x && g == Generated(c, p)
    ensures |again| >= |h| + 16 && h + g == again[..|h| + 1] + Inside(c, p) + [again[|h| + 15]]
  {
    hide Generated, Inside;
    GeneratedParens(c, p);
    assert again[..|h| + 1] == h + [Key(LeftParen)] && again[|h| + 15] == Key(RightParen);
  }

  lemma CapturedEdit(head: seq<Token>, args: seq<Token>, edited: seq<Token>, last: seq<Token>)
    requires |args| == |edited|
    ensures head + edited + last == head + args + last <==> edited == args
  {
    SameLengthPrefix(head + edited, last, head + args, last);
    SamePrefix(head, edited, args);
  }

  lemma PlainSettles(s: seq<Token>, devs: Devices)
    requires s != [] && HeadOf(s).Plain?
    ensures Stable(s, devs) <==> (s[0].Str? ==> StringSettled(s, devs)) && Stable(s[1..], devs)
  {
    hide Rewritten, HeadOf, ArgsOf, ActionFor, UnescapedString, Captures, Stable;
    if s[0].Str? && BecomesGenerated(s[NextSignificant(s, 1)..], devs) {
      CapturedStable(s, devs);
    } else {
      UncapturingStays(s, devs);
      PlainStable(s, devs);
    }
  }

  lemma StableAsItIs(s: seq<Token>, devs: Devices)
    requires s == [] || HeadOf(s).Open?
    ensures Stable(s, devs)
  {
    hide HeadOf;
    if s != [] {
      OpenStep(s, devs);
    }
  }

  lemma {:induction false} StableIffSettled(s: seq<Token>, devs: Devices)
    ensures Stable(s, devs) <==> Settled(s, devs)
    decreases |s|
  {
    if s == [] || HeadOf(s).Open? {
      StableAsItIs(s, devs);
    } else {
      hide Rewritten, HeadOf, ArgsOf, ActionFor, UnescapedString, Captures, ArgsSettled, StringSettled, Stable;
      StableIffSettled(s[1..], devs);
      if HeadOf(s).Plain? {
        PlainSettles(s, devs);
      } else {
        StableIffSettled(s[HeadOf(s).rp + 1..], devs);
        match ActionOf(s, devs) {
          case NotHandled => UnhandledStable(s, devs);
          case Leave => LeftStable(s, devs);
          case Replace(_, _) => ReplacedStable(s, devs);
          case Edit(_) => EditedStable(s, devs);
        }
      }
    }
  }

  /** Rewriting twice is rewriting once exactly for settled scripts. */
  lemma RewritingTwice(s: seq<Token>, devs: Devices)
    ensures Rewritten(Rewritten(s, devs), devs) == Rewritten(s, devs) <==> Settled(s, devs)
  {
    hide Rewritten, Settled;
    StableIffSettled(s, devs);
  }

  // ---------------------------------------------------------------------------
  // Which names capture a generated expression
  // ---------------------------------------------------------------------------

  lemma ContainsSuffixPart(s: string, needle: string, i: nat)
    requires i + |needle| <= |s| && s[i..i + |needle|] == needle
    ensures Contains(s, needle)
  {
    assert OccursAt(s, needle, i);
  }

  lemma MountPointNamesPartition(p: Partition, devs: Devices)
    ensures PartitionOf(MountPoint(p), devs).Some?
  {
    ContainsSuffixPart(MountPoint(p), MountPath(p), 1);
  }

  lemma {:induction false} SomeArgNamesPartition(args: seq<Token>, k: nat, devs: Devices)
    requires k < |args| && args[k].Str? && PartitionOf(args[k].str, devs).Some?
    ensures FirstPartition(args, devs).Some?
    decreases |args|
  {
    hide PartitionOf;
    if k > 0 && !(args[0].Str? && PartitionOf(args[0].str, devs).Some?) {
      SomeArgNamesPartition(args[1..], k - 1, devs);
    }
  }

  function CommandName(c: Command): string {
    match c
    case Mount => "mount"
    case Unmount => "unmount"
    case Format => "format"
  }

  /** The strings of a generated expression, without their quotes. */
  function StringsInside(c: Command, p: Partition): set<string> {
    {"run_program", "/update-binary-tool", CommandName(c), MountPath(p), "0"}
  }

  lemma InsideTokens(c: Command, p: Partition)
    ensures var g := Inside(c, p);
            && g[0] == Str("run_program", false) && g[2] == Str("\"/update-binary-tool\"", true)
            && g[5] == Str(CommandText(c), true) && g[8] == Str(MountPoint(p), true) && g[13] == Str("0", false)
            && forall k :: 0 <= k < 14 && g[k].Str? ==> k in {0, 2, 5, 8, 13}
  {
    hide CommandText, MountPoint;
  }

  lemma InsideStrings(c: Command, p: Partition)
    ensures var g := Inside(c, p);
            && (forall k :: 0 <= k < 14 && g[k].Str? ==> UnescapedString(g[k]) in StringsInside(c, p))
            && g[8].Str? && UnescapedString(g[8]) == MountPath(p)
            && g[13].Str? && UnescapedString(g[13]) == "0"
  {
    hide Inside, MountPoint, MountPath, CommandText, CommandName, UnescapedString;
    InsideTokens(c, p);
    UnquotedStrings();
    ToolUnescaped();
    CommandUnescaped(c);
    MountPointUnescaped(p);
  }

  lemma UnquotedStrings()
    ensures UnescapedString(Str("run_program", false)) == "run_program"
    ensures UnescapedString(Str("0", false)) == "0"
  {
    hide Unescape;
    UnescapePlain("run_program");
    UnescapePlain("0");
  }

  lemma ToolUnescaped()
    ensures UnescapedString(Str("\"/update-binary-tool\"", true)) == "/update-binary-tool"
  {
    hide UnescapedString;
    QuotedPlain("/update-binary-tool");
    assert "\"" + "/update-binary-tool" + "\"" == "\"/update-binary-tool\"";
  }

  lemma CommandUnescaped(c: Command)
    ensures UnescapedString(Str(CommandText(c), true)) == CommandName(c)
  {
    QuotedPlain(CommandName(c));
    assert CommandText(c) == "\"" + CommandName(c) + "\"";
  }

  lemma {:induction false} DeleteActionFinds(args: seq<Token>, k: nat)
    requires k < |args| && args[k].Str? && UnescapedString(args[k]) in {"/system", "/cache"}
    ensures DeleteAction(args).Replace?
    decreases |args|
  {
    hide UnescapedString;
    if k > 0 {
      DeleteActionFinds(args[1..], k - 1);
    }
  }

  lemma {:induction false} DeleteActionFindsNothing(args: seq<Token>)
    requires forall k :: 0 <= k < |args| && args[k].Str? ==>
               UnescapedString(args[k]) !in {"/system", "/system/", "/cache", "/cache/"}
    ensures DeleteAction(args).Leave?
  {
    hide UnescapedString;
    if args != [] {
      DeleteActionFindsNothing(args[1..]);
    }
  }

  /** A text that is edited. */
  predicate Triggers(u: string, bare: bool, devs: Devices) {
    (bare && u == "system") || ContainsAny(u, devs.system)
  }

  lemma {:induction false} ReplacedIfContained(u: string, devs: seq<string>)
    ensures DevicesReplaced(u, devs).Some? <==> ContainsAny(u, devs)
    ensures DevicesReplaced(u, devs).Some? ==>
              exists k :: 0 <= k < |devs| && Contains(u, devs[k]) && DevicesReplaced(u, devs) == Some(ReplaceAll(u, devs[k], IMAGE_PATH))
  {
    hide Contains, ReplaceAll;
    if devs != [] && !Contains(u, devs[0]) {
      assert forall k :: 0 <= k < |devs[1..]| ==> devs[1..][k] == devs[k + 1];
      ReplacedIfContained(u, devs[1..]);
    }
  }

  /** A string that triggers nothing is not edited. */
  lemma EditMisses(t: Token, bare: bool, devs: Devices)
    requires t.Str? ==> !Triggers(UnescapedString(t), bare, devs)
    ensures EditToken(t, bare, devs) == t
  {
    hide UnescapedString, DevicesReplaced, ContainsAny;
    if t.Str? {
      ReplacedIfContained(UnescapedString(t), devs.system);
    }
  }

  /** No system device occurs in the strings of a generated expression. */
  predicate DevicesApart(c: Command, p: Partition, devs: Devices) {
    forall u :: u in StringsInside(c, p) ==> !ContainsAny(u, devs.system)
  }

  lemma EditsMissInside(c: Command, p: Partition, bare: bool, devs: Devices)
    requires DevicesApart(c, p, devs)
    ensures EditArgs(Inside(c, p), bare, devs) == Inside(c, p)
  {
    hide Inside, UnescapedString, EditToken, DevicesApart, StringsInside, MountPath, Triggers;
    InsideStrings(c, p);
    var g := Inside(c, p);
    forall k | 0 <= k < 14 ensures EditToken(g[k], bare, devs) == g[k] {
      if g[k].Str? {
        InsideTriggersNothing(UnescapedString(g[k]), c, p, bare, devs);
      }
      EditMisses(g[k], bare, devs);
    }
  }

  lemma InsideTriggersNothing(u: string, c: Command, p: Partition, bare: bool, devs: Devices)
    requires DevicesApart(c, p, devs) && u in StringsInside(c, p)
    ensures !Triggers(u, bare, devs)
  {
    hide ContainsAny;
    assert u != "system" by { hide DevicesApart; }
  }

  lemma ProgramMissesInside(c: Command, p: Partition, devs: Devices)
    ensures ProgramAction(Inside(c, p), devs).Leave?
  {
    hide UnescapedString, PartitionOf, EndsWith;
    InsideTokens(c, p);
    InsideStrings(c, p);
    NoSuffix("0", "mount");
    NoSuffix("0", "umount");
    NoSuffix("0", "/format.sh");
    NoSuffix("0", "/mke2fs");
    assert LastString(Inside(c, p)) == Some(Inside(c, p)[13]) by { hide Inside; }
  }

  lemma DeleteInside(c: Command, p: Partition)
    ensures DeleteAction(Inside(c, p)).Replace? <==> p != Data
  {
    hide UnescapedString, Inside, DeleteAction;
    InsideStrings(c, p);
    if p == Data {
      DeleteActionFindsNothing(Inside(c, p));
    } else {
      DeleteActionFinds(Inside(c, p), 8);
    }
  }

  lemma FindersCapture(name: string, c: Command, p: Partition, devs: Devices)
    requires name in {"mount", "unmount", "format"}
    ensures Captures(name, c, p, devs)
  {
    hide Inside, PartitionOf, EditArgs, FirstPartition, MountPoint;
    MountPointNamesPartition(p, devs);
    InsideTokens(c, p);
    SomeArgNamesPartition(Inside(c, p), 8, devs);
  }

  lemma DeleteCaptures(c: Command, p: Partition, devs: Devices)
    ensures Captures("delete_recursive", c, p, devs) <==> p != Data
  {
    hide Inside, EditArgs, DeleteAction;
    DeleteInside(c, p);
  }

  lemma EditsDoNotCapture(name: string, c: Command, p: Partition, devs: Devices)
    requires name in EDIT_NAMES && DevicesApart(c, p, devs)
    ensures !Captures(name, c, p, devs)
  {
    hide Inside, EditArgs, DevicesApart;
    EditsMissInside(c, p, true, devs);
    EditsMissInside(c, p, false, devs);
  }

  lemma OthersDoNotCapture(name: string, c: Command, p: Partition, devs: Devices)
    requires name !in {"mount", "unmount", "format", "delete_recursive"} + EDIT_NAMES
    ensures !Captures(name, c, p, devs)
  {
    hide Inside, ProgramAction;
    ProgramMissesInside(c, p, devs);
  }

  /** Which names turn a generated expression behind them into a call that the second pass changes. */
  lemma CapturesExactly(name: string, c: Command, p: Partition, devs: Devices)
    requires DevicesApart(c, p, devs)
    ensures Captures(name, c, p, devs)
       <==> name in {"mount", "unmount", "format"} || (name == "delete_recursive" && p != Data)
  {
    hide Captures, DevicesApart;
    if name in {"mount", "unmount", "format"} {
      FindersCapture(name, c, p, devs);
    } else if name == "delete_recursive" {
      DeleteCaptures(c, p, devs);
    } else if name in EDIT_NAMES {
      EditsDoNotCapture(name, c, p, devs);
    } else {
      OthersDoNotCapture(name, c, p, devs);
    }
  }

  // ---------------------------------------------------------------------------
  // When editing an argument again changes nothing
  // ---------------------------------------------------------------------------

  /** Device names as they occur: plain, and neither part of the image path nor the other way round. */
  predicate PlainDevices(devs: seq<string>) {
    forall k :: 0 <= k < |devs| ==>
      devs[k] != "" && PlainText(devs[k]) && !Contains(IMAGE_PATH, devs[k]) && !Contains(devs[k], IMAGE_PATH)
  }

  /** A plain text at the start of what a printable text denotes starts that text. */
  lemma {:induction false} PlainIsRaw(e: string, u: string, d: string)
    requires Printable(e) && Unescape(e) == Some(u) && PlainText(d) && d <= u
    ensures d <= e
    decreases |d|
  {
    if d != "" {
      assert d[0] == u[0];
      assert e != "" && e[0] == u[0];
      PlainIsRaw(e[1..], u[1..], d[1..]);
      assert d == [d[0]] + d[1..] && e == [e[0]] + e[1..];
    }
  }

  lemma CommonStart(e: string, d: string, path: string)
    requires d <= e && path <= e
    ensures Contains(path, d) || Contains(d, path)
  {
    if |d| <= |path| {
      assert path[0..|d|] == d;
      assert OccursAt(path, d, 0);
    } else {
      assert d[0..|path|] == path;
      assert OccursAt(d, path, 0);
    }
  }

  /** Replacing in a text that begins with the device, the escaped result differs from what the text was read from. */
  lemma StartsAlike(e: string, d: string, path: string, rest: string)
    requires d <= e && !Contains(path, d) && !Contains(d, path)
    ensures path + rest != e
  {
    hide Contains;
    if path + rest == e {
      CommonStart(e, d, path);
      assert false;
    }
  }

  lemma FirstOccurs(s: string, d: string)
    requires d != "" && OccursAt(s, d, 0)
    ensures s[0] == d[0]
  {
    assert s[0..|d|][0] == s[0];
  }

  lemma ContainedLater(u: string, d: string)
    requires u != "" && d != "" && Contains(u, d) && !OccursAt(u, d, 0)
    ensures Contains(u[1..], d)
  {
    var i :| 0 <= i <= |u| && OccursAt(u, d, i);
    assert u[1..][i - 1..i - 1 + |d|] == u[i..i + |d|];
    assert OccursAt(u[1..], d, i - 1);
  }

  /** The escaped text of a replacement, head first. */
  lemma ReplacedHead(u: string, d: string)
    requires u != "" && d != ""
    ensures Escape(ReplaceAll(u, d, IMAGE_PATH))
         == if OccursAt(u, d, 0) then IMAGE_PATH + Escape(ReplaceAll(u[|d|..], d, IMAGE_PATH))
            else EscapedChar(u[0]) + Escape(ReplaceAll(u[1..], d, IMAGE_PATH))
  {
    hide EscapedChar;
    if OccursAt(u, d, 0) {
      EscapeConcat(IMAGE_PATH, ReplaceAll(u[|d|..], d, IMAGE_PATH));
      ImagePathIsPlain();
      EscapePlain(IMAGE_PATH);
    } else {
      var rest := ReplaceAll(u[1..], d, IMAGE_PATH);
      EscapeParts([u[0]] + rest);
      assert ([u[0]] + rest)[1..] == rest;
    }
  }

  /** Behind a backslash that stood for two, the escaped result lags behind and never catches up. */
  lemma {:induction false} LaggingDiffers(e: string, u: string, d: string, lag: nat)
    requires Printable(e) && Unescape(e) == Some(u) && d != "" && PlainText(d) && lag >= 1
    ensures Escape(ReplaceAll(u, d, IMAGE_PATH)) != Backslashes(lag) + e
    decreases |e|
  {
    hide OccursAt, Escape, ReplaceAll, EscapedChar;
    if u == "" {
      NothingReplaced(d);
    } else {
      ReplacedHead(u, d);
      assert (Backslashes(lag) + e)[0] == '\\';
      if OccursAt(u, d, 0) {
        assert IMAGE_PATH[0] == '/';
      } else {
        if e[0] != '\\' {
          PlainChar(e[0]);
        } else if e[1] == '\\' {
          PlainChar('\\');
          LaggingDiffers(e[2..], u[1..], d, lag + 1);
          assert e == ['\\', '\\'] + e[2..];
          MoreBackslashes(lag, e[2..], Escape(ReplaceAll(u[1..], d, IMAGE_PATH)));
        } else {
          EscapedControl(u[0], e[1]);
          assert (Backslashes(lag) + e)[1] == '\\';
        }
      }
    }
  }

  lemma NothingReplaced(d: string)
    ensures Escape(ReplaceAll("", d, IMAGE_PATH)) == ""
  {
  }

  lemma MoreBackslashes(lag: nat, rest: string, x: string)
    requires lag >= 1
    ensures ['\\'] + x == Backslashes(lag) + (['\\', '\\'] + rest) <==> x == Backslashes(lag + 1) + rest
  {
    var whole := Backslashes(lag) + (['\\', '\\'] + rest);
    assert whole == ['\\'] + (Backslashes(lag + 1) + rest);
    assert (['\\'] + x)[1..] == x && whole[1..] == Backslashes(lag + 1) + rest;
  }

  /** Replacing a device changes the escaped text, whatever escapes are in it. */
  lemma {:induction false} ReplacingChangesEscaped(e: string, u: string, d: string)
    requires Printable(e) && Unescape(e) == Some(u) && Contains(u, d)
    requires d != "" && PlainText(d) && !Contains(IMAGE_PATH, d) && !Contains(d, IMAGE_PATH)
    ensures Escape(ReplaceAll(u, d, IMAGE_PATH)) != e
    decreases |e|
  {
    hide Contains, OccursAt, Escape, ReplaceAll, EscapedChar;
    NotEmptyIfContained(u, d);
    ReplacedHead(u, d);
    if OccursAt(u, d, 0) {
      OccursFirst(u, d);
      PlainIsRaw(e, u, d);
      StartsAlike(e, d, IMAGE_PATH, Escape(ReplaceAll(u[|d|..], d, IMAGE_PATH)));
    } else {
      ContainedLater(u, d);
      var rest := ReplaceAll(u[1..], d, IMAGE_PATH);
      if e[0] != '\\' {
        PlainChar(e[0]);
        ReplacingChangesEscaped(e[1..], u[1..], d);
        assert e == [e[0]] + e[1..];
        SameFirst([e[0]], Escape(rest), e[1..]);
      } else if e[1] == '\\' {
        PlainChar('\\');
        LaggingDiffers(e[2..], u[1..], d, 1);
        assert e == ['\\'] + (Backslashes(1) + e[2..]);
        SameFirst(['\\'], Escape(rest), Backslashes(1) + e[2..]);
      } else {
        EscapedControl(u[0], e[1]);
        if e[1] == 'x' {
          HexDiffers(e, rest, u, d);
        } else {
          ReplacingChangesEscaped(e[2..], u[1..], d);
          assert e == ['\\', e[1]] + e[2..];
          SameFirst(['\\', e[1]], Escape(rest), e[2..]);
        }
      }
    }
  }

  lemma OccursFirst(u: string, d: string)
    requires OccursAt(u, d, 0)
    ensures d <= u
  {
  }

  lemma {:induction false} HexDiffers(e: string, rest: string, u: string, d: string)
    requires Printable(e) && Unescape(e) == Some(u) && |e| >= 4 && e[0] == '\\' && e[1] == 'x' && u != ""
    requires rest == ReplaceAll(u[1..], d, IMAGE_PATH) && Contains(u[1..], d)
    requires d != "" && PlainText(d) && !Contains(IMAGE_PATH, d) && !Contains(d, IMAGE_PATH)
    ensures EscapedChar(u[0]) + Escape(rest) != e
    decreases |e|, 0
  {
    hide Contains;
    assert u == [0 as char] + Unescape(e[4..]).value;
    assert u[1..] == Unescape(e[4..]).value;
    EscapedNul();
    ReplacingChangesEscaped(e[4..], u[1..], d);
    assert (EscapedChar(u[0]) + Escape(rest))[4..] == Escape(rest);
  }

  lemma EscapedNul()
    ensures EscapedChar(0 as char) == "\\x00"
  {
  }

  lemma SameFirst(a: string, x: string, y: string)
    ensures a + x == a + y <==> x == y
  {
    assert (a + x)[|a|..] == x && (a + y)[|a|..] == y;
  }

  lemma NotEmptyIfContained(u: string, d: string)
    requires d != "" && Contains(u, d)
    ensures u != ""
  {
  }

  lemma ImagePathIsPlain()
    ensures PlainText(IMAGE_PATH) && PlainText("system") && IMAGE_PATH != "system"
    ensures ReplaceAll("system", "system", IMAGE_PATH) == IMAGE_PATH
  {
    assert OccursAt("system", "system", 0);
    assert "system"[6..] == "";
    assert IMAGE_PATH + "" == IMAGE_PATH;
  }

  /** Editing an edited argument that triggers changes it. */
  lemma EditedAgainDiffers(w: string, bare: bool, devs: Devices)
    requires PlainDevices(devs.system) && Triggers(UnescapedString(Quoted(w)), bare, devs)
    ensures EditToken(Quoted(w), bare, devs) != Quoted(w)
  {
    hide UnescapedString, Contains, ReplaceAll, Escape;
    var e, u := Escape(w), UnescapedString(Quoted(w));
    EscapeIsPrintable(w);
    InsideQuotes(e);
    ImagePathIsPlain();
    if bare && u == "system" {
      PlainIsRaw(e, u, "system");
      EscapePlain(IMAGE_PATH);
      assert IMAGE_PATH[0] != "system"[0];
      QuotesDiffer(IMAGE_PATH, e);
    } else {
      ReplacedIfContained(u, devs.system);
      var k :| 0 <= k < |devs.system| && Contains(u, devs.system[k]) && DevicesReplaced(u, devs.system) == Some(ReplaceAll(u, devs.system[k], IMAGE_PATH));
      NotEmptyIfContained(u, devs.system[k]);
      ReplacingChangesEscaped(e, u, devs.system[k]);
      QuotesDiffer(Escape(ReplaceAll(u, devs.system[k], IMAGE_PATH)), e);
    }
  }

  /** An edited string settles exactly when it was not edited at all or its new text triggers no edit either. */
  lemma EditSettlesExactly(t: Token, bare: bool, devs: Devices)
    requires t.Str? && PlainDevices(devs.system)
    ensures EditToken(EditToken(t, bare, devs), bare, devs) == EditToken(t, bare, devs)
       <==> !Triggers(UnescapedString(t), bare, devs) || !Triggers(UnescapedString(EditToken(t, bare, devs)), bare, devs)
  {
    hide UnescapedString, Triggers, Quoted, NewText;
    var once := EditToken(t, bare, devs);
    if !Triggers(UnescapedString(t), bare, devs) {
      EditMisses(t, bare, devs);
    } else if !Triggers(UnescapedString(once), bare, devs) {
      EditMisses(once, bare, devs);
    } else {
      TriggeredIsEdited(UnescapedString(t), bare, devs);
      EditedAgainDiffers(NewText(UnescapedString(t), bare, devs).value, bare, devs);
    }
  }

  /** The same on the old argument: its new text, if any, must not denote a text that is edited in turn. */
  lemma EditSettlesOnText(t: Token, bare: bool, devs: Devices)
    requires t.Str? && PlainDevices(devs.system)
    ensures var w := NewText(UnescapedString(t), bare, devs);
            && (EditToken(EditToken(t, bare, devs), bare, devs) == EditToken(t, bare, devs)
                <==> (w.Some? ==> !Triggers(UnescapedString(Quoted(w.value)), bare, devs)))
            && (w.Some? && AllRoundTrip(w.value) ==> UnescapedString(Quoted(w.value)) == w.value)
  {
    hide UnescapedString, Triggers, Quoted, NewText, AllRoundTrip;
    var w := NewText(UnescapedString(t), bare, devs);
    EditSettlesExactly(t, bare, devs);
    TriggeredIsEdited(UnescapedString(t), bare, devs);
    if w.Some? {
      QuotedDenotes(w.value);
    }
  }

  lemma TriggeredIsEdited(u: string, bare: bool, devs: Devices)
    ensures NewText(u, bare, devs).Some? <==> Triggers(u, bare, devs)
  {
    hide DevicesReplaced, ContainsAny;
    ReplacedIfContained(u, devs.system);
  }

  const TWO_DEVICES := Devices(["X", "Y"], [], [])

  const TWO_IN_ONE := Str("\"XY\"", true)

  lemma FirstOfTwo()
    ensures UnescapedString(TWO_IN_ONE) == "XY"
    ensures EditToken(TWO_IN_ONE, false, TWO_DEVICES) == Quoted(IMAGE_PATH + "Y")
  {
    hide UnescapedString;
    QuotedPlain("XY");
    assert "\"" + "XY" + "\"" == "\"XY\"";
    assert OccursAt("XY", "X", 0);
    assert "XY"[1..] == "Y" && "Y"[1..] == "";
    if OccursAt("Y", "X", 0) {
      FirstOccurs("Y", "X");
      assert false;
    }
    assert ReplaceAll("Y", "X", IMAGE_PATH) == ['Y'] + ReplaceAll("", "X", IMAGE_PATH);
    assert ReplaceAll("XY", "X", IMAGE_PATH) == IMAGE_PATH + "Y";
  }

  /** Two devices in one argument: each pass replaces one of them. */
  lemma EditDoesNotSettle()
    ensures var once := EditToken(TWO_IN_ONE, false, TWO_DEVICES);
            EditToken(once, false, TWO_DEVICES) != once
  {
    hide UnescapedString, EditToken, Escape, ReplaceAll;
    FirstOfTwo();
    var w := IMAGE_PATH + "Y";
    EscapePlain(w);
    QuotedPlain(w);
    assert OccursAt(w, "Y", |IMAGE_PATH|);
    assert Contains(w, TWO_DEVICES.system[1]);
    assert OccursAt("XY", "X", 0) && Contains("XY", TWO_DEVICES.system[0]);
    NoPartInCommon();
    EditSettlesExactly(TWO_IN_ONE, false, TWO_DEVICES);
  }

  lemma NoPartInCommon()
    ensures PlainDevices(["X", "Y"])
  {
    NotContained(IMAGE_PATH, "X");
    NotContained(IMAGE_PATH, "Y");
    assert |IMAGE_PATH| > 1;
  }

  lemma NotContained(s: string, d: string)
    requires d != "" && d[0] !in s
    ensures !Contains(s, d)
  {
  }

  // ---------------------------------------------------------------------------
  // A script that never settles in one pass
  // ---------------------------------------------------------------------------

  /** format mount("/system") */
  function FormatMount(): (r: seq<Token>)
    ensures |r| == 6
  {
    [Str("format", false), Whitespace(" ")] + MountCall()
  }

  function MountCall(): (r: seq<Token>)
    ensures |r| == 4
  {
    [Str("mount", false), Key(LeftParen), Str(MountPoint(System), true), Key(RightParen)]
  }

  lemma MountCallIsReplaced(devs: Devices)
    ensures HeadOf(MountCall()).Called? && ActionOf(MountCall(), devs).Replace?
  {
    hide NextSignificant, Closing, MountPoint, PartitionOf, Unescape;
    var s := MountCall();
    NextSignificantIs(s, 1, 1);
    ClosingOfFlat(s, 2, 3);
    UnescapePlain("mount");
    MountPointNamesPartition(System, devs);
    assert ArgsOf(s) == [s[2]];
    SomeArgNamesPartition(ArgsOf(s), 0, devs);
  }

  /** The first pass puts an opening parenthesis behind the bare name, and the second one takes it for a call. */
  lemma SecondPassDiffers(devs: Devices)
    ensures Rewritten(Rewritten(FormatMount(), devs), devs) != Rewritten(FormatMount(), devs)
  {
    assert MountCall()[0] == Str("mount", false);
    hide Rewritten, MountCall, ActionFor, Captures, NextSignificant, Closing, Unescape;
    var s := FormatMount();
    MountCallIsReplaced(devs);
    NextSignificantIs(s, 1, 2);
    assert s[2..] == MountCall();
    UnescapePlain("format");
    var a := ActionOf(MountCall(), devs);
    FindersCapture("format", a.command, a.partition, devs);
    RewritingTwice(s, devs);
  }
}
