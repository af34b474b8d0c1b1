/** What rewriting a script keeps, and when rewriting it again changes nothing. */
module StandardPatcherLaws {
  import opened Bytes
  import opened EdifyTokenizer
  import opened StandardPatcher
  import opened StandardPatcherCalls

  // ---------------------------------------------------------------------------
  // Structure
  // ---------------------------------------------------------------------------

  /** How a token changes the parenthesis depth. */
  function Delta(t: Token): int {
    if t == Key(LeftParen) then 1 else if t == Key(RightParen) then -1 else 0
  }

  function Depth(s: seq<Token>): int {
    if s == [] then 0 else Delta(s[0]) + Depth(s[1..])
  }

  lemma {:induction false} DepthConcat(a: seq<Token>, b: seq<Token>)
    ensures Depth(a + b) == Depth(a) + Depth(b)
  {
    if a == [] {
      assert a + b == b;
    } else {
      DepthConcat(a[1..], b);
      assert (a + b)[1..] == a[1..] + b;
    }
  }

  /** One piece of a script, before and after. */
  datatype Piece = Piece(before: seq<Token>, after: seq<Token>)

  function Before(ps: seq<Piece>): seq<Token> {
    if ps == [] then [] else ps[0].before + Before(ps[1..])
  }

  function After(ps: seq<Piece>): seq<Token> {
    if ps == [] then [] else ps[0].after + After(ps[1..])
  }

  predicate Kept(p: Piece) {
    p.before == p.after && |p.before| == 1
  }

  const SPAN_NAMES: set<string> := {"mount", "unmount", "run_program", "delete_recursive", "format"}

  const EDIT_NAMES: set<string> := {"block_image_update", "package_extract_file", "range_sha1"}

  /** A whole call, from its name to the matching parenthesis at the end. */
  predicate IsWholeCall(s: seq<Token>) {
    && |s| >= 3 && s[0].Str?
    && var lp := NextSignificant(s, 1);
    && lp < |s| - 1 && s[lp] == Key(LeftParen)
    && Closing(s, lp + 1, 1) == Some(|s| - 1)
  }

  function CallName(s: seq<Token>): string
    requires IsWholeCall(s)
  {
    UnescapedString(s[0])
  }

  /** The tokens between the parentheses. */
  function CallArgs(s: seq<Token>): seq<Token>
    requires IsWholeCall(s)
  {
    s[NextSignificant(s, 1) + 1..|s| - 1]
  }

  /** A call of one of five names became the expression with the command and the mount point that its arguments ask for. */
  ghost predicate CallReplaced(p: Piece, devs: Devices) {
    && IsWholeCall(p.before) && CallName(p.before) in SPAN_NAMES
    && exists command, mount ::
         Becomes(CallName(p.before), CallArgs(p.before), devs, command, mount) && p.after == Expression(command, mount)
  }

  /** A call of one of the three editing names kept every token but its string arguments that name a system device. */
  ghost predicate CallEdited(p: Piece, devs: Devices) {
    && IsWholeCall(p.before) && CallName(p.before) in EDIT_NAMES
    && var lp := NextSignificant(p.before, 1);
    && |p.after| == |p.before|
    && forall k :: 0 <= k < |p.before| ==>
         if lp < k < |p.before| - 1 then ArgBecomes(p.before[k], CallName(p.before) == "block_image_update", devs, p.after[k])
         else p.after[k] == p.before[k]
  }

  ghost predicate Allowed(p: Piece, devs: Devices) {
    Kept(p) || CallEdited(p, devs) || CallReplaced(p, devs)
  }

  ghost predicate IsScript(ps: seq<Piece>, before: seq<Token>, after: seq<Token>, devs: Devices) {
    && Before(ps) == before && After(ps) == after
    && (forall i :: 0 <= i < |ps| ==> Allowed(ps[i], devs) && Depth(ps[i].before) == Depth(ps[i].after))
  }

  function Same(s: seq<Token>): (ps: seq<Piece>)
    ensures |ps| == |s| && forall i :: 0 <= i < |s| ==> ps[i] == Piece([s[i]], [s[i]])
  {
    seq(|s|, i requires 0 <= i < |s| => Piece([s[i]], [s[i]]))
  }

  lemma {:induction false} SameIsScript(s: seq<Token>, devs: Devices)
    ensures IsScript(Same(s), s, s, devs)
  {
    hide CallEdited, CallReplaced;
    if s != [] {
      SameIsScript(s[1..], devs);
      assert Same(s)[1..] == Same(s[1..]);
      assert s == [s[0]] + s[1..];
    }
  }

  lemma BeforeCons(p: Piece, ps: seq<Piece>)
    ensures Before([]) == [] && Before([p] + ps) == p.before + Before(ps)
  {
    assert ([p] + ps)[1..] == ps;
  }

  lemma {:induction false} BeforeConcat(ps: seq<Piece>, qs: seq<Piece>)
    ensures Before(ps + qs) == Before(ps) + Before(qs)
  {
    hide Before;
    if ps == [] {
      BeforeCons(Piece([], []), []);
      assert ps + qs == qs;
    } else {
      BeforeConcat(ps[1..], qs);
      BeforeCons(ps[0], ps[1..]);
      BeforeCons(ps[0], ps[1..] + qs);
      assert ps == [ps[0]] + ps[1..];
      assert ps + qs == [ps[0]] + (ps[1..] + qs);
    }
  }

  lemma AfterCons(p: Piece, ps: seq<Piece>)
    ensures After([]) == [] && After([p] + ps) == p.after + After(ps)
  {
    assert ([p] + ps)[1..] == ps;
  }

  lemma {:induction false} AfterConcat(ps: seq<Piece>, qs: seq<Piece>)
    ensures After(ps + qs) == After(ps) + After(qs)
  {
    hide After;
    if ps == [] {
      AfterCons(Piece([], []), []);
      assert ps + qs == qs;
    } else {
      AfterConcat(ps[1..], qs);
      AfterCons(ps[0], ps[1..]);
      AfterCons(ps[0], ps[1..] + qs);
      assert ps == [ps[0]] + ps[1..];
      assert ps + qs == [ps[0]] + (ps[1..] + qs);
    }
  }

  lemma ScriptConcat(ps: seq<Piece>, qs: seq<Piece>)
    ensures Before(ps + qs) == Before(ps) + Before(qs)
    ensures After(ps + qs) == After(ps) + After(qs)
  {
    BeforeConcat(ps, qs);
    AfterConcat(ps, qs);
  }

  lemma ScriptsConcat(ps: seq<Piece>, a: seq<Token>, a': seq<Token>, qs: seq<Piece>, b: seq<Token>, b': seq<Token>, devs: Devices)
    requires IsScript(ps, a, a', devs) && IsScript(qs, b, b', devs)
    ensures IsScript(ps + qs, a + b, a' + b', devs)
  {
    hide Allowed, Depth;
    ScriptConcat(ps, qs);
  }

  lemma SingleIsScript(p: Piece, devs: Devices)
    requires Allowed(p, devs) && Depth(p.before) == Depth(p.after)
    ensures IsScript([p], p.before, p.after, devs)
  {
    hide Allowed, Depth;
    assert [p] + [] == [p];
    BeforeCons(p, []);
    AfterCons(p, []);
  }

  lemma DepthOne(t: Token)
    ensures Depth([t]) == Delta(t)
  {
    assert [t][1..] == [];
  }

  lemma {:induction false} DepthToClosing(s: seq<Token>, i: nat, depth: nat, rp: nat)
    requires i <= |s| && depth >= 1 && Closing(s, i, depth) == Some(rp)
    ensures Depth(s[i..rp + 1]) + depth == 0
    decreases |s| - i
  {
    var span := s[i..rp + 1];
    assert span[0] == s[i] && span[1..] == s[i + 1..rp + 1];
    var deeper := depth + Delta(s[i]);
    if deeper >= 1 {
      DepthToClosing(s, i + 1, deeper, rp);
    } else {
      assert span[1..] == [];
    }
  }

  lemma {:induction false} DepthOfFlat(s: seq<Token>)
    requires forall k :: 0 <= k < |s| ==> Delta(s[k]) == 0
    ensures Depth(s) == 0
  {
    if s != [] {
      DepthOfFlat(s[1..]);
    }
  }

  lemma DepthOfCall(s: seq<Token>, lp: nat, rp: nat)
    requires 0 < lp < rp < |s| && s[0].Str? && s[lp] == Key(LeftParen)
    requires lp == NextSignificant(s, 1) && Closing(s, lp + 1, 1) == Some(rp)
    ensures Depth(s[..rp + 1]) == 0
  {
    hide Closing, NextSignificant;
    var flat, rest := s[..lp], s[lp + 1..rp + 1];
    DepthOfFlat(flat);
    DepthOne(s[lp]);
    DepthToClosing(s, lp + 1, 1, rp);
    DepthConcat([s[lp]], rest);
    DepthConcat(flat, [s[lp]] + rest);
    assert s[..rp + 1] == flat + ([s[lp]] + rest);
  }

  /** Tokens of which one opens and a later one closes a parenthesis. */
  lemma DepthOfPair(head: seq<Token>, inside: seq<Token>, tail: seq<Token>)
    ensures Depth(head + [Key(LeftParen)] + inside + [Key(RightParen)] + tail) == Depth(head) + Depth(inside) + Depth(tail)
  {
    hide Depth;
    DepthOne(Key(LeftParen));
    DepthOne(Key(RightParen));
    DepthConcat(head, [Key(LeftParen)]);
    DepthConcat(head + [Key(LeftParen)], inside);
    DepthConcat(head + [Key(LeftParen)] + inside, [Key(RightParen)]);
    DepthConcat(head + [Key(LeftParen)] + inside + [Key(RightParen)], tail);
  }

  lemma DepthOfGenerated(c: Command, p: Partition)
    ensures Depth(Generated(c, p)) == 0
  {
    hide Depth, CommandText, MountPoint;
    var g := GeneratedCall(c, p);
    var head, args, tail := g[..1], g[2..9], GeneratedTail()[..4];
    DepthOfFlat(head);
    DepthOfFlat(args);
    DepthOfFlat(tail);
    DepthOfFlat([]);
    DepthOfPair(head, args, tail);
    DepthOfPair([], head + [Key(LeftParen)] + args + [Key(RightParen)] + tail, []);
    assert g == head + [Key(LeftParen)] + args + [Key(RightParen)];
    assert GeneratedTail() == tail + [Key(RightParen)];
    assert Generated(c, p)
        == [] + [Key(LeftParen)] + (head + [Key(LeftParen)] + args + [Key(RightParen)] + tail) + [Key(RightParen)] + [];
  }

  lemma ActionNames(name: string, args: seq<Token>, devs: Devices)
    ensures ActionFor(name, args, devs).Replace? ==> name in SPAN_NAMES
    ensures ActionFor(name, args, devs).Edit? ==>
              name in EDIT_NAMES && (ActionFor(name, args, devs).bareSystem <==> name == "block_image_update")
  {
  }

  /** The span of a call, by itself. */
  lemma SpanIsWholeCall(s: seq<Token>, lp: nat, rp: nat)
    requires s != [] && CallAt(s, 0) && lp == NextSignificant(s, 1) && Closing(s, lp + 1, 1) == Some(rp)
    ensures var span := s[..rp + 1];
            IsWholeCall(span) && NextSignificant(span, 1) == lp && CallName(span) == UnescapedString(s[0])
            && CallArgs(span) == s[lp + 1..rp]
  {
    hide NextSignificant, Closing, UnescapedString;
    NextSignificantInPrefix(s, rp + 1, 1);
    ClosingInPrefix(s, rp + 1, lp + 1, 1);
  }

  /** The pieces of what one call becomes. */
  lemma CallIsScript(s: seq<Token>, lp: nat, rp: nat, devs: Devices) returns (ps: seq<Piece>)
    requires s != [] && CallAt(s, 0) && lp == NextSignificant(s, 1) && Closing(s, lp + 1, 1) == Some(rp)
    ensures var step := CallStep(s, lp, rp, devs);
            IsScript(ps, s[..step.consumed], step.output, devs)
  {
    hide ActionFor, Closing, NextSignificant, IsScript, EditArgs, Generated, UnescapedString;
    match ActionFor(UnescapedString(s[0]), s[lp + 1..rp], devs) {
      case NotHandled =>
        ps := Same(s[..1]);
        SameIsScript(s[..1], devs);
      case Leave =>
        ps := Same(s[..rp + 1]);
        SameIsScript(s[..rp + 1], devs);
      case Replace(c, p) =>
        ps := [Piece(s[..rp + 1], Generated(c, p))];
        ReplacedIsScript(s, lp, rp, c, p, devs);
      case Edit(bare) =>
        var after := s[..lp + 1] + EditArgs(s[lp + 1..rp], bare, devs) + [s[rp]];
        ps := [Piece(s[..rp + 1], after)];
        EditedIsScript(s, lp, rp, bare, devs);
    }
  }

  lemma ReplacedIsScript(s: seq<Token>, lp: nat, rp: nat, c: Command, p: Partition, devs: Devices)
    requires s != [] && CallAt(s, 0) && lp == NextSignificant(s, 1) && Closing(s, lp + 1, 1) == Some(rp)
    requires ActionFor(UnescapedString(s[0]), s[lp + 1..rp], devs) == Replace(c, p)
    ensures IsScript([Piece(s[..rp + 1], Generated(c, p))], s[..rp + 1], Generated(c, p), devs)
  {
    hide ActionFor, Closing, Generated, UnescapedString, Depth, NextSignificant, IsWholeCall, CallName, CallArgs, Becomes, Expression, Word, Point;
    DecisionIs(UnescapedString(s[0]), s[lp + 1..rp], devs, Word(c), Point(p));
    GeneratedIs(c, p);
    ActionNames(UnescapedString(s[0]), s[lp + 1..rp], devs);
    SpanIsWholeCall(s, lp, rp);
    DepthOfCall(s, lp, rp);
    DepthOfGenerated(c, p);
    SingleIsScript(Piece(s[..rp + 1], Generated(c, p)), devs);
  }

  lemma EditedIsScript(s: seq<Token>, lp: nat, rp: nat, bare: bool, devs: Devices)
    requires s != [] && CallAt(s, 0) && lp == NextSignificant(s, 1) && Closing(s, lp + 1, 1) == Some(rp)
    requires ActionFor(UnescapedString(s[0]), s[lp + 1..rp], devs) == Edit(bare)
    ensures var after := s[..lp + 1] + EditArgs(s[lp + 1..rp], bare, devs) + [s[rp]];
            IsScript([Piece(s[..rp + 1], after)], s[..rp + 1], after, devs)
  {
    hide ActionFor, Closing, UnescapedString, Depth, NextSignificant, IsWholeCall, CallName, CallArgs, EditToken, ArgBecomes, CallEdited;
    ActionNames(UnescapedString(s[0]), s[lp + 1..rp], devs);
    SpanIsWholeCall(s, lp, rp);
    var span, after := s[..rp + 1], s[..lp + 1] + EditArgs(s[lp + 1..rp], bare, devs) + [s[rp]];
    forall k | 0 <= k < |span|
      ensures after[k] == if lp < k < |span| - 1 then EditToken(span[k], bare, devs) else span[k]
    {
    }
    EditedIsAllowed(span, after, lp, devs);
    SameDepth(span, after, |span|);
    assert span[..|span|] == span && after[..|span|] == after;
    SingleIsScript(Piece(span, after), devs);
  }

  lemma EditedIsAllowed(span: seq<Token>, after: seq<Token>, lp: nat, devs: Devices)
    requires IsWholeCall(span) && CallName(span) in EDIT_NAMES && lp == NextSignificant(span, 1) && |after| == |span|
    requires forall k :: 0 <= k < |span| ==>
               after[k] == if lp < k < |span| - 1 then EditToken(span[k], CallName(span) == "block_image_update", devs) else span[k]
    ensures CallEdited(Piece(span, after), devs)
  {
    hide NextSignificant, IsWholeCall, CallName, EditToken, ArgBecomes;
    forall k | lp < k < |span| - 1 ensures ArgBecomes(span[k], CallName(span) == "block_image_update", devs, after[k]) {
      EditIs(span[k], CallName(span) == "block_image_update", devs, after[k]);
    }
  }

  /** Lists with the parentheses in the same places have the same depth everywhere. */
  lemma {:induction false} SameDepth(a: seq<Token>, b: seq<Token>, n: nat)
    requires n <= |a| == |b| && forall k :: 0 <= k < n ==> Delta(a[k]) == Delta(b[k])
    ensures Depth(a[..n]) == Depth(b[..n])
  {
    if n > 0 {
      SameDepth(a, b, n - 1);
      DepthOne(a[n - 1]);
      DepthOne(b[n - 1]);
      DepthConcat(a[..n - 1], [a[n - 1]]);
      DepthConcat(b[..n - 1], [b[n - 1]]);
      assert a[..n] == a[..n - 1] + [a[n - 1]] && b[..n] == b[..n - 1] + [b[n - 1]];
    }
  }

  /** Inside an edited call, too, every token stays at its depth. */
  lemma EditedCallDepth(p: Piece, devs: Devices, n: nat)
    requires CallEdited(p, devs) && n <= |p.before|
    ensures Depth(p.before[..n]) == Depth(p.after[..n])
  {
    hide NextSignificant, IsWholeCall, CallName, EditToken, Depth, ArgBecomes;
    forall k | 0 <= k < n ensures Delta(p.before[k]) == Delta(p.after[k]) {
      EditIs(p.before[k], CallName(p.before) == "block_image_update", devs, p.after[k]);
    }
    SameDepth(p.before, p.after, n);
  }

  lemma CallShape(s: seq<Token>)
    requires s != [] && CallAt(s, 0)
    ensures s[0].Str? && 0 < NextSignificant(s, 1) < |s|
  {
  }

  /** Rewriting keeps every token in order outside replaced and edited calls, each at its depth. */
  lemma {:induction false} RewritingIsScript(s: seq<Token>, devs: Devices) returns (ps: seq<Piece>)
    ensures IsScript(ps, s, Rewritten(s, devs), devs)
    decreases |s|
  {
    hide CallStep, CallAt, Closing, NextSignificant, IsScript;
    if s == [] {
      ps := [];
      SameIsScript([], devs);
    } else if !CallAt(s, 0) {
      ps := RewritingIsScript(s[1..], devs);
      SameIsScript(s[..1], devs);
      ScriptsConcat(Same(s[..1]), s[..1], s[..1], ps, s[1..], Rewritten(s[1..], devs), devs);
      NonCallStays(s, devs);
      assert s == s[..1] + s[1..];
      ps := Same(s[..1]) + ps;
    } else {
      CallShape(s);
      var lp := NextSignificant(s, 1);
      match Closing(s, lp + 1, 1) {
        case None =>
          ps := Same(s);
          SameIsScript(s, devs);
        case Some(rp) =>
          var step := CallStep(s, lp, rp, devs);
          var head := CallIsScript(s, lp, rp, devs);
          var rest := s[step.consumed..];
          ps := RewritingIsScript(rest, devs);
          ScriptsConcat(head, s[..step.consumed], step.output, ps, rest, Rewritten(rest, devs), devs);
          CallStays(s, lp, rp, devs);
          assert s == s[..step.consumed] + rest;
          ps := head + ps;
      }
    }
  }

  lemma {:induction false} DepthBeforePiece(ps: seq<Piece>)
    requires forall i :: 0 <= i < |ps| ==> Depth(ps[i].before) == Depth(ps[i].after)
    ensures Depth(Before(ps)) == Depth(After(ps))
  {
    if ps != [] {
      DepthBeforePiece(ps[1..]);
      DepthConcat(ps[0].before, Before(ps[1..]));
      DepthConcat(ps[0].after, After(ps[1..]));
    }
  }

  /** The pieces line up: whatever precedes the k-th one has the same depth before and after. */
  lemma StructurePreserved(s: seq<Token>, devs: Devices) returns (ps: seq<Piece>)
    ensures Before(ps) == s && After(ps) == Rewritten(s, devs)
    ensures forall i :: 0 <= i < |ps| ==> Allowed(ps[i], devs)
    ensures forall k :: 0 <= k <= |ps| ==> Depth(Before(ps[..k])) == Depth(After(ps[..k]))
  {
    hide Allowed, Depth;
    ps := RewritingIsScript(s, devs);
    forall k | 0 <= k <= |ps| ensures Depth(Before(ps[..k])) == Depth(After(ps[..k])) {
      DepthBeforePiece(ps[..k]);
    }
  }

  // ---------------------------------------------------------------------------
  // What every call becomes
  // ---------------------------------------------------------------------------

  /** A string, then whitespace, newlines and comments, then a left parenthesis. */
  predicate OpensCall(s: seq<Token>, lp: nat) {
    && 0 < lp < |s| && s[0].Str? && s[lp] == Key(LeftParen)
    && forall k :: 0 < k < lp ==> s[k].Whitespace? || s[k].Comment? || s[k] == Key(Newline)
  }

  /** The parenthesis at lp is closed at rp: in between, more are open than closed. */
  predicate ClosedAt(s: seq<Token>, lp: nat, rp: nat) {
    && lp < rp < |s| && s[rp] == Key(RightParen)
    && Depth(s[lp..rp + 1]) == 0 && forall k :: lp < k <= rp ==> Depth(s[lp..k]) >= 1
  }

  predicate NeverClosed(s: seq<Token>, lp: nat) {
    forall k :: lp < k <= |s| ==> lp < |s| && Depth(s[lp..k]) >= 1
  }

  lemma DepthNext(s: seq<Token>, lp: nat, k: nat)
    requires lp <= k < |s|
    ensures Depth(s[lp..k + 1]) == Depth(s[lp..k]) + Delta(s[k])
  {
    hide Depth;
    assert s[lp..k + 1] == s[lp..k] + [s[k]];
    DepthConcat(s[lp..k], [s[k]]);
    DepthOne(s[k]);
  }

  lemma {:induction false} ClosingIs(s: seq<Token>, lp: nat, i: nat, rp: nat)
    requires lp < i <= rp && ClosedAt(s, lp, rp)
    ensures Closing(s, i, Depth(s[lp..i])) == Some(rp)
    decreases rp - i
  {
    hide Depth;
    DepthNext(s, lp, i);
    if i < rp {
      ClosingIs(s, lp, i + 1, rp);
    }
  }

  lemma {:induction false} ClosingIsNever(s: seq<Token>, lp: nat, i: nat)
    requires lp < i <= |s| && NeverClosed(s, lp)
    ensures Closing(s, i, Depth(s[lp..i])) == None
    decreases |s| - i
  {
    hide Depth;
    if i < |s| {
      DepthNext(s, lp, i);
      ClosingIsNever(s, lp, i + 1);
    }
  }

  lemma {:induction false} SignificantIs(s: seq<Token>, i: nat, lp: nat)
    requires i <= lp < |s| && s[lp] == Key(LeftParen)
    requires forall k :: i <= k < lp ==> s[k].Whitespace? || s[k].Comment? || s[k] == Key(Newline)
    ensures NextSignificant(s, i) == lp
    decreases lp - i
  {
    if i < lp {
      SignificantIs(s, i + 1, lp);
    }
  }

  lemma OpenedIs(s: seq<Token>, lp: nat)
    requires OpensCall(s, lp)
    ensures CallAt(s, 0) && NextSignificant(s, 1) == lp && Depth(s[lp..lp + 1]) == 1
  {
    hide NextSignificant, Depth;
    SignificantIs(s, 1, lp);
    assert s[lp..lp + 1] == [s[lp]];
    DepthOne(s[lp]);
  }

  /**
   Every closed call: replaced by the expression it asks for, left alone if it asks for none, edited argument by argument,
   or, if its name means nothing, passed over token by token.
   */
  lemma CallBecomes(s: seq<Token>, lp: nat, rp: nat, devs: Devices)
    requires OpensCall(s, lp) && ClosedAt(s, lp, rp)
    ensures var name, args, rest := UnescapedString(s[0]), s[lp + 1..rp], s[rp + 1..];
            && (forall command, mount :: Becomes(name, args, devs, command, mount) ==>
                  Rewritten(s, devs) == Expression(command, mount) + Rewritten(rest, devs))
            && (name in {"mount", "unmount", "format", "run_program", "delete_recursive"}
                && (forall command, mount :: !Becomes(name, args, devs, command, mount)) ==>
                  Rewritten(s, devs) == s[..rp + 1] + Rewritten(rest, devs))
            && (name in {"block_image_update", "package_extract_file", "range_sha1"} ==>
                  exists edited: seq<Token> :: |edited| == |args|
                    && (forall k :: 0 <= k < |args| ==> ArgBecomes(args[k], name == "block_image_update", devs, edited[k]))
                    && Rewritten(s, devs) == s[..lp + 1] + edited + [Key(RightParen)] + Rewritten(rest, devs))
            && (name !in {"mount", "unmount", "format", "run_program", "delete_recursive",
                          "block_image_update", "package_extract_file", "range_sha1"} ==>
                  Rewritten(s, devs) == [s[0]] + Rewritten(s[1..], devs))
  {
    hide Rewritten, ActionFor, Closing, NextSignificant, Generated, UnescapedString, EditToken, ArgBecomes, Becomes, Expression, Word, Point, Depth;
    var name, args, rest := UnescapedString(s[0]), s[lp + 1..rp], s[rp + 1..];
    OpenedIs(s, lp);
    ClosingIs(s, lp, lp + 1, rp);
    CallStays(s, lp, rp, devs);
    var a := ActionFor(name, args, devs);
    ActionKinds(name, args, devs);
    forall command, mount
      ensures Becomes(name, args, devs, command, mount) <==> a.Replace? && command == Word(a.command) && mount == Point(a.partition)
    {
      DecisionIs(name, args, devs, command, mount);
    }
    match a {
      case NotHandled =>
        assert s[..1] == [s[0]];
      case Leave =>
      case Replace(c, p) =>
        GeneratedIs(c, p);
        assert Becomes(name, args, devs, Word(c), Point(p));
      case Edit(bare) =>
        var edited := EditArgs(args, bare, devs);
        forall k | 0 <= k < |args| ensures ArgBecomes(args[k], bare, devs, edited[k]) {
          EditIs(args[k], bare, devs, edited[k]);
        }
        assert |edited| == |args|;
    }
  }

  lemma ActionKinds(name: string, args: seq<Token>, devs: Devices)
    ensures var a := ActionFor(name, args, devs);
            && (name in SPAN_NAMES <==> a.Replace? || a.Leave?)
            && (name in EDIT_NAMES <==> a.Edit?)
            && (a.Edit? ==> (a.bareSystem <==> name == "block_image_update"))
  {
  }

  /** A call that is never closed ends the rewriting. */
  lemma OpenCallEndsIt(s: seq<Token>, lp: nat, devs: Devices)
    requires OpensCall(s, lp) && NeverClosed(s, lp)
    ensures Rewritten(s, devs) == s
  {
    hide Rewritten, Closing, NextSignificant, Depth;
    OpenedIs(s, lp);
    ClosingIsNever(s, lp, lp + 1);
    UnclosedCallStays(s, devs);
  }

  lemma CallOpens(s: seq<Token>)
    requires s != []
    ensures CallAt(s, 0) ==> OpensCall(s, NextSignificant(s, 1))
  {
  }

  /** A token that opens no call is copied. */
  lemma OthersAreCopied(s: seq<Token>, devs: Devices)
    requires s != [] && forall lp: nat :: !OpensCall(s, lp)
    ensures Rewritten(s, devs) == [s[0]] + Rewritten(s[1..], devs)
  {
    hide Rewritten, CallAt;
    CallOpens(s);
    NonCallStays(s, devs);
    assert s[..1] == [s[0]];
  }
}
