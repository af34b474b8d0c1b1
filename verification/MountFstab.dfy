/** Splitting lists of mount patterns. */
module MountFstab {

  /** strchr from a position: the next occurrence of c, or the length of the string. */
  function Find(s: string, from: nat, c: char): (r: nat)
    requires from <= |s|
    ensures from <= r <= |s|
    ensures forall k :: from <= k < r ==> s[k] != c
    ensures r < |s| ==> s[r] == c
    decreases |s| - from
  {
    if from == |s| || s[from] == c then from else Find(s, from + 1, c)
  }

  /** A comma in front of a slash. */
  predicate SplitsAt(s: string, k: int) {
    0 <= k < |s| - 1 && s[k] == ',' && s[k + 1] == '/'
  }

  predicate Unsplit(s: string) {
    forall k :: 0 <= k < |s| ==> !SplitsAt(s, k)
  }

  function Join(pieces: seq<string>): string {
    if pieces == [] then ""
    else if |pieces| == 1 then pieces[0]
    else pieces[0] + "," + Join(pieces[1..])
  }

  /** The pieces of a pattern list: cut at every comma in front of a slash and nowhere else. */
  predicate IsSplit(s: string, pieces: seq<string>) {
    && pieces != []
    && Join(pieces) == s
    && (forall i :: 0 <= i < |pieces| ==> Unsplit(pieces[i]))
    && (forall i :: 1 <= i < |pieces| ==> "/" <= pieces[i])
  }

  /** The inner scan: from one comma to the next until one is in front of a slash. */
  method FindSplit(s: string, begin: nat, comma: nat) returns (end: nat)
    requires begin <= |s| && comma == Find(s, begin, ',')
    ensures begin <= end <= |s| && (end < |s| ==> SplitsAt(s, end))
    ensures forall k :: begin <= k < end ==> !SplitsAt(s, k)
  {
    end := comma;
    while end < |s| && !(end + 1 < |s| && s[end + 1] == '/')
      invariant begin <= end <= |s| && (end < |s| ==> s[end] == ',')
      invariant forall k :: begin <= k < end ==> !SplitsAt(s, k)
      decreases |s| - end
    {
      end := Find(s, end + 1, ',');
    }
  }

  /** What the outer loop has split off so far. */
  predicate SplitSoFar(s: string, pieces: seq<string>, rest: string) {
    && Prefixed(pieces, rest) == s
    && (forall i :: 0 <= i < |pieces| ==> Unsplit(pieces[i]))
    && (forall i :: 1 <= i < |pieces| ==> "/" <= pieces[i])
    && (pieces != [] ==> "/" <= rest)
  }

  lemma SplitOff(s: string, pieces: seq<string>, begin: nat, end: nat)
    requires begin <= end < |s| && SplitSoFar(s, pieces, s[begin..]) && SplitsAt(s, end)
    requires forall k :: begin <= k < end ==> !SplitsAt(s, k)
    ensures SplitSoFar(s, pieces + [s[begin..end]], s[end + 1..])
  {
    hide Prefixed;
    PieceIsUnsplit(s, begin, end);
    PrefixedStep(pieces, s[begin..end], s[end + 1..]);
    assert s[begin..] == s[begin..end] + "," + s[end + 1..];
    assert pieces != [] ==> begin < end && s[begin..end][0] == '/';
  }

  lemma SplitDone(s: string, pieces: seq<string>, begin: nat)
    requires begin <= |s| && SplitSoFar(s, pieces, s[begin..])
    requires forall k :: begin <= k < |s| ==> !SplitsAt(s, k)
    ensures IsSplit(s, pieces + [s[begin..]])
  {
    hide Prefixed, Join;
    PieceIsUnsplit(s, begin, |s|);
    assert s[begin..|s|] == s[begin..];
    JoinAppended(pieces, s[begin..]);
  }

  method SplitPatterns(patterns: string) returns (result: seq<string>)
    ensures IsSplit(patterns, result)
  {
    assert patterns[0..] == patterns;
    assert SplitSoFar(patterns, [], patterns[0..]);
    hide SplitSoFar, IsSplit;
    result := [];
    var begin := 0;
    var end := Find(patterns, begin, ',');
    while end < |patterns|
      invariant 0 <= begin <= |patterns|
      invariant end == Find(patterns, begin, ',')
      invariant SplitSoFar(patterns, result, patterns[begin..])
      decreases |patterns| - begin
    {
      end := FindSplit(patterns, begin, end);
      if end < |patterns| {
        SplitOff(patterns, result, begin, end);
        result := result + [patterns[begin..end]];
        begin := end + 1;
      } else {
        break;
      }
      end := Find(patterns, begin, ',');
    }
    SplitDone(patterns, result, begin);
    result := result + [patterns[begin..]];
  }

  /** Pieces with a comma behind each, followed by the rest. */
  function Prefixed(pieces: seq<string>, rest: string): string {
    if pieces == [] then rest else pieces[0] + "," + Prefixed(pieces[1..], rest)
  }

  lemma {:induction false} PrefixedStep(pieces: seq<string>, piece: string, rest: string)
    ensures Prefixed(pieces + [piece], rest) == Prefixed(pieces, piece + "," + rest)
  {
    if pieces == [] {
      assert [piece][1..] == [];
    } else {
      PrefixedStep(pieces[1..], piece, rest);
      assert (pieces + [piece])[1..] == pieces[1..] + [piece];
    }
  }

  lemma {:induction false} JoinAppended(pieces: seq<string>, last: string)
    ensures Join(pieces + [last]) == Prefixed(pieces, last)
  {
    if pieces != [] {
      JoinAppended(pieces[1..], last);
      assert (pieces + [last])[1..] == pieces[1..] + [last];
    }
  }

  lemma PieceIsUnsplit(s: string, begin: nat, end: nat)
    requires begin <= end <= |s| && forall k :: begin <= k < end ==> !SplitsAt(s, k)
    ensures Unsplit(s[begin..end])
  {
    forall k ensures !SplitsAt(s[begin..end], k) {
      if SplitsAt(s[begin..end], k) {
        assert SplitsAt(s, begin + k);
      }
    }
  }

  /** Where the first piece ends is decided by the string alone. */
  lemma FirstPieceEnds(s: string, pieces: seq<string>)
    requires IsSplit(s, pieces)
    ensures if |pieces| == 1 then s == pieces[0] && Unsplit(s)
            else |pieces[0]| < |s| && SplitsAt(s, |pieces[0]|) && (forall k :: 0 <= k < |pieces[0]| ==> !SplitsAt(s, k))
                 && pieces[0] == s[..|pieces[0]|] && IsSplit(s[|pieces[0]| + 1..], pieces[1..])
  {
    if |pieces| > 1 {
      var first, rest := pieces[0], Join(pieces[1..]);
      assert s == first + "," + rest;
      assert s[|first| + 1..] == rest;
      assert pieces[1..][0] == pieces[1];
      assert "/" <= rest;
      forall k | 0 <= k < |first| ensures !SplitsAt(s, k) {
        if SplitsAt(s, k) {
          assert SplitsAt(first, k);
        }
      }
    }
  }

  /** There is only one way to split a list of patterns. */
  lemma {:induction false} SplitIsUnique(s: string, a: seq<string>, b: seq<string>)
    requires IsSplit(s, a) && IsSplit(s, b)
    ensures a == b
    decreases |a|
  {
    FirstPieceEnds(s, a);
    FirstPieceEnds(s, b);
    if |a| > 1 && |b| > 1 {
      assert |a[0]| == |b[0]|;
      SplitIsUnique(s[|a[0]| + 1..], a[1..], b[1..]);
      assert a == [a[0]] + a[1..] && b == [b[0]] + b[1..];
    }
  }

  // ---------------------------------------------------------------------------
  // Which lists split into which pieces
  // ---------------------------------------------------------------------------

  /** A part without commas is one piece. */
  lemma OnePiece(part: string)
    requires ',' !in part
    ensures IsSplit(part, [part])
  {
  }

  /** Behind a comma, a part that starts with a slash is a piece of its own, and any other part belongs to the last piece. */
  lemma OneMorePart(s: string, pieces: seq<string>, last: string, part: string)
    requires IsSplit(s, pieces + [last]) && ',' !in part
    ensures if part != "" && part[0] == '/' then IsSplit(s + "," + part, pieces + [last] + [part])
            else IsSplit(s + "," + part, pieces + [last + "," + part])
  {
    hide Join, Unsplit;
    JoinAppended(pieces, last);
    var all := pieces + [last];
    assert all[|pieces|] == last;
    if part != "" && part[0] == '/' {
      JoinAppended(all, part);
      PrefixedStep(pieces, last, part);
      PrefixedTail(pieces, last, "," + part);
      NoCommaUnsplit(part);
      assert last + "," + part == last + ("," + part);
      assert s + "," + part == s + ("," + part);
    } else {
      JoinAppended(pieces, last + "," + part);
      PrefixedTail(pieces, last, "," + part);
      assert last + "," + part == last + ("," + part);
      assert s + "," + part == s + ("," + part);
      LastGrows(last, part);
      var grown := pieces + [last + "," + part];
      forall i | 0 <= i < |grown| ensures Unsplit(grown[i]) && (i >= 1 ==> "/" <= grown[i]) {
        if i < |pieces| {
          assert grown[i] == all[i];
        }
      }
    }
  }

  lemma {:induction false} PrefixedTail(pieces: seq<string>, rest: string, tail: string)
    ensures Prefixed(pieces, rest + tail) == Prefixed(pieces, rest) + tail
  {
    if pieces != [] {
      PrefixedTail(pieces[1..], rest, tail);
    }
  }

  lemma NoCommaUnsplit(part: string)
    requires ',' !in part
    ensures Unsplit(part)
  {
  }

  lemma LastGrows(last: string, part: string)
    requires Unsplit(last) && ',' !in part && !(part != "" && part[0] == '/')
    ensures Unsplit(last + "," + part) && ("/" <= last ==> "/" <= last + "," + part)
  {
    var s := last + "," + part;
    forall k | 0 <= k < |s| ensures !SplitsAt(s, k) {
      if k + 1 < |last| {
        assert SplitsAt(s, k) ==> SplitsAt(last, k);
      } else if k + 1 == |last| {
        assert s[k + 1] == ',';
      } else if k == |last| {
        assert part != "" ==> s[k + 1] == part[0];
      } else {
        assert s[k] == part[k - |last| - 1];
      }
    }
  }
}
