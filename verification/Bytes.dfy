/** Bytes, little-endian words and the bit masks the boot image code uses for page alignment. */
module Bytes {

  type byte = x: int | 0 <= x < 256
  type bytes = seq<byte>
  type u32 = x: int | 0 <= x < 0x1_0000_0000
  type u16 = x: int | 0 <= x < 0x1_0000

  const U32_LIMIT := 0x1_0000_0000

  /** The value an unsigned 32-bit variable holds after being assigned x. */
  function Wrap32(x: int): u32 {
    if 0 <= x < 0x1_0000_0000 then x else x % 0x1_0000_0000
  }

  function Zeros(n: nat): (r: bytes)
    ensures |r| == n && forall i :: 0 <= i < n ==> r[i] == 0
  {
    seq(n, _ => 0)
  }

  /** std::vector::resize: truncate, or extend with zeros. */
  function Resize(s: bytes, n: nat): (r: bytes)
    ensures |r| == n
  {
    if |s| >= n then s[..n] else s + Zeros(n - |s|)
  }

  /** memcpy into the middle of a buffer. */
  function Overwrite(s: bytes, at: nat, patch: bytes): (r: bytes)
    requires at + |patch| <= |s|
    ensures |r| == |s|
    ensures r[..at] == s[..at] && r[at..at + |patch|] == patch && r[at + |patch|..] == s[at + |patch|..]
  {
    s[..at] + patch + s[at + |patch|..]
  }

  /** memcmp(&s[at], pattern, |pattern|) == 0. */
  predicate MatchesAt(s: bytes, at: nat, pattern: bytes)
    requires at + |pattern| <= |s|
  {
    s[at..at + |pattern|] == pattern
  }

  datatype Option<+T> = None | Some(value: T)

  /** The first index in [from, until) where the pattern occurs. */
  function FindFirst(s: bytes, pattern: bytes, from: nat, until: nat): (r: Option<nat>)
    requires from <= until && (from < until ==> until + |pattern| <= |s| + 1)
    ensures r.Some? ==> from <= r.value < until && MatchesAt(s, r.value, pattern)
    ensures r.Some? ==> forall k :: from <= k < r.value ==> !MatchesAt(s, k, pattern)
    ensures r.None? ==> forall k :: from <= k < until ==> !MatchesAt(s, k, pattern)
    decreases until - from
  {
    if from == until then None
    else if MatchesAt(s, from, pattern) then Some(from)
    else FindFirst(s, pattern, from + 1, until)
  }

  /** A mutable byte buffer that callers pass by pointer (std::vector<unsigned char> *). */
  class ByteVector {
    var bytes: bytes

    constructor ()
      ensures bytes == []
    {
      bytes := [];
    }
  }

  // ---------------------------------------------------------------------------
  // Little-endian words
  // ---------------------------------------------------------------------------

  function U32Bytes(x: u32): (r: bytes)
    ensures |r| == 4
  {
    [x % 256, x / 256 % 256, x / 65536 % 256, x / 16777216]
  }

  function U32At(s: bytes, at: nat): u32
    requires at + 4 <= |s|
  {
    s[at] as int + 256 * (s[at + 1] as int) + 65536 * (s[at + 2] as int) + 16777216 * (s[at + 3] as int)
  }

  function U16Bytes(x: u16): (r: bytes)
    ensures |r| == 2
  {
    [x % 256, x / 256]
  }

  function U16At(s: bytes, at: nat): u16
    requires at + 2 <= |s|
  {
    s[at] as int + 256 * (s[at + 1] as int)
  }

  lemma U32RoundTrip(x: u32)
    ensures U32At(U32Bytes(x), 0) == x
  {
    assert x == x % 256 + 256 * (x / 256);
    assert x / 256 == x / 256 % 256 + 256 * (x / 256 / 256);
    assert x / 256 / 256 == x / 65536;
    assert x / 65536 == x / 65536 % 256 + 256 * (x / 65536 / 256);
    assert x / 65536 / 256 == x / 16777216;
  }

  lemma U16RoundTrip(x: u16)
    ensures U16At(U16Bytes(x), 0) == x
  {
  }

  lemma DigitsOfWord(a: byte, b: byte, c: byte, d: byte)
    ensures var x := a as int + 256 * (b as int) + 65536 * (c as int) + 16777216 * (d as int);
            x % 256 == a && x / 256 % 256 == b && x / 65536 % 256 == c && x / 16777216 == d
  {
    var hi: int := c as int + 256 * (d as int);
    var mid: int := b as int + 256 * hi;
    var x: int := a as int + 256 * mid;
    assert x / 256 == mid && x % 256 == a;
    assert mid / 256 == hi && mid % 256 == b;
    assert hi / 256 == d && hi % 256 == c;
    assert x / 65536 == x / 256 / 256;
    assert x / 16777216 == x / 256 / 256 / 256;
  }

  /** Every four bytes encode some word. */
  lemma U32BytesOfU32At(s: bytes, at: nat)
    requires at + 4 <= |s|
    ensures U32Bytes(U32At(s, at)) == s[at..at + 4]
  {
    DigitsOfWord(s[at], s[at + 1], s[at + 2], s[at + 3]);
  }

  /** Reading a word only depends on the four bytes it occupies. */
  lemma U32AtSlice(s: bytes, at: nat, t: bytes, bt: nat)
    requires at + 4 <= |s| && bt + 4 <= |t|
    requires s[at..at + 4] == t[bt..bt + 4]
    ensures U32At(s, at) == U32At(t, bt)
  {
    assert s[at..at + 4][0] == t[bt..bt + 4][0];
    assert s[at..at + 4][1] == t[bt..bt + 4][1];
    assert s[at..at + 4][2] == t[bt..bt + 4][2];
    assert s[at..at + 4][3] == t[bt..bt + 4][3];
  }

  lemma WordIs(data: bytes, at: nat, x: u32)
    requires at + 4 <= |data| && data[at..at + 4] == U32Bytes(x)
    ensures U32At(data, at) == x
  {
    hide U32At, U32Bytes;
    U32RoundTrip(x);
    assert U32Bytes(x)[0..4] == U32Bytes(x);
    U32AtSlice(data, at, U32Bytes(x), 0);
  }

  /** Store a word in place. */
  function PutU32(s: bytes, at: nat, x: u32): (r: bytes)
    requires at + 4 <= |s|
    ensures |r| == |s|
  {
    Overwrite(s, at, U32Bytes(x))
  }

  lemma ReadBackWord(s: bytes, at: nat, x: u32)
    requires at + 4 <= |s|
    ensures U32At(PutU32(s, at, x), at) == x
  {
    U32RoundTrip(x);
    U32AtSlice(PutU32(s, at, x), at, U32Bytes(x), 0);
  }

  lemma ReadBeside(s: bytes, at: nat, x: u32, other: nat)
    requires at + 4 <= |s| && other + 4 <= |s|
    requires other + 4 <= at || at + 4 <= other
    ensures U32At(PutU32(s, at, x), other) == U32At(s, other)
  {
  }

  /** Consecutive words. */
  function WordsBytes(ws: seq<u32>): (r: bytes)
    ensures |r| == 4 * |ws|
  {
    if ws == [] then [] else U32Bytes(ws[0]) + WordsBytes(ws[1..])
  }

  lemma {:induction false} WordInPlace(pre: bytes, ws: seq<u32>, post: bytes, k: nat)
    requires k < |ws|
    ensures U32At(pre + WordsBytes(ws) + post, |pre| + 4 * k) == ws[k]
    decreases k
  {
    var s := pre + WordsBytes(ws) + post;
    if k == 0 {
      U32RoundTrip(ws[0]);
      assert s[|pre|..|pre| + 4] == U32Bytes(ws[0]);
      U32AtSlice(s, |pre|, U32Bytes(ws[0]), 0);
    } else {
      WordInPlace(pre + U32Bytes(ws[0]), ws[1..], post, k - 1);
      assert s == pre + U32Bytes(ws[0]) + WordsBytes(ws[1..]) + post;
    }
  }

  // ---------------------------------------------------------------------------
  // Slices of concatenations
  // ---------------------------------------------------------------------------

  lemma SliceOfConcat(a: bytes, b: bytes, c: bytes)
    ensures (a + b + c)[|a|..|a| + |b|] == b
  {
  }

  lemma SliceOfSlice(s: bytes, a: nat, b: nat, i: nat, j: nat)
    requires a <= b <= |s| && i <= j <= b - a
    ensures s[a..b][i..j] == s[a + i..a + j]
  {
    var t := s[a..b];
    assert forall k :: i <= k < j ==> t[k] == s[a + k];
  }

  // ---------------------------------------------------------------------------
  // Bit masks
  // ---------------------------------------------------------------------------

  /** Bitwise AND. */
  function And(x: nat, y: nat): (r: nat)
    ensures r <= x && r <= y
    decreases x, y
  {
    if x == 0 || y == 0 then 0
    else 2 * And(x / 2, y / 2) + (if x % 2 == 1 && y % 2 == 1 then 1 else 0)
  }

  function Pow2(k: nat): (r: nat)
    ensures r > 0
  {
    if k == 0 then 1 else 2 * Pow2(k - 1)
  }

  /** Quotient and remainder are determined by the division equation. */
  lemma DivModUnique(x: int, d: int, q: int, r: int)
    requires d > 0 && 0 <= r < d && x == q * d + r
    ensures x / d == q && x % d == r
  {
    var e := x / d - q;
    assert e * d == r - x % d;
    if e >= 1 {
      MulMono(1, e, d);
    } else if e <= -1 {
      MulMono(e, -1, d);
    }
  }

  lemma MulMono(a: int, b: int, d: int)
    requires a <= b && d >= 0
    ensures a * d <= b * d
  {
  }

  lemma HalvedRemainder(x: nat, p: nat)
    requires p > 0
    ensures 2 * (x / 2 % p) + x % 2 == x % (2 * p)
  {
    var q, r := x / 2 / p, x / 2 % p;
    assert x / 2 == q * p + r;
    assert x == 2 * (x / 2) + x % 2;
    assert 2 * (q * p) == q * (2 * p);
    DivModUnique(x, 2 * p, q, 2 * r + x % 2);
  }

  /** Masking with 2^k - 1 is the remainder modulo 2^k. */
  lemma {:induction false} AndLowMask(x: nat, k: nat)
    ensures And(x, Pow2(k) - 1) == x % Pow2(k)
    decreases k
  {
    if k == 0 {
    } else {
      var p := Pow2(k - 1);
      AndLowMask(x / 2, k - 1);
      HalvedRemainder(x, p);
      var m := 2 * p - 1;
      assert m / 2 == p - 1 && m % 2 == 1;
      assert Pow2(k) - 1 == m;
      if x != 0 {
        assert And(x, m) == 2 * And(x / 2, p - 1) + x % 2;
      }
    }
  }

  /** A mask and its complement split the bits of x between them. */
  lemma {:induction false} AndComplement(x: nat, y: nat, n: nat)
    requires x < Pow2(n) && y < Pow2(n)
    ensures And(x, y) + And(x, Pow2(n) - 1 - y) == x
    decreases n
  {
    if n == 0 || x == 0 {
    } else {
      var p := Pow2(n - 1);
      AndComplement(x / 2, y / 2, n - 1);
      assert (2 * p - 1 - y) / 2 == p - 1 - y / 2;
      assert (2 * p - 1 - y) % 2 == 1 - y % 2;
    }
  }

  // ---------------------------------------------------------------------------
  // Page sizes and padding
  // ---------------------------------------------------------------------------

  /** The distance from x to the next multiple of p. */
  function Gap(x: nat, p: nat): (r: nat)
    requires p > 0
    ensures r < p
  {
    if x % p == 0 then 0 else p - x % p
  }

  lemma GapReachesMultiple(x: nat, p: nat)
    requires p > 0
    ensures (x + Gap(x, p)) % p == 0
  {
    if x % p != 0 {
      assert x + (p - x % p) == (x / p + 1) * p;
      DivModUnique(x + (p - x % p), p, x / p + 1, 0);
    }
  }

  /** x & (p - 1) for a page size p. */
  lemma AndPageMask(x: nat, p: int)
    requires ValidPageSize(p)
    ensures And(x, p - 1) == x % p
  {
    PageIsPow2(p);
    AndLowMask(x, PageShift(p));
  }

  /** x & ~(p - 1) for a 32-bit x and a page size p. */
  lemma AndNotPageMask(x: u32, p: int)
    requires ValidPageSize(p)
    ensures And(x, 0xffff_ffff - (p - 1)) == x - x % p
  {
    Pow2Of32();
    AndPageMask(x, p);
    AndComplement(x, p - 1, 32);
  }

  /** The page sizes the Android-based formats accept. */
  predicate ValidPageSize(p: int) {
    p == 2048 || p == 4096 || p == 8192 || p == 16384 || p == 32768 || p == 65536 || p == 131072
  }

  /** These are the powers of two from 2^11 to 2^17. */
  lemma PageSizesArePowers(p: int)
    ensures ValidPageSize(p) <==> exists k :: 11 <= k <= 17 && p == Pow2(k)
  {
    assert Pow2(5) == 32;
    assert Pow2(10) == 1024;
    assert Pow2(11) == 2048 && Pow2(12) == 4096 && Pow2(13) == 8192;
    assert Pow2(14) == 16384 && Pow2(15) == 32768 && Pow2(16) == 65536 && Pow2(17) == 131072;
  }

  function PageShift(p: int): (k: nat)
    requires ValidPageSize(p)
    ensures 11 <= k <= 17
  {
    if p == 2048 then 11 else if p == 4096 then 12 else if p == 8192 then 13
    else if p == 16384 then 14 else if p == 32768 then 15 else if p == 65536 then 16 else 17
  }

  lemma PageIsPow2(p: int)
    requires ValidPageSize(p)
    ensures Pow2(PageShift(p)) == p
  {
    assert Pow2(5) == 32;
    assert Pow2(10) == 1024;
    assert Pow2(15) == 32768;
  }

  lemma Pow2Of32()
    ensures Pow2(32) == 0x1_0000_0000
  {
    assert Pow2(8) == 256;
    assert Pow2(16) == 65536;
    assert Pow2(24) == 16777216;
  }
}
