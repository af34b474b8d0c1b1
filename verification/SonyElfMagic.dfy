/** Where an Android magic can turn up in a created Sony image. */
module SonyElfMagic {
  import opened Bytes
  import opened Intermediate
  import opened AndroidFormat
  import opened SonyElfFormat

  // The two halves of the magic as little-endian words
  const MAGIC_START := 0x5244_4e41 // "ANDR"
  const MAGIC_END := 0x2144_494f // "OID!"

  /** No Android magic where the search for it looks. */
  predicate NoAndroidMagic(data: bytes)
    requires |data| >= SEARCH_RANGE + |BOOT_MAGIC|
  {
    forall i :: 0 <= i <= SEARCH_RANGE ==> !MatchesAt(data, i, BOOT_MAGIC)
  }

  // ---------------------------------------------------------------------------
  // One program header
  // ---------------------------------------------------------------------------

  /** The magic in offset and address of a program header, or in its address and size. */
  predicate SegmentPasses(s: Segment, offset: nat) {
    || (Wrap32(offset) == MAGIC_START && s.addr == MAGIC_END)
    || (s.addr == MAGIC_START && Wrap32(|s.body|) == MAGIC_END)
  }

  lemma MagicBytes(data: bytes, k: nat)
    requires k + |BOOT_MAGIC| <= |data|
    ensures MatchesAt(data, k, BOOT_MAGIC) <==>
            && data[k] == 0x41 && data[k + 1] == 0x4e && data[k + 2] == 0x44 && data[k + 3] == 0x52
            && data[k + 4] == 0x4f && data[k + 5] == 0x49 && data[k + 6] == 0x44 && data[k + 7] == 0x21
  {
    assert data[k..k + 8] == [data[k], data[k + 1], data[k + 2], data[k + 3], data[k + 4], data[k + 5], data[k + 6], data[k + 7]];
  }

  lemma ZeroBreaksMagic(data: bytes, k: nat, i: nat)
    requires k + |BOOT_MAGIC| <= |data| && k <= i < k + |BOOT_MAGIC| && data[i] == 0
    ensures !MatchesAt(data, k, BOOT_MAGIC)
  {
    MagicBytes(data, k);
  }

  /** The bytes of the magic are those of its two words. */
  lemma MagicWords(data: bytes, k: nat)
    requires k + |BOOT_MAGIC| <= |data|
    ensures MatchesAt(data, k, BOOT_MAGIC) <==> U32At(data, k) == MAGIC_START && U32At(data, k + 4) == MAGIC_END
  {
    MagicBytes(data, k);
    DigitsOfWord(data[k], data[k + 1], data[k + 2], data[k + 3]);
    DigitsOfWord(data[k + 4], data[k + 5], data[k + 6], data[k + 7]);
  }

  /** A program header as bytes: small numbers, and address and size each twice. */
  predicate PhdrShape(data: bytes, b: nat)
    requires b + PHDR_SIZE <= |data|
  {
    && data[b + 3] == 0 && data[b + 24] == 0
    && data[b + 28] == 0 && data[b + 29] == 0 && data[b + 30] == 0 && data[b + 31] == 0
    && data[b + 8] == data[b + 12] && data[b + 9] == data[b + 13] && data[b + 10] == data[b + 14] && data[b + 11] == data[b + 15]
    && data[b + 16] == data[b + 20] && data[b + 17] == data[b + 21]
  }

  lemma SameWords(data: bytes, a: nat, b: nat)
    requires a + 4 <= |data| && b + 4 <= |data| && U32At(data, a) == U32At(data, b)
    ensures data[a] == data[b] && data[a + 1] == data[b + 1] && data[a + 2] == data[b + 2] && data[a + 3] == data[b + 3]
  {
    DigitsOfWord(data[a], data[a + 1], data[a + 2], data[a + 3]);
    DigitsOfWord(data[b], data[b + 1], data[b + 2], data[b + 3]);
  }

  lemma PhdrHasShape(data: bytes, b: nat, s: Segment, offset: nat)
    requires b + PHDR_SIZE <= |data| && data[b..b + PHDR_SIZE] == PhdrBytes(s, offset)
    ensures PhdrShape(data, b)
    ensures U32At(data, b + 4) == Wrap32(offset) && U32At(data, b + 8) == s.addr
            && U32At(data, b + 12) == s.addr && U32At(data, b + 16) == Wrap32(|s.body|)
  {
    AllPhdrFields(data, b, s, offset);
    var w := PhdrWords(s, offset);
    SameWords(data, b + 8, b + 12);
    SameWords(data, b + 16, b + 20);
    assert w[0] < 0x100 && w[6] % 256 == 0 && w[7] == 0;
    DigitsOfWord(data[b], data[b + 1], data[b + 2], data[b + 3]);
    DigitsOfWord(data[b + 24], data[b + 25], data[b + 26], data[b + 27]);
    DigitsOfWord(data[b + 28], data[b + 29], data[b + 30], data[b + 31]);
  }

  /** Only at two places of a program header is there room for the magic. */
  lemma MagicInShape(data: bytes, b: nat, k: nat)
    requires b + PHDR_SIZE + |BOOT_MAGIC| <= |data| && PhdrShape(data, b) && b <= k < b + PHDR_SIZE
    ensures MatchesAt(data, k, BOOT_MAGIC) ==> k == b + 4 || k == b + 12
  {
    hide MatchesAt;
    MagicBytes(data, k);
    if k <= b + 3 {
      ZeroBreaksMagic(data, k, b + 3);
    } else if b + 17 <= k <= b + 24 {
      ZeroBreaksMagic(data, k, b + 24);
    } else if b + 24 < k {
      ZeroBreaksMagic(data, k, if k <= b + 28 then b + 28 else k);
    } else if MatchesAt(data, k, BOOT_MAGIC) && k != b + 4 && k != b + 12 {
      RepeatBreaksMagic(data, b, k);
      assert false;
    }
  }

  /** A word that is repeated does not fit the magic. */
  lemma RepeatBreaksMagic(data: bytes, b: nat, k: nat)
    requires b + PHDR_SIZE <= |data| && PhdrShape(data, b) && b + 5 <= k <= b + 16 && k != b + 12
    ensures !MatchesAt(data, k, BOOT_MAGIC)
  {
    hide MatchesAt;
    MagicBytes(data, k);
    assert k in {b + 5, b + 6, b + 7, b + 8, b + 9, b + 10, b + 11, b + 13, b + 14, b + 15, b + 16};
  }

  lemma MagicInPhdr(data: bytes, b: nat, s: Segment, offset: nat)
    requires b + PHDR_SIZE + |BOOT_MAGIC| <= |data| && data[b..b + PHDR_SIZE] == PhdrBytes(s, offset)
    ensures forall k :: b <= k < b + PHDR_SIZE && MatchesAt(data, k, BOOT_MAGIC) ==> SegmentPasses(s, offset)
    ensures SegmentPasses(s, offset) ==> MatchesAt(data, b + 4, BOOT_MAGIC) || MatchesAt(data, b + 12, BOOT_MAGIC)
  {
    hide MatchesAt, U32At, PhdrShape, PhdrBytes;
    PhdrHasShape(data, b, s, offset);
    MagicWords(data, b + 4);
    MagicWords(data, b + 12);
    forall k | b <= k < b + PHDR_SIZE && MatchesAt(data, k, BOOT_MAGIC) ensures SegmentPasses(s, offset) {
      MagicInShape(data, b, k);
    }
  }

  // ---------------------------------------------------------------------------
  // The table
  // ---------------------------------------------------------------------------

  /** Some program header passes for the magic. */
  predicate TablePasses(segments: seq<Segment>, offset: nat) {
    segments != [] && (SegmentPasses(segments[0], offset) || TablePasses(segments[1..], offset + |segments[0].body|))
  }

  predicate MagicBetween(data: bytes, from: nat, until: nat)
    requires until + |BOOT_MAGIC| <= |data| + 1
  {
    exists k :: from <= k < until && MatchesAt(data, k, BOOT_MAGIC)
  }

  lemma {:induction false} MagicInTable(data: bytes, b: nat, segments: seq<Segment>, offset: nat)
    requires b + PHDR_SIZE * |segments| + |BOOT_MAGIC| <= |data|
    requires data[b..b + PHDR_SIZE * |segments|] == PhdrTable(segments, offset)
    ensures MagicBetween(data, b, b + PHDR_SIZE * |segments|) <==> TablePasses(segments, offset)
    decreases |segments|
  {
    hide MatchesAt, PhdrBytes, SegmentPasses;
    if segments != [] {
      var s, rest := segments[0], segments[1..];
      var next, end := b + PHDR_SIZE, b + PHDR_SIZE * |segments|;
      var table := PhdrTable(segments, offset);
      SliceOfSlice(data, b, end, 0, PHDR_SIZE);
      SliceOfSlice(data, b, end, PHDR_SIZE, end - b);
      assert table[0..PHDR_SIZE] == PhdrBytes(s, offset);
      assert table[PHDR_SIZE..end - b] == PhdrTable(rest, offset + |s.body|);
      MagicInPhdr(data, b, s, offset);
      MagicInTable(data, next, rest, offset + |s.body|);
      BetweenSplits(data, b, next, end);
    }
  }

  lemma BetweenSplits(data: bytes, a: nat, b: nat, c: nat)
    requires a <= b <= c && c + |BOOT_MAGIC| <= |data| + 1
    ensures MagicBetween(data, a, c) <==> MagicBetween(data, a, b) || MagicBetween(data, b, c)
  {
    hide MatchesAt;
  }

  // ---------------------------------------------------------------------------
  // The whole header area
  // ---------------------------------------------------------------------------

  lemma EhdrZeros(entry: u32, phnum: u16)
    ensures var e := EhdrBytes(entry, phnum);
            && e[0] == 0x7f && e[8] == 0 && e[15] == 0 && e[23] == 0 && e[31] == 0 && e[39] == 0 && e[47] == 0 && e[51] == 0
  {
  }

  lemma NoMagicInEhdr(data: bytes, entry: u32, phnum: u16, k: nat)
    requires EHDR_SIZE + |BOOT_MAGIC| <= |data| && data[..EHDR_SIZE] == EhdrBytes(entry, phnum) && k < EHDR_SIZE
    ensures !MatchesAt(data, k, BOOT_MAGIC)
  {
    hide MatchesAt, EhdrBytes;
    EhdrZeros(entry, phnum);
    var e := EhdrBytes(entry, phnum);
    assert forall j :: 0 <= j < EHDR_SIZE ==> data[j] == data[..EHDR_SIZE][j];
    if k == 0 {
      MagicBytes(data, 0);
    } else {
      var zero := if k <= 8 then 8 else if k <= 15 then 15 else if k <= 23 then 23 else if k <= 31 then 31
                  else if k <= 39 then 39 else if k <= 47 then 47 else 51;
      ZeroBreaksMagic(data, k, zero);
    }
  }

  /** The magic in the SIN part, where the search reaches it. */
  predicate PartPasses(part: bytes, from: nat) {
    exists i :: 0 <= i && i + |BOOT_MAGIC| <= |part| && from + i <= SEARCH_RANGE && MatchesAt(part, i, BOOT_MAGIC)
  }

  lemma MagicInPart(data: bytes, from: nat, part: bytes)
    requires from <= SEARCH_RANGE < SEARCH_RANGE + |BOOT_MAGIC| <= |data|
    requires forall j :: from <= j < SEARCH_RANGE + |BOOT_MAGIC| ==> data[j] == if j - from < |part| then part[j - from] else 0
    ensures MagicBetween(data, from, SEARCH_RANGE + 1) <==> PartPasses(part, from)
  {
    hide MatchesAt;
    forall k | from <= k <= SEARCH_RANGE
      ensures MatchesAt(data, k, BOOT_MAGIC) <==>
                k - from + |BOOT_MAGIC| <= |part| && MatchesAt(part, k - from, BOOT_MAGIC)
    {
      PartAt(data, from, part, k);
    }
    if PartPasses(part, from) {
      var i :| 0 <= i && i + |BOOT_MAGIC| <= |part| && from + i <= SEARCH_RANGE && MatchesAt(part, i, BOOT_MAGIC);
      assert MatchesAt(data, from + i, BOOT_MAGIC);
    }
  }

  lemma PartAt(data: bytes, from: nat, part: bytes, k: nat)
    requires from <= k <= SEARCH_RANGE < SEARCH_RANGE + |BOOT_MAGIC| <= |data|
    requires forall j :: from <= j < SEARCH_RANGE + |BOOT_MAGIC| ==> data[j] == if j - from < |part| then part[j - from] else 0
    ensures MatchesAt(data, k, BOOT_MAGIC) <==>
              k - from + |BOOT_MAGIC| <= |part| && MatchesAt(part, k - from, BOOT_MAGIC)
  {
    hide MatchesAt;
    if k - from + |BOOT_MAGIC| <= |part| {
      MagicBytes(data, k);
      MagicBytes(part, k - from);
    } else {
      ZeroBreaksMagic(data, k, k + 7);
    }
  }

  /** The magic does not turn up in the headers of a created file. */
  predicate HidesNoMagic(f: I10e) {
    var all := Counted(f) + Uncounted(f);
    && !TablePasses(all, DATA_START)
    && (SinPart(f).Some? ==> !PartPasses(SinPart(f).value, EHDR_SIZE + PHDR_SIZE * |all|))
  }

  lemma MagicOfLayout(data: bytes, entry: u32, phnum: u16, all: seq<Segment>, part: bytes)
    requires |all| <= 6 && DATA_START <= |data| && data[..EHDR_SIZE] == EhdrBytes(entry, phnum)
    requires var from := EHDR_SIZE + PHDR_SIZE * |all|;
             && data[EHDR_SIZE..from] == PhdrTable(all, DATA_START)
             && (forall j :: from <= j < DATA_START ==> data[j] == if j - from < |part| then part[j - from] else 0)
    ensures NoAndroidMagic(data) <==> !TablePasses(all, DATA_START) && !PartPasses(part, EHDR_SIZE + PHDR_SIZE * |all|)
  {
    hide MatchesAt, EhdrBytes, PhdrTable, TablePasses, PartPasses, MagicBetween, NoAndroidMagic;
    var from := EHDR_SIZE + PHDR_SIZE * |all|;
    EhdrHidesNone(data, entry, phnum);
    MagicInTable(data, EHDR_SIZE, all, DATA_START);
    MagicInPart(data, from, part);
    BetweenSplits(data, 0, EHDR_SIZE, SEARCH_RANGE + 1);
    BetweenSplits(data, EHDR_SIZE, from, SEARCH_RANGE + 1);
    SearchedBetween(data);
  }

  lemma EhdrHidesNone(data: bytes, entry: u32, phnum: u16)
    requires DATA_START <= |data| && data[..EHDR_SIZE] == EhdrBytes(entry, phnum)
    ensures !MagicBetween(data, 0, EHDR_SIZE)
  {
    hide MatchesAt, EhdrBytes;
    forall k | 0 <= k < EHDR_SIZE ensures !MatchesAt(data, k, BOOT_MAGIC) {
      NoMagicInEhdr(data, entry, phnum, k);
    }
  }

  lemma SearchedBetween(data: bytes)
    requires DATA_START <= |data|
    ensures NoAndroidMagic(data) <==> !MagicBetween(data, 0, SEARCH_RANGE + 1)
  {
    hide MatchesAt;
  }

  /** Exactly when the search for an Android header finds none in a created Sony image. */
  lemma NoMagicExactly(f: I10e)
    requires SonyElfFormat.Created(f).Some?
    ensures var data := SonyElfFormat.Created(f).value;
            |data| >= SEARCH_RANGE + |BOOT_MAGIC| && (NoAndroidMagic(data) <==> HidesNoMagic(f))
  {
    hide Bodies, PhdrTable, EntryPoint, PhNum, EhdrBytes, Counted, Uncounted, SinPart, U32At, U16At, MatchesAt, Resize,
         NoAndroidMagic, TablePasses, PartPasses;
    var part := SinPart(f).value;
    var data := SonyElfFormat.Created(f).value;
    var all := Counted(f) + Uncounted(f);
    CreatedLayout(f, part);
    PartsOfArea(EhdrBytes(EntryPoint(f), PhNum(f)), PhdrTable(all, DATA_START), part, data);
    MagicOfLayout(data, EntryPoint(f), PhNum(f), all, part);
  }

  lemma PartsOfArea(ehdr: bytes, table: bytes, part: bytes, data: bytes)
    requires |ehdr| == EHDR_SIZE && |ehdr| + |table| <= DATA_START <= |data|
    requires var area := ehdr + table + part;
             forall j :: 0 <= j < DATA_START ==> data[j] == if j < |area| then area[j] else 0
    ensures data[..EHDR_SIZE] == ehdr
    ensures var from := |ehdr| + |table|;
            forall j :: from <= j < DATA_START ==> data[j] == if j - from < |part| then part[j - from] else 0
  {
  }

  /** Without a SIN image, a file smaller than the word the magic ends in has no magic in its headers. */
  lemma SmallFilesHideNoMagic(f: I10e)
    requires !HasSin(f) && |SonyElfFormat.Created(f).value| < MAGIC_END
    ensures HidesNoMagic(f)
  {
    hide Counted, Uncounted, TablePasses, Bodies, HeaderArea;
    SmallTable(Counted(f) + Uncounted(f), DATA_START);
  }

  lemma {:induction false} SmallTable(segments: seq<Segment>, offset: nat)
    requires offset + |Bodies(segments)| < MAGIC_END
    ensures !TablePasses(segments, offset)
    decreases |segments|
  {
    if segments != [] {
      assert Bodies(segments) == segments[0].body + Bodies(segments[1..]);
      SmallTable(segments[1..], offset + |segments[0].body|);
    }
  }
}
