/** What stands at each offset of a Sony boot image, in the numbers of the ELF layout. */
module SonyElfLayout {
  import opened Bytes
  import opened Intermediate
  import opened SonyElfFormat

  // ---------------------------------------------------------------------------
  // Created files
  // ---------------------------------------------------------------------------

  /** A program header: type, offset, the address twice, the size twice, flags, alignment 0. */
  predicate PhdrAt(data: bytes, b: nat, ptype: u32, flags: u32, addr: u32, offset: nat, size: nat) {
    && b + 32 <= |data|
    && U32At(data, b) == ptype && U32At(data, b + 4) == offset
    && U32At(data, b + 8) == addr && U32At(data, b + 12) == addr
    && U32At(data, b + 16) == size && U32At(data, b + 20) == size
    && U32At(data, b + 24) == flags && U32At(data, b + 28) == 0
  }

  /** A program header together with the segment it points to. */
  predicate SegmentAt(data: bytes, b: nat, ptype: u32, flags: u32, addr: u32, offset: nat, body: bytes) {
    && PhdrAt(data, b, ptype, flags, addr, offset, |body|)
    && offset + |body| <= |data| && data[offset..offset + |body|] == body
  }

  /** One if there is such an image. */
  function One(image: bytes): nat {
    if image == [] then 0 else 1
  }

  predicate HasTable(data: bytes, all: seq<Segment>) {
    && |all| <= 6 && |data| == 4096 + |Bodies(all)| < U32_LIMIT
    && data[52..52 + 32 * |all|] == PhdrTable(all, 4096) && data[4096..] == Bodies(all)
  }

  /** The header and body of one segment in the middle of the table. */
  lemma SegmentInTable(data: bytes, pre: seq<Segment>, s: Segment, post: seq<Segment>)
    requires HasTable(data, pre + [s] + post)
    ensures var b, offset := 52 + 32 * |pre|, 4096 + |Bodies(pre)|;
            && b + 32 <= |data| && data[b..b + 32] == PhdrBytes(s, offset)
            && offset + |s.body| <= |data| && data[offset..offset + |s.body|] == s.body
  {
    hide PhdrTable, Bodies, PhdrBytes;
    var offset := 4096 + |Bodies(pre)|;
    TableParts(pre, s, post);
    Middle(data, 52, PhdrTable(pre, 4096), PhdrBytes(s, offset), PhdrTable(post, offset + |s.body|));
    assert data[4096..] == data[4096..|data|];
    Middle(data, 4096, Bodies(pre), s.body, Bodies(post));
  }

  lemma TableParts(pre: seq<Segment>, s: Segment, post: seq<Segment>)
    ensures var offset := 4096 + |Bodies(pre)|;
            PhdrTable(pre + [s] + post, 4096)
            == PhdrTable(pre, 4096) + (PhdrBytes(s, offset) + PhdrTable(post, offset + |s.body|))
    ensures Bodies(pre + [s] + post) == Bodies(pre) + (s.body + Bodies(post))
  {
    hide PhdrTable, Bodies, PhdrBytes;
    var offset := 4096 + |Bodies(pre)|;
    assert pre + [s] + post == pre + ([s] + post);
    TableOfConcat(pre, [s] + post, 4096);
    TableOfConcat([s], post, offset);
    BodiesOfConcat(pre, [s] + post);
    BodiesOfConcat([s], post);
    OneInTable(s, offset);
  }

  /** The middle one of three parts that stand in a file. */
  lemma Middle(data: bytes, at: nat, a: bytes, b: bytes, c: bytes)
    requires at + |a + (b + c)| <= |data| && data[at..at + |a + (b + c)|] == a + (b + c)
    ensures data[at + |a|..at + |a| + |b|] == b
  {
    SliceOfSlice(data, at, at + |a + (b + c)|, |a|, |a| + |b|);
    assert (a + (b + c))[|a|..|a| + |b|] == b;
  }

  lemma OneInTable(s: Segment, offset: nat)
    ensures PhdrTable([s], offset) == PhdrBytes(s, offset) && Bodies([s]) == s.body
  {
    assert [s][1..] == [];
    assert PhdrBytes(s, offset) + [] == PhdrBytes(s, offset);
  }

  lemma SegmentStands(data: bytes, pre: seq<Segment>, kind: Kind, addr: u32, body: bytes, post: seq<Segment>)
    requires HasTable(data, pre + Present(kind, addr, body) + post) && body != []
    ensures SegmentAt(data, 52 + 32 * |pre|, TypeOf(kind), FlagsOf(kind), addr, 4096 + |Bodies(pre)|, body)
  {
    hide U32At, PhdrBytes, Bodies, TypeOf, FlagsOf, HasTable;
    var s := Segment(kind, addr, body);
    SegmentInTable(data, pre, s, post);
    AllPhdrFields(data, 52 + 32 * |pre|, s, 4096 + |Bodies(pre)|);
    BodiesFit(data, pre + [s] + post);
  }

  lemma BodiesFit(data: bytes, all: seq<Segment>)
    requires HasTable(data, all)
    ensures |data| < U32_LIMIT
  {
  }

  lemma PresentCounts(kind: Kind, addr: u32, body: bytes)
    ensures |Present(kind, addr, body)| == One(body) && |Bodies(Present(kind, addr, body))| == |body|
  {
    if body != [] {
      OneInTable(Segment(kind, addr, body), 0);
    }
  }

  lemma PresentAppended(pre: seq<Segment>, kind: Kind, addr: u32, body: bytes)
    ensures var all := pre + Present(kind, addr, body);
            |all| == |pre| + One(body) && |Bodies(all)| == |Bodies(pre)| + |body|
  {
    hide Present, Bodies;
    PresentCounts(kind, addr, body);
    BodiesOfConcat(pre, Present(kind, addr, body));
  }

  /** Kernel, ramdisk and command line: where their headers are and what these say. */
  lemma CountedSegments(f: I10e)
    requires SonyElfFormat.Created(f).Some? && |SonyElfFormat.Created(f).value| < U32_LIMIT
    ensures var data, k, r := SonyElfFormat.Created(f).value, |f.kernelImage|, |f.ramdiskImage|;
            var nk := One(f.kernelImage);
            var nr := nk + One(f.ramdiskImage);
            && (f.kernelImage != [] ==> SegmentAt(data, 52, 1, 0x0000_0000, f.kernelAddr, 4096, f.kernelImage))
            && (f.ramdiskImage != [] ==> SegmentAt(data, 52 + 32 * nk, 1, 0x8000_0000, f.ramdiskAddr, 4096 + k, f.ramdiskImage))
            && (f.cmdline != [] ==> SegmentAt(data, 52 + 32 * nr, 4, 0x2000_0000, 0, 4096 + k + r, f.cmdline))
  {
    hide HasTable, PhdrTable, Bodies, Present, SegmentAt;
    var data := SonyElfFormat.Created(f).value;
    CreatedHasTable(f);
    var pk, pr, pc := Present(Kernel, f.kernelAddr, f.kernelImage), Present(Ramdisk, f.ramdiskAddr, f.ramdiskImage), Present(Cmdline, 0, f.cmdline);
    var u := Uncounted(f);
    var all := Counted(f) + u;
    NothingYet();
    PresentAppended([], Kernel, f.kernelAddr, f.kernelImage);
    PresentAppended([] + pk, Ramdisk, f.ramdiskAddr, f.ramdiskImage);
    assert all == [] + pk + (pr + pc + u) && all == ([] + pk) + pr + (pc + u) && all == ([] + pk + pr) + pc + u;
    if f.kernelImage != [] {
      SegmentStands(data, [], Kernel, f.kernelAddr, f.kernelImage, pr + pc + u);
    }
    if f.ramdiskImage != [] {
      SegmentStands(data, [] + pk, Ramdisk, f.ramdiskAddr, f.ramdiskImage, pc + u);
    }
    if f.cmdline != [] {
      SegmentStands(data, [] + pk + pr, Cmdline, 0, f.cmdline, u);
    }
  }

  lemma NothingYet()
    ensures Bodies([]) == []
  {
  }

  lemma CreatedHasTable(f: I10e)
    requires SonyElfFormat.Created(f).Some? && |SonyElfFormat.Created(f).value| < U32_LIMIT
    ensures HasTable(SonyElfFormat.Created(f).value, Counted(f) + Uncounted(f))
  {
    hide PhdrTable, Bodies, Counted, Uncounted, HeaderArea, Resize, U32At, U16At, SinPart;
    CreatedLayout(f, SinPart(f).value);
  }

  /** The same for ipl, rpm and appsbl, behind the others. */
  lemma UncountedSegments(f: I10e)
    requires SonyElfFormat.Created(f).Some? && |SonyElfFormat.Created(f).value| < U32_LIMIT
    ensures var data := SonyElfFormat.Created(f).value;
            var n := One(f.kernelImage) + One(f.ramdiskImage) + One(f.cmdline);
            var start := 4096 + |f.kernelImage| + |f.ramdiskImage| + |f.cmdline|;
            var ni := n + One(f.iplImage);
            var np := ni + One(f.rpmImage);
            && (f.iplImage != [] ==> SegmentAt(data, 52 + 32 * n, 1, 0x4000_0000, f.iplAddr, start, f.iplImage))
            && (f.rpmImage != [] ==> SegmentAt(data, 52 + 32 * ni, 1, 0x0100_0000, f.rpmAddr, start + |f.iplImage|, f.rpmImage))
            && (f.appsblImage != [] ==> SegmentAt(data, 52 + 32 * np, 1, 0x0200_0000, f.appsblAddr,
                                                  start + |f.iplImage| + |f.rpmImage|, f.appsblImage))
  {
    hide HasTable, PhdrTable, Bodies, Present, SegmentAt;
    var data := SonyElfFormat.Created(f).value;
    CreatedHasTable(f);
    CountedSize(f);
    var c := Counted(f);
    var pi, pp, pa := Present(Ipl, f.iplAddr, f.iplImage), Present(Rpm, f.rpmAddr, f.rpmImage), Present(Appsbl, f.appsblAddr, f.appsblImage);
    var all := c + Uncounted(f);
    PresentAppended(c, Ipl, f.iplAddr, f.iplImage);
    PresentAppended(c + pi, Rpm, f.rpmAddr, f.rpmImage);
    assert all == c + pi + (pp + pa) && all == (c + pi) + pp + pa && all == (c + pi + pp) + pa + [];
    if f.iplImage != [] {
      SegmentStands(data, c, Ipl, f.iplAddr, f.iplImage, pp + pa);
    }
    if f.rpmImage != [] {
      SegmentStands(data, c + pi, Rpm, f.rpmAddr, f.rpmImage, pa);
    }
    if f.appsblImage != [] {
      SegmentStands(data, c + pi + pp, Appsbl, f.appsblAddr, f.appsblImage, []);
    }
  }

  lemma CountedSize(f: I10e)
    ensures |Counted(f)| == One(f.kernelImage) + One(f.ramdiskImage) + One(f.cmdline)
    ensures |Bodies(Counted(f))| == |f.kernelImage| + |f.ramdiskImage| + |f.cmdline|
  {
    hide Bodies, Present;
    var pk, pr := Present(Kernel, f.kernelAddr, f.kernelImage), Present(Ramdisk, f.ramdiskAddr, f.ramdiskImage);
    PresentCounts(Kernel, f.kernelAddr, f.kernelImage);
    PresentAppended(pk, Ramdisk, f.ramdiskAddr, f.ramdiskImage);
    PresentAppended(pk + pr, Cmdline, 0, f.cmdline);
  }

  /** The fixed words of the ELF header, the entry point and the count. */
  lemma CreatedEhdr(f: I10e)
    requires SonyElfFormat.Created(f).Some?
    ensures var data := SonyElfFormat.Created(f).value;
            && |data| >= 4096
            && data[..16] == [0x7f, 0x45, 0x4c, 0x46, 0x01, 0x01, 0x01, 0x61, 0, 0, 0, 0, 0, 0, 0, 0]
            && U16At(data, 16) == 2 && U16At(data, 18) == 40 && U32At(data, 20) == 1
            && U32At(data, 24) == (if f.hdrEntrypoint == 0 && f.kernelImage != [] then f.kernelAddr else f.hdrEntrypoint)
            && U32At(data, 28) == 52 && U32At(data, 32) == 0 && U32At(data, 36) == 0
            && U16At(data, 40) == 52 && U16At(data, 42) == 32
            && U16At(data, 44) == One(f.kernelImage) + One(f.ramdiskImage) + One(f.cmdline)
                                  + (if f.sonySinImage != [] && f.sonySinHdr != [] then 1 else 0)
            && U16At(data, 46) == 0 && U16At(data, 48) == 0 && U16At(data, 50) == 0
  {
    hide Counted, Bodies, PhdrTable, SinPart, U32At, U16At;
    var area := HeaderArea(f, SinPart(f).value);
    var data := SonyElfFormat.Created(f).value;
    var e := EhdrBytes(EntryPoint(f), PhNum(f));
    CountedSize(f);
    assert data[..52] == area[..52] == e;
    assert data == e + data[52..];
    EhdrWords(EntryPoint(f), PhNum(f), data[52..]);
  }

  lemma EhdrWords(entry: u32, phnum: u16, rest: bytes)
    ensures var data := EhdrBytes(entry, phnum) + rest;
            && data[..16] == [0x7f, 0x45, 0x4c, 0x46, 0x01, 0x01, 0x01, 0x61, 0, 0, 0, 0, 0, 0, 0, 0]
            && U16At(data, 16) == 2 && U16At(data, 18) == 40 && U32At(data, 20) == 1 && U32At(data, 24) == entry
            && U32At(data, 28) == 52 && U32At(data, 32) == 0 && U32At(data, 36) == 0
            && U16At(data, 40) == 52 && U16At(data, 42) == 32 && U16At(data, 44) == phnum
            && U16At(data, 46) == 0 && U16At(data, 48) == 0 && U16At(data, 50) == 0
  {
    hide U32At, U16At, U32Bytes, U16Bytes;
    var data := EhdrBytes(entry, phnum) + rest;
    EhdrFields(entry, phnum, rest);
    assert data[..16] == E_IDENT + Zeros(8);
    HalfAt(data, 16, 2);
    HalfAt(data, 18, 40);
    WordIs(data, 20, 1);
    WordIs(data, 28, 52);
    WordIs(data, 32, 0);
    WordIs(data, 36, 0);
    HalfAt(data, 40, 52);
    HalfAt(data, 42, 32);
    HalfAt(data, 46, 0);
    HalfAt(data, 48, 0);
    HalfAt(data, 50, 0);
  }

  lemma HalfAt(data: bytes, at: nat, x: u16)
    requires at + 2 <= |data| && data[at..at + 2] == U16Bytes(x)
    ensures U16At(data, at) == x
  {
    U16RoundTrip(x);
    assert data[at] == data[at..at + 2][0] && data[at + 1] == data[at..at + 2][1];
  }

  // ---------------------------------------------------------------------------
  // Loaded files
  // ---------------------------------------------------------------------------

  /** A program header fills the field that its type and flags stand for, from its bytes and address, and nothing else. */
  lemma HeaderFills(g: I10e, data: bytes, b: nat)
    requires b + 32 <= |data| < U32_LIMIT && U32At(data, b + 4) + U32At(data, b + 20) <= |data|
    ensures var t, flags, addr := U32At(data, b), U32At(data, b + 24), U32At(data, b + 8);
            var begin := U32At(data, b + 4);
            var body := data[begin..begin + U32At(data, b + 20)];
            var r := OneSegment(g, data, b);
            && (t == 1 && flags == 0x0000_0000 ==> r == Loaded(g.(kernelImage := body, kernelAddr := addr)))
            && (t == 1 && flags == 0x8000_0000 ==> r == Loaded(g.(ramdiskImage := body, ramdiskAddr := addr)))
            && (t == 1 && flags == 0x4000_0000 ==> r == Loaded(g.(iplImage := body, iplAddr := addr)))
            && (t == 4 && flags == 0x2000_0000 ==> r == Loaded(g.(cmdline := body)))
            && (t == 1 && flags == 0x0100_0000 ==> r == Loaded(g.(rpmImage := body, rpmAddr := addr)))
            && (t == 1 && flags == 0x0200_0000 ==> r == Loaded(g.(appsblImage := body, appsblAddr := addr)))
            && (t == 1 && flags !in {0, 0x8000_0000, 0x4000_0000, 0x0100_0000, 0x0200_0000} ==> r == Rejected)
            && (t == 4 && flags != 0x2000_0000 ==> r == Rejected)
            && (t !in {1, 4, 0x214e_4953} ==> r == Rejected)
  {
    hide U32At, SinImage;
  }

  // ---------------------------------------------------------------------------
  // The SIN image
  // ---------------------------------------------------------------------------

  /** The number of segments the ELF header counts, and of those that it does not. */
  function CountedOnes(f: I10e): nat {
    One(f.kernelImage) + One(f.ramdiskImage) + One(f.cmdline)
  }

  function UncountedOnes(f: I10e): nat {
    One(f.iplImage) + One(f.rpmImage) + One(f.appsblImage)
  }

  /** A file is created exactly if there is no SIN image, or one whose size its header says, in front of offset 4096. */
  lemma CreatedExactly(f: I10e)
    ensures SonyElfFormat.Created(f).Some? <==>
              f.sonySinImage == [] || f.sonySinHdr == []
              || (|f.sonySinHdr| == 32 &&
                  var size: int := U32At(f.sonySinHdr, 16);
                  && (|f.sonySinImage| == size || |f.sonySinImage| == Wrap32(size + 2))
                  && Wrap32(52 + 32 * (CountedOnes(f) + 1) + size) < 4096)
  {
    hide U32At, Counted, Uncounted, HeaderArea, Bodies, Resize, One, Wrap32, PutU32;
    CountsAre(f);
  }

  lemma CountsAre(f: I10e)
    ensures |Counted(f)| == CountedOnes(f) && |Uncounted(f)| == UncountedOnes(f)
  {
  }

  /** The SIN header stands behind all others, and says that its image stands behind the counted ones; it stands behind itself. */
  lemma SinStands(f: I10e)
    requires SonyElfFormat.Created(f).Some? && f.sonySinImage != [] && f.sonySinHdr != []
    ensures var data := SonyElfFormat.Created(f).value;
            var b := 52 + 32 * (CountedOnes(f) + UncountedOnes(f));
            && |f.sonySinHdr| == 32 && b + 32 <= 4096 <= |data|
            && data[b..b + 4] == f.sonySinHdr[..4] && data[b + 8..b + 32] == f.sonySinHdr[8..]
            && U32At(data, b + 4) == 52 + 32 * (CountedOnes(f) + 1)
            && (forall j :: 0 <= j < |f.sonySinImage| && b + 32 + j < 4096 ==> data[b + 32 + j] == f.sonySinImage[j])
            && (forall j :: b + 32 + |f.sonySinImage| <= j < 4096 ==> data[j] == 0)
  {
    hide U32At, Counted, Uncounted, One, PutU32, EhdrBytes, PhdrTable, Bodies, Resize, PhNum, EntryPoint, CountedOnes, UncountedOnes;
    var all := Counted(f) + Uncounted(f);
    CountsAre(f);
    var part := SinPart(f).value;
    CreatedLayout(f, part);
    var data, b := SonyElfFormat.Created(f).value, 52 + 32 * |all|;
    var hdr := PutU32(f.sonySinHdr, 4, SinOffset(f));
    assert part == hdr + f.sonySinImage;
    forall j | 0 <= j && b + j < 4096 ensures data[b + j] == if j < |part| then part[j] else 0 {
      if j < |part| {
        BehindTable(EhdrBytes(EntryPoint(f), PhNum(f)), PhdrTable(all, 4096), part, b + j);
      }
    }
    OffsetReplaced(f.sonySinHdr, SinOffset(f));
    assert data[b..b + 4] == hdr[..4] && data[b + 4..b + 8] == hdr[4..8] && data[b + 8..b + 32] == hdr[8..32];
    U32AtSlice(data, b + 4, hdr, 4);
  }

  lemma BehindTable(ehdr: bytes, table: bytes, part: bytes, j: nat)
    requires |ehdr| + |table| <= j < |ehdr + table + part|
    ensures (ehdr + table + part)[j] == part[j - |ehdr| - |table|]
  {
  }

  lemma OffsetReplaced(hdr: bytes, x: u32)
    requires |hdr| == 32
    ensures var r := PutU32(hdr, 4, x);
            r[..4] == hdr[..4] && U32At(r, 4) == x && r[8..] == hdr[8..]
  {
    hide U32At, U32Bytes;
    ReadBackWord(hdr, 4, x);
  }

  /** A SIN header fills its two fields: the image with the two bytes behind it unless both are zero, the header without offset. */
  lemma SinFills(g: I10e, data: bytes, b: nat)
    requires b + 32 <= |data| && |data| + 2 < U32_LIMIT && U32At(data, b) == 0x214e_4953
    requires U32At(data, b + 4) + U32At(data, b + 20) <= |data|
    ensures var begin := U32At(data, b + 4);
            var end := begin + U32At(data, b + 20);
            var last := if end + 2 <= |data| && (data[end] != 0 || data[end + 1] != 0) then end + 2 else end;
            OneSegment(g, data, b) == Loaded(g.(sonySinImage := data[begin..last],
                                                sonySinHdr := data[b..b + 4] + [0, 0, 0, 0] + data[b + 8..b + 32]))
  {
    hide U32At;
    var hdr := data[b..b + 32];
    assert hdr[..4] == data[b..b + 4] && hdr[8..] == data[b + 8..b + 32];
    assert U32Bytes(0) == [0, 0, 0, 0];
    assert PutU32(hdr, 4, 0) == hdr[..4] + [0, 0, 0, 0] + hdr[8..];
  }
}
