/** Sony boot images: an ELF header, program headers, an optional SIN image, and the segments from 4096 on. */
module SonyElfFormat {
  import opened Bytes
  import opened Intermediate

  const E_IDENT: bytes := [0x7f, 0x45, 0x4c, 0x46, 0x01, 0x01, 0x01, 0x61]
  const EHDR_SIZE := 52
  const PHDR_SIZE := 32
  const E_ENTRY := 24
  const E_PHNUM := 44
  const DATA_START := 4096

  const TYPE_SIN := 0x214e4953 // "SIN!"

  // Offsets in a program header
  const P_TYPE := 0
  const P_OFFSET := 4
  const P_VADDR := 8
  const P_FILESZ := 16
  const P_MEMSZ := 20
  const P_FLAGS := 24

  datatype Kind = Kernel | Ramdisk | Cmdline | Ipl | Rpm | Appsbl

  function TypeOf(k: Kind): u32 {
    if k == Cmdline then 4 else 1 // PT_NOTE, PT_LOAD
  }

  function FlagsOf(k: Kind): u32 {
    match k
    case Kernel => 0
    case Ramdisk => 0x8000_0000
    case Ipl => 0x4000_0000
    case Cmdline => 0x2000_0000
    case Rpm => 0x0100_0000
    case Appsbl => 0x0200_0000
  }

  /** What a program header describes, by its type and flags; the SIN type wins over any flags. */
  function KindOf(ptype: u32, flags: u32): Option<Kind> {
    if ptype == 1 && flags == 0 then Some(Kernel)
    else if ptype == 1 && flags == 0x8000_0000 then Some(Ramdisk)
    else if ptype == 1 && flags == 0x4000_0000 then Some(Ipl)
    else if ptype == 4 && flags == 0x2000_0000 then Some(Cmdline)
    else if ptype == 1 && flags == 0x0100_0000 then Some(Rpm)
    else if ptype == 1 && flags == 0x0200_0000 then Some(Appsbl)
    else None
  }

  // ---------------------------------------------------------------------------
  // Creating
  // ---------------------------------------------------------------------------

  datatype Segment = Segment(kind: Kind, addr: u32, body: bytes)

  function PhdrWords(s: Segment, offset: nat): (r: seq<u32>)
    ensures |r| == 8
  {
    [TypeOf(s.kind), Wrap32(offset), s.addr, s.addr, Wrap32(|s.body|), Wrap32(|s.body|), FlagsOf(s.kind), 0]
  }

  function PhdrBytes(s: Segment, offset: nat): (r: bytes)
    ensures |r| == PHDR_SIZE
  {
    WordsBytes(PhdrWords(s, offset))
  }

  /** The program headers of segments whose bodies are laid out one after the other from `offset` on. */
  function PhdrTable(segments: seq<Segment>, offset: nat): (r: bytes)
    ensures |r| == PHDR_SIZE * |segments|
  {
    if segments == [] then []
    else PhdrBytes(segments[0], offset) + PhdrTable(segments[1..], offset + |segments[0].body|)
  }

  function Bodies(segments: seq<Segment>): bytes {
    if segments == [] then [] else segments[0].body + Bodies(segments[1..])
  }

  /** A segment is written when its image is not empty. */
  function Present(kind: Kind, addr: u32, body: bytes): seq<Segment> {
    if body == [] then [] else [Segment(kind, addr, body)]
  }

  /** The segments the ELF header's count covers. */
  function Counted(f: I10e): seq<Segment> {
    Present(Kernel, f.kernelAddr, f.kernelImage) + Present(Ramdisk, f.ramdiskAddr, f.ramdiskImage)
    + Present(Cmdline, 0, f.cmdline)
  }

  /** The segments that are written but not counted. */
  function Uncounted(f: I10e): seq<Segment> {
    Present(Ipl, f.iplAddr, f.iplImage) + Present(Rpm, f.rpmAddr, f.rpmImage) + Present(Appsbl, f.appsblAddr, f.appsblImage)
  }

  predicate HasSin(f: I10e) {
    f.sonySinImage != [] && f.sonySinHdr != []
  }

  function PhNum(f: I10e): (n: u16)
    ensures n == |Counted(f)| + (if HasSin(f) then 1 else 0) && n <= 4
  {
    |Counted(f)| + (if HasSin(f) then 1 else 0)
  }

  function EntryPoint(f: I10e): u32 {
    if f.hdrEntrypoint == 0 && f.kernelImage != [] then f.kernelAddr else f.hdrEntrypoint
  }

  function EhdrBytes(entry: u32, phnum: u16): (r: bytes)
    ensures |r| == EHDR_SIZE
  {
    E_IDENT + Zeros(8) + U16Bytes(2) + U16Bytes(40) + U32Bytes(1) + U32Bytes(entry) + U32Bytes(52) + U32Bytes(0)
    + U32Bytes(0) + U16Bytes(52) + U16Bytes(32) + U16Bytes(phnum) + U16Bytes(0) + U16Bytes(0) + U16Bytes(0)
  }

  /** Where the SIN image is said to be: behind the counted program headers. */
  function SinOffset(f: I10e): (o: u32)
    ensures EHDR_SIZE <= o <= 180
  {
    EHDR_SIZE + PhNum(f) * PHDR_SIZE
  }

  /** The SIN header with its offset, and the image; None when the sizes do not work out. */
  function SinPart(f: I10e): Option<bytes> {
    if !HasSin(f) then Some([])
    else if |f.sonySinHdr| != PHDR_SIZE then None
    else
      var filesz: int := U32At(f.sonySinHdr, P_FILESZ);
      if Wrap32(filesz + 2) != |f.sonySinImage| && filesz != |f.sonySinImage| then None
      else if Wrap32(SinOffset(f) + filesz) >= DATA_START then None
      else Some(PutU32(f.sonySinHdr, P_OFFSET, SinOffset(f)) + f.sonySinImage)
  }

  function HeaderArea(f: I10e, sinPart: bytes): bytes {
    EhdrBytes(EntryPoint(f), PhNum(f)) + PhdrTable(Counted(f) + Uncounted(f), DATA_START) + sinPart
  }

  /** The header area is cut or filled to 4096 bytes before the bodies follow. */
  function Created(f: I10e): Option<bytes> {
    match SinPart(f)
    case None => None
    case Some(sinPart) => Some(Resize(HeaderArea(f, sinPart), DATA_START) + Bodies(Counted(f) + Uncounted(f)))
  }

  lemma {:induction false} BodiesOfConcat(a: seq<Segment>, b: seq<Segment>)
    ensures Bodies(a + b) == Bodies(a) + Bodies(b)
    decreases |a|
  {
    if a == [] {
      assert a + b == b;
    } else {
      assert (a + b)[1..] == a[1..] + b;
      BodiesOfConcat(a[1..], b);
      assert Bodies(a + b) == a[0].body + (Bodies(a[1..]) + Bodies(b));
    }
  }

  lemma {:induction false} TableOfConcat(a: seq<Segment>, b: seq<Segment>, offset: nat)
    ensures PhdrTable(a + b, offset) == PhdrTable(a, offset) + PhdrTable(b, offset + |Bodies(a)|)
    decreases |a|
  {
    hide PhdrBytes;
    if a == [] {
      assert a + b == b;
    } else {
      assert (a + b)[1..] == a[1..] + b && (a + b)[0] == a[0];
      var next := offset + |a[0].body|;
      TableOfConcat(a[1..], b, next);
      Regrouped(PhdrBytes(a[0], offset), PhdrTable(a[1..], next), PhdrTable(b, next + |Bodies(a[1..])|));
    }
  }

  lemma Regrouped(a: bytes, b: bytes, c: bytes)
    ensures a + b + c == a + (b + c)
  {
  }

  lemma TableOfAppend(a: seq<Segment>, s: Segment, offset: nat)
    ensures PhdrTable(a + [s], offset) == PhdrTable(a, offset) + PhdrBytes(s, offset + |Bodies(a)|)
    ensures Bodies(a + [s]) == Bodies(a) + s.body
  {
    hide PhdrBytes;
    TableOfConcat(a, [s], offset);
    BodiesOfConcat(a, [s]);
  }

  /** One of the six blocks that write a program header when the image is present. */
  method WritePhdr(data: bytes, offset: nat, kind: Kind, addr: u32, body: bytes, ghost done: seq<Segment>, ghost ehdr: bytes)
    returns (data': bytes, offset': nat)
    requires data == ehdr + PhdrTable(done, DATA_START) && offset == DATA_START + |Bodies(done)|
    ensures var done' := done + Present(kind, addr, body);
            data' == ehdr + PhdrTable(done', DATA_START) && offset' == DATA_START + |Bodies(done')|
  {
    hide PhdrBytes, PhdrTable, Bodies;
    data', offset' := data, offset;
    if body != [] {
      var phdr := PhdrBytes(Segment(kind, addr, body), offset);
      data' := data' + phdr;
      offset' := offset' + |body|;
      TableOfAppend(done, Segment(kind, addr, body), DATA_START);
    } else {
      assert done + [] == done;
    }
  }

  method WriteBody(data: bytes, kind: Kind, addr: u32, body: bytes, ghost done: seq<Segment>, ghost head: bytes) returns (data': bytes)
    requires data == head + Bodies(done)
    ensures data' == head + Bodies(done + Present(kind, addr, body))
  {
    hide Bodies, PhdrTable, PhdrBytes;
    data' := data;
    if body != [] {
      data' := data' + body;
      TableOfAppend(done, Segment(kind, addr, body), DATA_START);
    } else {
      assert done + [] == done;
    }
  }

  method WriteHeaders(f: I10e) returns (data: bytes)
    ensures data == EhdrBytes(EntryPoint(f), PhNum(f)) + PhdrTable(Counted(f) + Uncounted(f), DATA_START)
  {
    hide EhdrBytes, PhdrTable, Bodies, Present;
    var phnum: u16 := PhNum(f);
    var entrypoint := f.hdrEntrypoint;
    if entrypoint == 0 && f.kernelImage != [] {
      entrypoint := f.kernelAddr;
    }
    data := EhdrBytes(entrypoint, phnum);
    ghost var ehdr := data;
    var offset := DATA_START;
    assert data == ehdr + PhdrTable([], DATA_START) && |Bodies([])| == 0 by { NoSegments(); }
    ghost var done: seq<Segment> := [];
    data, offset := WritePhdr(data, offset, Kernel, f.kernelAddr, f.kernelImage, done, ehdr);
    done := done + Present(Kernel, f.kernelAddr, f.kernelImage);
    data, offset := WritePhdr(data, offset, Ramdisk, f.ramdiskAddr, f.ramdiskImage, done, ehdr);
    done := done + Present(Ramdisk, f.ramdiskAddr, f.ramdiskImage);
    data, offset := WritePhdr(data, offset, Cmdline, 0, f.cmdline, done, ehdr);
    done := done + Present(Cmdline, 0, f.cmdline);
    data, offset := WritePhdr(data, offset, Ipl, f.iplAddr, f.iplImage, done, ehdr);
    done := done + Present(Ipl, f.iplAddr, f.iplImage);
    data, offset := WritePhdr(data, offset, Rpm, f.rpmAddr, f.rpmImage, done, ehdr);
    done := done + Present(Rpm, f.rpmAddr, f.rpmImage);
    data, offset := WritePhdr(data, offset, Appsbl, f.appsblAddr, f.appsblImage, done, ehdr);
    done := done + Present(Appsbl, f.appsblAddr, f.appsblImage);
    assert done == Counted(f) + Uncounted(f);
  }

  method WriteBodies(f: I10e, head: bytes) returns (data: bytes)
    ensures data == head + Bodies(Counted(f) + Uncounted(f))
  {
    hide PhdrTable, Bodies, Present;
    data := head;
    ghost var done: seq<Segment> := [];
    assert data == head + Bodies([]) by { NoSegments(); }
    data := WriteBody(data, Kernel, f.kernelAddr, f.kernelImage, done, head);
    done := done + Present(Kernel, f.kernelAddr, f.kernelImage);
    data := WriteBody(data, Ramdisk, f.ramdiskAddr, f.ramdiskImage, done, head);
    done := done + Present(Ramdisk, f.ramdiskAddr, f.ramdiskImage);
    data := WriteBody(data, Cmdline, 0, f.cmdline, done, head);
    done := done + Present(Cmdline, 0, f.cmdline);
    data := WriteBody(data, Ipl, f.iplAddr, f.iplImage, done, head);
    done := done + Present(Ipl, f.iplAddr, f.iplImage);
    data := WriteBody(data, Rpm, f.rpmAddr, f.rpmImage, done, head);
    done := done + Present(Rpm, f.rpmAddr, f.rpmImage);
    data := WriteBody(data, Appsbl, f.appsblAddr, f.appsblImage, done, head);
    done := done + Present(Appsbl, f.appsblAddr, f.appsblImage);
    assert done == Counted(f) + Uncounted(f);
  }

  method CreateImage(impl: Impl, dataOut: ByteVector) returns (ok: bool)
    modifies dataOut
    ensures ok == Created(impl.i10e).Some?
    ensures dataOut.bytes == if ok then Created(impl.i10e).value else old(dataOut.bytes)
  {
    hide EhdrBytes, PhdrTable, Bodies, PutU32, U32At, Counted, Uncounted, Resize;
    var f := impl.i10e;
    var data := WriteHeaders(f);
    ghost var sinPart: bytes := [];
    if f.sonySinImage != [] && f.sonySinHdr != [] {
      if |f.sonySinHdr| != PHDR_SIZE {
        return false;
      }
      var filesz: int := U32At(f.sonySinHdr, P_FILESZ);
      // The SIN image directly follows the counted program headers
      var sinOffset := EHDR_SIZE + PhNum(f) * PHDR_SIZE;
      if Wrap32(filesz + 2) != |f.sonySinImage| && filesz != |f.sonySinImage| {
        return false;
      }
      if Wrap32(sinOffset + filesz) >= DATA_START {
        return false;
      }
      var phdr := PutU32(f.sonySinHdr, P_OFFSET, sinOffset);
      sinPart := phdr + f.sonySinImage;
      ghost var before := data;
      data := data + phdr;
      data := data + f.sonySinImage;
      assert data == before + sinPart;
    }
    assert data == HeaderArea(f, sinPart);
    data := Resize(data, DATA_START);
    data := WriteBodies(f, data);
    dataOut.bytes := data;
    ok := true;
  }

  lemma NoSegments()
    ensures PhdrTable([], DATA_START) == [] && Bodies([]) == []
  {
  }

  // ---------------------------------------------------------------------------
  // Loading
  // ---------------------------------------------------------------------------

  /** Storing one segment in the field its kind stands for. */
  function Stored(f: I10e, s: Segment): I10e {
    match s.kind
    case Kernel => f.(kernelImage := s.body, kernelAddr := s.addr)
    case Ramdisk => f.(ramdiskImage := s.body, ramdiskAddr := s.addr)
    case Ipl => f.(iplImage := s.body, iplAddr := s.addr)
    case Cmdline => f.(cmdline := s.body)
    case Rpm => f.(rpmImage := s.body, rpmAddr := s.addr)
    case Appsbl => f.(appsblImage := s.body, appsblAddr := s.addr)
  }

  /** The SIN image with the two trailing bytes, unless they are missing or both zero. */
  function SinImage(data: bytes, begin: nat, end: nat): Option<bytes>
    requires begin <= end <= |data|
  {
    if Wrap32(end + 2) > |data| then Some(data[begin..end])
    else if end + 2 > |data| then None
    else if data[end] == 0 && data[end + 1] == 0 then Some(data[begin..end])
    else Some(data[begin..end + 2])
  }

  /** One iteration of the program header loop. */
  function OneSegment(f: I10e, data: bytes, at: nat): Load {
    if at + PHDR_SIZE > |data| then Rejected
    else
      var begin := U32At(data, at + P_OFFSET);
      var end := begin + U32At(data, at + P_MEMSZ);
      if Wrap32(end) > |data| then Rejected
      else if end > |data| then OutOfBounds
      else
        match KindOf(U32At(data, at + P_TYPE), U32At(data, at + P_FLAGS))
        case Some(kind) => Loaded(Stored(f, Segment(kind, U32At(data, at + P_VADDR), data[begin..end])))
        case None =>
          if U32At(data, at + P_TYPE) != TYPE_SIN then Rejected
          else
            match SinImage(data, begin, end)
            case None => OutOfBounds
            case Some(image) =>
              Loaded(f.(sonySinImage := image, sonySinHdr := PutU32(data[at..at + PHDR_SIZE], P_OFFSET, 0)))
  }

  function SegmentsFrom(f: I10e, data: bytes, i: nat, phnum: nat): Load
    requires i <= phnum
    decreases phnum - i
  {
    if i == phnum then Loaded(f)
    else
      match OneSegment(f, data, EHDR_SIZE + PHDR_SIZE * i)
      case Loaded(g) => SegmentsFrom(g, data, i + 1, phnum)
      case other => other
  }

  function LoadedFrom(f: I10e, data: bytes): Load {
    if |data| < EHDR_SIZE || !MatchesAt(data, 0, E_IDENT) then Rejected
    else SegmentsFrom(f.(hdrEntrypoint := U32At(data, E_ENTRY)), data, 0, U16At(data, E_PHNUM))
  }

  function Recognised(data: bytes): Verdict {
    if |data| >= EHDR_SIZE && MatchesAt(data, 0, E_IDENT) then Valid else Invalid
  }

  method LoadSegment(impl: Impl, data: bytes, at: nat) returns (status: LoadStatus)
    modifies impl`i10e
    ensures status == StatusOf(OneSegment(old(impl.i10e), data, at))
    ensures status == LoadOk ==> impl.i10e == OneSegment(old(impl.i10e), data, at).i10e
  {
    hide U32At, PutU32;
    if at + PHDR_SIZE > |data| {
      return LoadFailed;
    }
    var ptype := U32At(data, at + P_TYPE);
    var flags := U32At(data, at + P_FLAGS);
    var vaddr := U32At(data, at + P_VADDR);
    var begin := U32At(data, at + P_OFFSET);
    var end := begin + U32At(data, at + P_MEMSZ);
    if Wrap32(end) > |data| {
      return LoadFailed;
    }
    if end > |data| {
      return LoadUndefined;
    }
    if ptype == 1 && flags == 0 {
      impl.i10e := impl.i10e.(kernelImage := data[begin..end], kernelAddr := vaddr);
    } else if ptype == 1 && flags == 0x8000_0000 {
      impl.i10e := impl.i10e.(ramdiskImage := data[begin..end], ramdiskAddr := vaddr);
    } else if ptype == 1 && flags == 0x4000_0000 {
      impl.i10e := impl.i10e.(iplImage := data[begin..end], iplAddr := vaddr);
    } else if ptype == 4 && flags == 0x2000_0000 {
      impl.i10e := impl.i10e.(cmdline := data[begin..end]);
    } else if ptype == 1 && flags == 0x0100_0000 {
      impl.i10e := impl.i10e.(rpmImage := data[begin..end], rpmAddr := vaddr);
    } else if ptype == 1 && flags == 0x0200_0000 {
      impl.i10e := impl.i10e.(appsblImage := data[begin..end], appsblAddr := vaddr);
    } else if ptype == TYPE_SIN {
      var last := end;
      if Wrap32(end + 2) > |data| {
        // the trailing two bytes are truncated
      } else if end + 2 > |data| {
        return LoadUndefined;
      } else if data[end] == 0 && data[end + 1] == 0 {
        // the trailing two bytes are zero
      } else {
        last := end + 2;
      }
      impl.i10e := impl.i10e.(sonySinImage := data[begin..last]);
      impl.i10e := impl.i10e.(sonySinHdr := data[at..at + PHDR_SIZE]);
      impl.i10e := impl.i10e.(sonySinHdr := PutU32(impl.i10e.sonySinHdr, P_OFFSET, 0));
    } else {
      return LoadFailed;
    }
    status := LoadOk;
  }

  method LoadImage(impl: Impl, data: bytes) returns (status: LoadStatus)
    modifies impl`i10e
    ensures status == StatusOf(LoadedFrom(old(impl.i10e), data))
    ensures status == LoadOk ==> impl.i10e == LoadedFrom(old(impl.i10e), data).i10e
  {
    hide OneSegment, U32At, U16At;
    if |data| < EHDR_SIZE {
      return LoadFailed;
    }
    if !MatchesAt(data, 0, E_IDENT) {
      return LoadFailed;
    }
    impl.i10e := impl.i10e.(hdrEntrypoint := U32At(data, E_ENTRY));
    var phnum := U16At(data, E_PHNUM);
    ghost var result := SegmentsFrom(impl.i10e, data, 0, phnum);
    var offset := EHDR_SIZE;
    for i := 0 to phnum
      invariant offset == EHDR_SIZE + PHDR_SIZE * i
      invariant SegmentsFrom(impl.i10e, data, i, phnum) == result
    {
      status := LoadSegment(impl, data, offset);
      if status != LoadOk {
        return;
      }
      offset := offset + PHDR_SIZE;
    }
    status := LoadOk;
  }

  method IsValid(data: bytes) returns (v: Verdict)
    ensures v == Recognised(data)
  {
    v := if |data| >= EHDR_SIZE && MatchesAt(data, 0, E_IDENT) then Valid else Invalid;
  }

  /** Every created file is recognised, also with something appended to it; nothing shorter than its ELF header is. */
  lemma CreatedIsRecognised(f: I10e, tail: bytes, n: nat)
    requires Created(f).Some?
    ensures |Created(f).value| >= DATA_START && Recognised(Created(f).value + tail) == Valid
    ensures n <= |Created(f).value| ==> (Recognised(Created(f).value[..n]) == Valid <==> n >= EHDR_SIZE)
  {
    hide Bodies, PhdrTable, U32Bytes, SinPart;
    var data := Created(f).value;
    var ehdr := EhdrBytes(EntryPoint(f), PhNum(f));
    assert data[..|E_IDENT|] == E_IDENT by { CreatedStartsWithIdent(f); }
    assert (data + tail)[0..|E_IDENT|] == data[..|E_IDENT|];
    if EHDR_SIZE <= n <= |data| {
      assert data[..n][0..|E_IDENT|] == data[..|E_IDENT|];
    }
  }

  lemma CreatedStartsWithIdent(f: I10e)
    requires Created(f).Some?
    ensures |Created(f).value| >= DATA_START && Created(f).value[..|E_IDENT|] == E_IDENT
  {
    hide Bodies, PhdrTable, U32Bytes, SinPart, PhNum, EntryPoint;
    var area := HeaderArea(f, SinPart(f).value);
    assert area[..|E_IDENT|] == EhdrBytes(EntryPoint(f), PhNum(f))[..|E_IDENT|] == E_IDENT;
  }

  // ---------------------------------------------------------------------------
  // Round trip
  // ---------------------------------------------------------------------------

  /** Storing several segments in turn. */
  function StoredAll(f: I10e, segments: seq<Segment>): I10e
    decreases |segments|
  {
    if segments == [] then f else StoredAll(Stored(f, segments[0]), segments[1..])
  }

  lemma KindOfKind(k: Kind)
    ensures KindOf(TypeOf(k), FlagsOf(k)) == Some(k)
  {
  }

  /** Reading back the words of a program header. */
  lemma PhdrFields(data: bytes, at: nat, s: Segment, offset: nat)
    requires at + PHDR_SIZE <= |data| && data[at..at + PHDR_SIZE] == PhdrBytes(s, offset)
    ensures var w := PhdrWords(s, offset);
            && U32At(data, at + P_TYPE) == w[0] && U32At(data, at + P_OFFSET) == w[1] && U32At(data, at + P_VADDR) == w[2]
            && U32At(data, at + P_FILESZ) == w[4] && U32At(data, at + P_MEMSZ) == w[5] && U32At(data, at + P_FLAGS) == w[6]
  {
    hide PhdrWords, U32At;
    var w := PhdrWords(s, offset);
    assert data == data[..at] + WordsBytes(w) + data[at + PHDR_SIZE..];
    WordInPlace(data[..at], w, data[at + PHDR_SIZE..], 0);
    WordInPlace(data[..at], w, data[at + PHDR_SIZE..], 1);
    WordInPlace(data[..at], w, data[at + PHDR_SIZE..], 2);
    WordInPlace(data[..at], w, data[at + PHDR_SIZE..], 4);
    WordInPlace(data[..at], w, data[at + PHDR_SIZE..], 5);
    WordInPlace(data[..at], w, data[at + PHDR_SIZE..], 6);
  }

  /** All words of a program header. */
  lemma AllPhdrFields(data: bytes, b: nat, s: Segment, offset: nat)
    requires b + PHDR_SIZE <= |data| && data[b..b + PHDR_SIZE] == PhdrBytes(s, offset)
    ensures var w := PhdrWords(s, offset);
            && U32At(data, b) == w[0] && U32At(data, b + 4) == w[1] && U32At(data, b + 8) == w[2] && U32At(data, b + 12) == w[3]
            && U32At(data, b + 16) == w[4] && U32At(data, b + 20) == w[5] && U32At(data, b + 24) == w[6] && U32At(data, b + 28) == w[7]
  {
    hide PhdrWords, U32At;
    var w := PhdrWords(s, offset);
    assert data == data[..b] + WordsBytes(w) + data[b + PHDR_SIZE..];
    PhdrFields(data, b, s, offset);
    WordInPlace(data[..b], w, data[b + PHDR_SIZE..], 3);
    WordInPlace(data[..b], w, data[b + PHDR_SIZE..], 7);
  }

  /** The loop reads back one written segment. */
  lemma OneWritten(f: I10e, data: bytes, at: nat, s: Segment, offset: nat)
    requires at + PHDR_SIZE <= |data| && data[at..at + PHDR_SIZE] == PhdrBytes(s, offset)
    requires offset + |s.body| <= |data| < U32_LIMIT && data[offset..offset + |s.body|] == s.body
    ensures OneSegment(f, data, at) == Loaded(Stored(f, s))
  {
    hide U32At, PhdrBytes;
    PhdrFields(data, at, s, offset);
    KindOfKind(s.kind);
  }

  /** A stretch of the table whose bodies are in place is read back segment by segment. */
  lemma {:induction false} TableIsRead(f: I10e, data: bytes, i: nat, phnum: nat, segments: seq<Segment>, offset: nat)
    requires i + |segments| <= phnum && |data| < U32_LIMIT
    requires EHDR_SIZE + PHDR_SIZE * (i + |segments|) <= |data|
    requires data[EHDR_SIZE + PHDR_SIZE * i..EHDR_SIZE + PHDR_SIZE * (i + |segments|)] == PhdrTable(segments, offset)
    requires offset + |Bodies(segments)| <= |data| && data[offset..offset + |Bodies(segments)|] == Bodies(segments)
    ensures SegmentsFrom(f, data, i, phnum) == SegmentsFrom(StoredAll(f, segments), data, i + |segments|, phnum)
    decreases |segments|
  {
    hide PhdrBytes, OneSegment, Stored;
    if segments != [] {
      var s, rest := segments[0], segments[1..];
      var at, end := EHDR_SIZE + PHDR_SIZE * i, EHDR_SIZE + PHDR_SIZE * (i + |segments|);
      var table := PhdrTable(segments, offset);
      assert table == PhdrBytes(s, offset) + PhdrTable(rest, offset + |s.body|);
      SliceOfSlice(data, at, end, 0, PHDR_SIZE);
      SliceOfSlice(data, at, end, PHDR_SIZE, end - at);
      assert table[0..PHDR_SIZE] == PhdrBytes(s, offset);
      assert table[PHDR_SIZE..end - at] == PhdrTable(rest, offset + |s.body|);
      var bodies := Bodies(segments);
      assert bodies == s.body + Bodies(rest);
      SliceOfSlice(data, offset, offset + |bodies|, 0, |s.body|);
      SliceOfSlice(data, offset, offset + |bodies|, |s.body|, |bodies|);
      assert bodies[0..|s.body|] == s.body && bodies[|s.body|..|bodies|] == Bodies(rest);
      OneWritten(f, data, at, s, offset);
      TableIsRead(Stored(f, s), data, i + 1, phnum, rest, offset + |s.body|);
    }
  }

  /** The ELF header's identification, entry point and count. */
  lemma EhdrFields(entry: u32, phnum: u16, rest: bytes)
    ensures var data := EhdrBytes(entry, phnum) + rest;
            MatchesAt(data, 0, E_IDENT) && U32At(data, E_ENTRY) == entry && U16At(data, E_PHNUM) == phnum
  {
    hide U32Bytes, U16Bytes, U32At;
    var data := EhdrBytes(entry, phnum) + rest;
    var pre := E_IDENT + Zeros(8) + U16Bytes(2) + U16Bytes(40) + U32Bytes(1);
    var mid := U32Bytes(52) + U32Bytes(0) + U32Bytes(0) + U16Bytes(52) + U16Bytes(32);
    var post := U16Bytes(0) + U16Bytes(0) + U16Bytes(0) + rest;
    assert data == pre + U32Bytes(entry) + (mid + U16Bytes(phnum) + post);
    assert data == (pre + U32Bytes(entry) + mid) + U16Bytes(phnum) + post;
    SliceOfConcat(pre, U32Bytes(entry), mid + U16Bytes(phnum) + post);
    assert data[24..28] == U32Bytes(entry);
    U32RoundTrip(entry);
    assert U32Bytes(entry)[0..4] == U32Bytes(entry);
    U32AtSlice(data, 24, U32Bytes(entry), 0);
    SliceOfConcat(pre + U32Bytes(entry) + mid, U16Bytes(phnum), post);
    assert data[44..46] == U16Bytes(phnum);
    assert data[44] == data[44..46][0] && data[45] == data[44..46][1];
    U16RoundTrip(phnum);
    assert data[..8] == E_IDENT;
  }

  /** The counted segments and the entry point, on top of a fresh intermediate. */
  function Expected(f: I10e): I10e {
    Fresh().(hdrEntrypoint := EntryPoint(f),
             kernelImage := f.kernelImage, kernelAddr := if f.kernelImage == [] then 0 else f.kernelAddr,
             ramdiskImage := f.ramdiskImage, ramdiskAddr := if f.ramdiskImage == [] then 0 else f.ramdiskAddr,
             cmdline := f.cmdline)
  }

  lemma StoredPresent(g: I10e, kind: Kind, addr: u32, body: bytes, rest: seq<Segment>)
    ensures StoredAll(g, Present(kind, addr, body) + rest)
            == StoredAll(if body == [] then g else Stored(g, Segment(kind, addr, body)), rest)
  {
    hide Stored;
    if body == [] {
      assert [] + rest == rest;
    } else {
      var s := Segment(kind, addr, body);
      assert ([s] + rest)[1..] == rest;
    }
  }

  lemma CountedStored(f: I10e)
    ensures StoredAll(Fresh().(hdrEntrypoint := EntryPoint(f)), Counted(f)) == Expected(f)
  {
    hide Present;
    var g := Fresh().(hdrEntrypoint := EntryPoint(f));
    var k, r, c := Present(Kernel, f.kernelAddr, f.kernelImage), Present(Ramdisk, f.ramdiskAddr, f.ramdiskImage), Present(Cmdline, 0, f.cmdline);
    assert Counted(f) == k + (r + (c + []));
    StoredPresent(g, Kernel, f.kernelAddr, f.kernelImage, r + (c + []));
    var g1 := if f.kernelImage == [] then g else Stored(g, Segment(Kernel, f.kernelAddr, f.kernelImage));
    StoredPresent(g1, Ramdisk, f.ramdiskAddr, f.ramdiskImage, c + []);
    var g2 := if f.ramdiskImage == [] then g1 else Stored(g1, Segment(Ramdisk, f.ramdiskAddr, f.ramdiskImage));
    StoredPresent(g2, Cmdline, 0, f.cmdline, []);
  }

  /** The layout of a created image: the header fields, the table and the bodies are where they belong. */
  lemma CreatedLayout(f: I10e, sinPart: bytes)
    ensures var data := Resize(HeaderArea(f, sinPart), DATA_START) + Bodies(Counted(f) + Uncounted(f));
            var all := Counted(f) + Uncounted(f);
            && |all| <= 6 && |data| == DATA_START + |Bodies(all)|
            && MatchesAt(data, 0, E_IDENT) && U32At(data, E_ENTRY) == EntryPoint(f) && U16At(data, E_PHNUM) == PhNum(f)
            && data[EHDR_SIZE..EHDR_SIZE + PHDR_SIZE * |all|] == PhdrTable(all, DATA_START)
            && data[DATA_START..] == Bodies(all)
            && forall j :: 0 <= j < DATA_START ==>
                 data[j] == if j < |HeaderArea(f, sinPart)| then HeaderArea(f, sinPart)[j] else 0
  {
    hide EhdrBytes, PhdrTable, Bodies, U32At, U16At, EntryPoint, PhNum, Resize;
    var all := Counted(f) + Uncounted(f);
    var area := HeaderArea(f, sinPart);
    AtMostSix(f);
    AreaAndBodies(EhdrBytes(EntryPoint(f), PhNum(f)), PhdrTable(all, DATA_START), sinPart, Bodies(all));
    var data := Resize(area, DATA_START) + Bodies(all);
    EhdrFields(EntryPoint(f), PhNum(f), data[EHDR_SIZE..]);
  }

  lemma AtMostSix(f: I10e)
    ensures |Counted(f) + Uncounted(f)| <= 6
  {
  }

  lemma AreaAndBodies(ehdr: bytes, table: bytes, sinPart: bytes, bodies: bytes)
    requires |ehdr| == EHDR_SIZE && |ehdr| + |table| <= DATA_START
    ensures var area := ehdr + table + sinPart;
            var data := Resize(area, DATA_START) + bodies;
            && |data| == DATA_START + |bodies|
            && data == ehdr + data[EHDR_SIZE..]
            && data[EHDR_SIZE..EHDR_SIZE + |table|] == table
            && data[DATA_START..] == bodies
            && forall j :: 0 <= j < DATA_START ==> data[j] == if j < |area| then area[j] else 0
  {
    var area := ehdr + table + sinPart;
    var head := Resize(area, DATA_START);
    var data := head + bodies;
    assert forall j :: 0 <= j < DATA_START ==> data[j] == head[j];
    assert forall j :: 0 <= j < |table| ==> data[EHDR_SIZE + j] == area[EHDR_SIZE + j] == table[j];
  }

  /** A run of segments inside a whole table is read back. */
  lemma RunIsRead(g: I10e, data: bytes, phnum: nat, pre: seq<Segment>, run: seq<Segment>, post: seq<Segment>)
    requires |pre| + |run| <= phnum && |data| < U32_LIMIT
    requires EHDR_SIZE + PHDR_SIZE * |pre + run + post| <= DATA_START <= |data|
    requires data[EHDR_SIZE..EHDR_SIZE + PHDR_SIZE * |pre + run + post|] == PhdrTable(pre + run + post, DATA_START)
    requires data[DATA_START..] == Bodies(pre + run + post)
    ensures SegmentsFrom(g, data, |pre|, phnum) == SegmentsFrom(StoredAll(g, run), data, |pre| + |run|, phnum)
  {
    hide PhdrTable, Bodies, StoredAll, OneSegment, SegmentsFrom;
    var all := pre + run + post;
    assert all == pre + (run + post);
    var offset := DATA_START + |Bodies(pre)|;
    TableOfConcat(pre, run + post, DATA_START);
    BodiesOfConcat(pre, run + post);
    TableOfConcat(run, post, offset);
    BodiesOfConcat(run, post);
    var n, a, b := EHDR_SIZE + PHDR_SIZE * |all|, PHDR_SIZE * |pre|, PHDR_SIZE * |pre| + PHDR_SIZE * |run|;
    SliceOfSlice(data, EHDR_SIZE, n, a, b);
    assert PhdrTable(all, DATA_START)[a..b] == PhdrTable(run, offset);
    var c, d := |Bodies(pre)|, |Bodies(pre)| + |Bodies(run)|;
    assert data[DATA_START..] == data[DATA_START..|data|];
    SliceOfSlice(data, DATA_START, |data|, c, d);
    assert Bodies(all)[c..d] == Bodies(run);
    TableIsRead(g, data, |pre|, phnum, run, offset);
  }

  /** The loop over a created image reads the counted segments first. */
  lemma CountedAreRead(f: I10e, sinPart: bytes, base: I10e, data: bytes)
    requires data == Resize(HeaderArea(f, sinPart), DATA_START) + Bodies(Counted(f) + Uncounted(f)) && |data| < U32_LIMIT
    ensures LoadedFrom(base, data)
            == SegmentsFrom(StoredAll(base.(hdrEntrypoint := EntryPoint(f)), Counted(f)), data, |Counted(f)|, PhNum(f))
  {
    hide EhdrBytes, PhdrTable, Bodies, U32At, U16At, EntryPoint, StoredAll, OneSegment, Counted, Uncounted, Resize, HeaderArea, SegmentsFrom;
    CreatedLayout(f, sinPart);
    var a, b := Counted(f), Uncounted(f);
    assert [] + a + b == a + b;
    RunIsRead(base.(hdrEntrypoint := EntryPoint(f)), data, PhNum(f), [], a, b);
  }

  /** Without a SIN image the counted segments come back; ipl, rpm and appsbl are never read. */
  lemma RoundTripWithoutSin(f: I10e)
    requires !HasSin(f) && Created(f).Some? && |Created(f).value| < U32_LIMIT
    ensures LoadedFrom(Fresh(), Created(f).value) == Loaded(Expected(f))
  {
    hide LoadedFrom, Fresh, Expected, StoredAll, Resize, HeaderArea, Bodies, Counted, Uncounted;
    CountedAreRead(f, [], Fresh(), Created(f).value);
    CountedStored(f);
  }

  /** With a SIN image and an uncounted segment, the first uncounted segment is read in its place. */
  lemma SinDisplaced(f: I10e)
    requires HasSin(f) && Uncounted(f) != [] && Created(f).Some? && |Created(f).value| < U32_LIMIT
    ensures LoadedFrom(Fresh(), Created(f).value) == Loaded(Stored(Expected(f), Uncounted(f)[0]))
    ensures LoadedFrom(Fresh(), Created(f).value).i10e.sonySinImage == []
  {
    hide LoadedFrom, Resize, HeaderArea, Bodies, Counted, Uncounted, PhdrTable, EntryPoint, SinPart, Fresh, Expected, Stored, StoredAll, OneSegment;
    var sinPart := SinPart(f).value;
    var data := Created(f).value;
    CountedAreRead(f, sinPart, Fresh(), data);
    CountedStored(f);
    CreatedLayout(f, sinPart);
    var a, b := Counted(f), Uncounted(f);
    assert a + b[..1] + b[1..] == a + b;
    RunIsRead(Expected(f), data, PhNum(f), a, b[..1], b[1..]);
    StoredOne(Expected(f), b[..1]);
    StoredKeepsSin(Expected(f), b[0]);
    ExpectedHasNoSin(f);
  }

  lemma StoredOne(g: I10e, segments: seq<Segment>)
    requires |segments| == 1
    ensures StoredAll(g, segments) == Stored(g, segments[0])
  {
  }

  lemma StoredKeepsSin(g: I10e, s: Segment)
    ensures Stored(g, s).sonySinImage == g.sonySinImage && Stored(g, s).sonySinHdr == g.sonySinHdr
  {
  }

  lemma ExpectedHasNoSin(f: I10e)
    ensures Expected(f).sonySinImage == []
  {
  }

  /** A SIN header as loading leaves it: its type, no offset, and equal sizes that the image covers. */
  predicate NormalSin(f: I10e) {
    && |f.sonySinHdr| == PHDR_SIZE
    && U32At(f.sonySinHdr, P_TYPE) == TYPE_SIN && U32At(f.sonySinHdr, P_OFFSET) == 0
    && U32At(f.sonySinHdr, P_FILESZ) == U32At(f.sonySinHdr, P_MEMSZ) <= |f.sonySinImage| < U32_LIMIT - DATA_START
  }

  /**
   When an image of the given file size, placed at `begin`, comes back. Two trailing bytes must not both be
   zero, and they must lie before 4096; at 4095 the outcome depends on the first byte of the segments.
   */
  predicate Survives(sin: bytes, filesz: nat, begin: nat, bodies: bytes)
    requires |sin| == filesz || |sin| == filesz + 2
  {
    if |sin| == filesz then
      begin + filesz + 2 <= DATA_START || bodies == [] || bodies[0] == 0
    else
      && (sin[filesz] != 0 || sin[filesz + 1] != 0)
      && (begin + filesz + 2 <= DATA_START || (bodies != [] && bodies[0] == sin[filesz + 1]))
  }

  lemma SinImageBack(data: bytes, sin: bytes, filesz: nat, begin: nat, bodies: bytes)
    requires |sin| == filesz || |sin| == filesz + 2
    requires |data| == DATA_START + |bodies| < U32_LIMIT && data[DATA_START..] == bodies
    requires begin + filesz < DATA_START
    requires forall j :: begin <= j < DATA_START ==> data[j] == if j - begin < |sin| then sin[j - begin] else 0
    ensures SinImage(data, begin, begin + filesz) == Some(sin) <==> Survives(sin, filesz, begin, bodies)
  {
    var end := begin + filesz;
    assert forall j :: 0 <= j < filesz ==> data[begin..end][j] == sin[j];
    assert bodies != [] ==> data[DATA_START] == bodies[0];
    if |sin| == filesz {
      assert data[begin..end] == sin;
    } else if end + 2 <= |data| {
      var longer := data[begin..end + 2];
      assert longer[filesz] == data[end] && longer[filesz + 1] == data[end + 1];
      assert data[end] == sin[filesz];
      assert longer == sin <==> longer[filesz + 1] == sin[filesz + 1];
    }
  }

  /** The counted segments together with the SIN image. */
  function ExpectedWithSin(f: I10e): I10e {
    Expected(f).(sonySinImage := f.sonySinImage, sonySinHdr := f.sonySinHdr)
  }

  lemma PutZeroOffset(hdr: bytes, o: u32)
    requires |hdr| == PHDR_SIZE && U32At(hdr, P_OFFSET) == 0
    ensures PutU32(PutU32(hdr, P_OFFSET, o), P_OFFSET, 0) == hdr
  {
    U32BytesOfU32At(hdr, P_OFFSET);
    assert PutU32(PutU32(hdr, P_OFFSET, o), P_OFFSET, 0) == PutU32(hdr, P_OFFSET, 0);
  }

  /** The SIN header is read from behind the table; only the image can come back different. */
  lemma SinHeaderIsRead(g: I10e, data: bytes, at: nat, hdr: bytes, begin: u32)
    requires at + PHDR_SIZE <= |data| < U32_LIMIT && |hdr| == PHDR_SIZE
    requires data[at..at + PHDR_SIZE] == PutU32(hdr, P_OFFSET, begin)
    requires U32At(hdr, P_TYPE) == TYPE_SIN && U32At(hdr, P_OFFSET) == 0
    requires begin + U32At(hdr, P_MEMSZ) <= |data|
    ensures OneSegment(g, data, at)
            == match SinImage(data, begin, begin + U32At(hdr, P_MEMSZ))
               case None => OutOfBounds
               case Some(image) => Loaded(g.(sonySinImage := image, sonySinHdr := hdr))
  {
    hide SinImage, U32At, U32Bytes;
    var phdr := PutU32(hdr, P_OFFSET, begin);
    ReadBackWord(hdr, P_OFFSET, begin);
    ReadBeside(hdr, P_OFFSET, begin, P_TYPE);
    ReadBeside(hdr, P_OFFSET, begin, P_MEMSZ);
    SliceOfSlice(data, at, at + PHDR_SIZE, P_TYPE, P_TYPE + 4);
    SliceOfSlice(data, at, at + PHDR_SIZE, P_OFFSET, P_OFFSET + 4);
    SliceOfSlice(data, at, at + PHDR_SIZE, P_MEMSZ, P_MEMSZ + 4);
    U32AtSlice(data, at + P_TYPE, phdr, P_TYPE);
    U32AtSlice(data, at + P_OFFSET, phdr, P_OFFSET);
    U32AtSlice(data, at + P_MEMSZ, phdr, P_MEMSZ);
    PutZeroOffset(hdr, begin);
  }

  lemma SinInArea(ehdrAndTable: bytes, phdr: bytes, sin: bytes, data: bytes)
    requires |phdr| == PHDR_SIZE && |ehdrAndTable| + PHDR_SIZE <= DATA_START <= |data|
    requires var area := ehdrAndTable + (phdr + sin);
             forall j :: 0 <= j < DATA_START ==> data[j] == if j < |area| then area[j] else 0
    ensures data[|ehdrAndTable|..|ehdrAndTable| + PHDR_SIZE] == phdr
    ensures var begin := |ehdrAndTable| + PHDR_SIZE;
            forall j :: begin <= j < DATA_START ==> data[j] == if j - begin < |sin| then sin[j - begin] else 0
  {
  }

  /** With kernel, ramdisk, cmdline and SIN only, everything comes back exactly when the SIN image survives. */
  lemma RoundTripWithSin(f: I10e)
    requires HasSin(f) && NormalSin(f) && Uncounted(f) == [] && Created(f).Some? && |Created(f).value| < U32_LIMIT
    ensures var filesz := U32At(f.sonySinHdr, P_FILESZ);
            && (|f.sonySinImage| == filesz || |f.sonySinImage| == filesz + 2)
            && (LoadedFrom(Fresh(), Created(f).value) == Loaded(ExpectedWithSin(f))
                <==> Survives(f.sonySinImage, filesz, SinOffset(f), Bodies(Counted(f))))
  {
    hide LoadedFrom, Resize, Bodies, PhdrTable, EntryPoint, Fresh, Expected, Stored, StoredAll, Counted, Uncounted, EhdrBytes,
         U32At, PutU32, OneSegment, Survives, SinImage;
    var filesz: int := U32At(f.sonySinHdr, P_FILESZ);
    var begin := SinOffset(f);
    var phdr := PutU32(f.sonySinHdr, P_OFFSET, begin);
    var sinPart := SinPart(f).value;
    var data := Created(f).value;
    assert sinPart == phdr + f.sonySinImage && begin + filesz < DATA_START;
    CountedAreRead(f, sinPart, Fresh(), data);
    CountedStored(f);
    CreatedLayout(f, sinPart);
    var a := Counted(f);
    assert a + Uncounted(f) == a;
    var ehdrAndTable := EhdrBytes(EntryPoint(f), PhNum(f)) + PhdrTable(a, DATA_START);
    assert HeaderArea(f, sinPart) == ehdrAndTable + (phdr + f.sonySinImage);
    SinInArea(ehdrAndTable, phdr, f.sonySinImage, data);
    var at := EHDR_SIZE + PHDR_SIZE * |a|;
    SinHeaderIsRead(Expected(f), data, at, f.sonySinHdr, begin);
    SinImageBack(data, f.sonySinImage, filesz, begin, Bodies(a));
    assert LoadedFrom(Fresh(), data) == OneSegment(Expected(f), data, at) by {
      LastSegment(Expected(f), data, |a|, PhNum(f));
    }
  }

  lemma LastSegment(g: I10e, data: bytes, i: nat, phnum: nat)
    requires phnum == i + 1
    ensures SegmentsFrom(g, data, i, phnum) == OneSegment(g, data, EHDR_SIZE + PHDR_SIZE * i)
  {
    hide OneSegment;
  }

  /** In particular, room for the two bytes before 4096 and a trailer that is not zero are enough. */
  lemma SinWithRoomSurvives(f: I10e)
    requires HasSin(f) && NormalSin(f) && Uncounted(f) == [] && Created(f).Some? && |Created(f).value| < U32_LIMIT
    requires var n := U32At(f.sonySinHdr, P_FILESZ);
             && SinOffset(f) + n + 2 <= DATA_START
             && (|f.sonySinImage| == n + 2 ==> f.sonySinImage[n] != 0 || f.sonySinImage[n + 1] != 0)
    ensures LoadedFrom(Fresh(), Created(f).value) == Loaded(ExpectedWithSin(f))
  {
    hide LoadedFrom, Created, Expected, ExpectedWithSin, Counted, Uncounted, Bodies, U32At, NormalSin;
    RoundTripWithSin(f);
  }

  // ---------------------------------------------------------------------------
  // A SIN image that does not come back
  // ---------------------------------------------------------------------------

  /** A kernel and a SIN image of declared size 0 with the two extra bytes, both zero. */
  function ZeroTrailer(): I10e {
    Fresh().(kernelImage := [1], sonySinImage := [0, 0], sonySinHdr := U32Bytes(TYPE_SIN) + Zeros(PHDR_SIZE - 4))
  }

  lemma ZeroTrailerIsNormal()
    ensures NormalSin(ZeroTrailer()) && U32At(ZeroTrailer().sonySinHdr, P_FILESZ) == 0
  {
    hide U32Bytes, Fresh;
    var hdr := ZeroTrailer().sonySinHdr;
    var word := U32Bytes(TYPE_SIN);
    U32RoundTrip(TYPE_SIN);
    assert hdr[0..4] == word == word[0..4];
    U32AtSlice(hdr, 0, word, 0);
  }

  /** The two zeros are taken for padding. */
  lemma ZeroTrailerIsLost()
    ensures var f := ZeroTrailer();
            && Created(f).Some? && |Created(f).value| < U32_LIMIT
            && LoadedFrom(Fresh(), Created(f).value) != Loaded(ExpectedWithSin(f))
  {
    hide LoadedFrom, PhdrTable, EntryPoint, Expected, EhdrBytes, U32At, PutU32;
    var f := ZeroTrailer();
    ZeroTrailerIsNormal();
    assert Created(f).Some?;
    assert Counted(f) + Uncounted(f) == [Segment(Kernel, 0, [1])];
    assert Bodies([Segment(Kernel, 0, [1])]) == [1];
    RoundTripWithSin(f);
  }
}
