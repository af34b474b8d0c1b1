/** The plain Android boot image: one header page followed by page-aligned images. */
module AndroidFormat {
  import opened Bytes
  import opened Intermediate

  const BOOT_MAGIC: bytes := [0x41, 0x4e, 0x44, 0x52, 0x4f, 0x49, 0x44, 0x21] // "ANDROID!"
  const BOOT_NAME_SIZE := 16
  const BOOT_ARGS_SIZE := 512
  const SEARCH_RANGE := 512
  const WORD_COUNT := 10

  /** sizeof(BootImageHeader), 608 bytes: magic, ten words, name, cmdline and id. */
  const HEADER_SIZE := |BOOT_MAGIC| + 4 * WORD_COUNT + BOOT_NAME_SIZE + BOOT_ARGS_SIZE + HDR_ID_SIZE

  /** A SHA-1 digest; the hash itself stays a parameter. */
  type Digest = d: bytes | |d| == 20 witness Zeros(20)
  type Sha1 = bytes -> Digest

  // ---------------------------------------------------------------------------
  // Padding
  // ---------------------------------------------------------------------------

  function SkipPadding(itemSize: u32, pageSize: u32): u32 {
    var pageMask := Wrap32(pageSize - 1);
    if And(itemSize, pageMask) == 0 then 0 else Wrap32(pageSize - And(itemSize, pageMask))
  }

  /** For the accepted page sizes, skipPadding is the distance to the next page boundary. */
  lemma SkipPaddingReachesBoundary(x: u32, p: u32)
    requires ValidPageSize(p)
    ensures SkipPadding(x, p) == Gap(x, p)
    ensures x == 0 ==> SkipPadding(x, p) == 0
    ensures (x + SkipPadding(x, p)) % p == 0
  {
    hide And;
    assert Wrap32(p - 1) == p - 1;
    AndPageMask(x, p);
    assert SkipPadding(x, p) == Gap(x, p);
    GapReachesMultiple(x, p);
  }

  /** An image followed by the zeros that fill its last page. */
  function Padded(image: bytes, pageSize: u32): (r: bytes)
    ensures |image| <= |r| && r[..|image|] == image
  {
    image + Zeros(SkipPadding(Wrap32(|image|), pageSize))
  }

  lemma PaddedIsPageAligned(image: bytes, p: u32)
    requires ValidPageSize(p) && |image| < U32_LIMIT
    ensures |Padded(image, p)| % p == 0
    ensures |image| <= |Padded(image, p)| < |image| + p
    ensures |Padded(image, p)| == |image| + SkipPadding(|image|, p)
    ensures image == [] ==> Padded(image, p) == []
  {
    var n := |image|;
    assert Wrap32(n) == n;
    var gap := SkipPadding(n, p);
    assert gap < p && (n + gap) % p == 0 && (n == 0 ==> gap == 0) by {
      SkipPaddingReachesBoundary(n, p);
    }
    assert |Padded(image, p)| == n + gap;
  }

  // ---------------------------------------------------------------------------
  // The header
  // ---------------------------------------------------------------------------

  /** The bytes before the first NUL (a C string, or the whole field when it has no NUL). */
  function CString(s: bytes): (r: bytes)
    ensures |r| <= |s| && r == s[..|r|] && 0 !in r
    ensures |r| < |s| ==> s[|r|] == 0
  {
    if s == [] || s[0] == 0 then [] else [s[0]] + CString(s[1..])
  }

  /** strcpy of at most size - 1 bytes into a zeroed field of the given size. */
  function StringField(s: bytes, size: nat): (r: bytes)
    requires size > 0
    ensures |r| == size
  {
    Resize(CString(s[..if |s| < size - 1 then |s| else size - 1]), size)
  }

  /** What loading a string field gives back. */
  function Truncated(s: bytes, size: nat): bytes
    requires size > 0
  {
    CString(s[..if |s| < size - 1 then |s| else size - 1])
  }

  lemma CStringOfPadded(s: bytes, n: nat)
    requires 0 !in s
    ensures CString(s + Zeros(n)) == s
  {
    if s == [] {
    } else {
      assert (s + Zeros(n))[1..] == s[1..] + Zeros(n);
      CStringOfPadded(s[1..], n);
    }
  }

  lemma StringFieldRoundTrip(s: bytes, size: nat)
    requires size > 0
    ensures CString(StringField(s, size)) == Truncated(s, size)
  {
    var t := Truncated(s, size);
    CStringOfPadded(t, size - |t|);
  }

  /** A string survives the header exactly when it is NUL-free and shorter than its field. */
  lemma TruncatedIsIdentity(s: bytes, size: nat)
    requires size > 0
    ensures Truncated(s, size) == s <==> 0 !in s && |s| < size
    ensures 0 !in s ==> Truncated(s, size) == s[..if |s| < size - 1 then |s| else size - 1]
  {
    var n := if |s| < size - 1 then |s| else size - 1;
    if 0 !in s {
      assert s[..n] + Zeros(0) == s[..n];
      CStringOfPadded(s[..n], 0);
    }
  }

  /** The header's fields between the magic and the end; the words are in file order. */
  datatype Header = Header(words: seq<u32>, name: bytes, cmdline: bytes, id: bytes)

  // Positions in `words`
  const KERNEL_SIZE := 0
  const KERNEL_ADDR := 1
  const RAMDISK_SIZE := 2
  const RAMDISK_ADDR := 3
  const SECOND_SIZE := 4
  const SECOND_ADDR := 5
  const TAGS_ADDR := 6
  const PAGE_SIZE := 7
  const DT_SIZE := 8
  const UNUSED := 9

  predicate ValidHeader(h: Header) {
    |h.words| == WORD_COUNT && |h.name| == BOOT_NAME_SIZE && |h.cmdline| == BOOT_ARGS_SIZE && |h.id| == HDR_ID_SIZE
  }

  function HeaderBytes(h: Header): (r: bytes)
    requires ValidHeader(h)
    ensures |r| == HEADER_SIZE
  {
    BOOT_MAGIC + WordsBytes(h.words) + (h.name + h.cmdline + h.id)
  }

  function ReadHeader(data: bytes, at: nat): (h: Header)
    requires at + HEADER_SIZE <= |data|
    ensures ValidHeader(h)
  {
    Header(seq(WORD_COUNT, i requires 0 <= i < WORD_COUNT => U32At(data, at + 8 + 4 * i)),
           data[at + 48..at + 64], data[at + 64..at + 576], data[at + 576..at + 608])
  }

  lemma HeaderRoundTrip(h: Header, rest: bytes)
    requires ValidHeader(h)
    ensures ReadHeader(HeaderBytes(h) + rest, 0) == h
  {
    var data := HeaderBytes(h) + rest;
    var tail := h.name + h.cmdline + h.id + rest;
    assert data == BOOT_MAGIC + WordsBytes(h.words) + tail;
    forall i | 0 <= i < WORD_COUNT
      ensures ReadHeader(data, 0).words[i] == h.words[i]
    {
      WordInPlace(BOOT_MAGIC, h.words, tail, i);
    }
    assert data[48..] == tail;
    assert data[48..64] == h.name;
    assert data[64..576] == h.cmdline;
    assert data[576..608] == h.id;
  }

  /** What the header hash covers, in the order it is fed to SHA-1. */
  function HashInput(kernel: bytes, kernelSize: u32, ramdisk: bytes, ramdiskSize: u32, f: I10e): bytes {
    kernel + U32Bytes(kernelSize) + ramdisk + U32Bytes(ramdiskSize)
    + f.secondImage + U32Bytes(f.hdrSecondSize)
    + (if f.dtImage == [] then [] else f.dtImage + U32Bytes(f.hdrDtSize))
  }

  function HashField(digest: Digest): (r: bytes)
    ensures |r| == HDR_ID_SIZE
  {
    digest + Zeros(HDR_ID_SIZE - 20)
  }

  /** The header that is written for f; MTK images store adjusted sizes. */
  function HeaderOf(f: I10e, kernelSize: u32, ramdiskSize: u32, digest: Digest): (h: Header)
    ensures ValidHeader(h)
  {
    Header([kernelSize, f.kernelAddr, ramdiskSize, f.ramdiskAddr, f.hdrSecondSize, f.secondAddr,
            f.tagsAddr, f.pageSize, f.hdrDtSize, f.hdrUnused],
           StringField(f.boardName, BOOT_NAME_SIZE),
           StringField(f.cmdline, BOOT_ARGS_SIZE),
           HashField(digest))
  }

  /** The fields after a header has been read. */
  function WithHeader(f: I10e, h: Header): I10e
    requires ValidHeader(h)
  {
    f.(kernelAddr := h.words[KERNEL_ADDR],
       ramdiskAddr := h.words[RAMDISK_ADDR],
       secondAddr := h.words[SECOND_ADDR],
       tagsAddr := h.words[TAGS_ADDR],
       pageSize := h.words[PAGE_SIZE],
       boardName := CString(h.name),
       cmdline := CString(h.cmdline),
       hdrKernelSize := h.words[KERNEL_SIZE],
       hdrRamdiskSize := h.words[RAMDISK_SIZE],
       hdrSecondSize := h.words[SECOND_SIZE],
       hdrDtSize := h.words[DT_SIZE],
       hdrUnused := h.words[UNUSED],
       hdrId := h.id)
  }

  // ---------------------------------------------------------------------------
  // The created image
  // ---------------------------------------------------------------------------

  /** A header page, then each image on its own run of pages. */
  function Assemble(h: Header, kernel: bytes, ramdisk: bytes, second: bytes, dt: bytes): bytes
    requires ValidHeader(h)
  {
    var p := h.words[PAGE_SIZE];
    Padded(HeaderBytes(h), p) + Padded(kernel, p) + Padded(ramdisk, p)
    + (if second == [] then [] else Padded(second, p))
    + (if dt == [] then [] else Padded(dt, p))
  }

  function HeaderFor(f: I10e, sha1: Sha1): (h: Header)
    ensures ValidHeader(h)
  {
    HeaderOf(f, f.hdrKernelSize, f.hdrRamdiskSize,
             sha1(HashInput(f.kernelImage, f.hdrKernelSize, f.ramdiskImage, f.hdrRamdiskSize, f)))
  }

  function Created(f: I10e, sha1: Sha1): Option<bytes> {
    if ValidPageSize(f.pageSize)
    then Some(Assemble(HeaderFor(f, sha1), f.kernelImage, f.ramdiskImage, f.secondImage, f.dtImage))
    else None
  }

  // ---------------------------------------------------------------------------
  // Loading
  // ---------------------------------------------------------------------------

  /** Index of the first Android magic at most `range` bytes into the data. */
  function HeaderIndex(data: bytes, range: nat): (r: Option<nat>)
    ensures r.Some? ==> r.value <= range && r.value + HEADER_SIZE <= |data|
  {
    if |data| < range + HEADER_SIZE then None else FindFirst(data, BOOT_MAGIC, 0, range + 1)
  }

  /** The cursor after an item and its padding; all sums are 32-bit. */
  function Advance(pos: u32, size: u32, pageSize: u32): u32 {
    Wrap32(Wrap32(pos + size) + SkipPadding(size, pageSize))
  }

  datatype Cut = Cut(image: bytes) | TooShort | Wild

  /** The bounds test before an image is copied, with its 32-bit sum, and the copy. */
  function CutImage(data: bytes, pos: u32, size: u32): Cut {
    if Wrap32(pos + size) > |data| then TooShort
    else if pos + size > |data| then Wild
    else Cut(data[pos..pos + size])
  }

  /** The device tree is cut off at the end of the data instead of being rejected. */
  function CutDeviceTree(data: bytes, pos: u32, size: u32): (c: Cut)
    ensures c != TooShort
  {
    if Wrap32(pos + size) > |data| then
      if pos + size >= U32_LIMIT || pos > |data| then Wild else Cut(data[pos..])
    else
      if pos + size > |data| then Wild else Cut(data[pos..pos + size])
  }

  /** loadHeader: the page size is checked before anything is stored. */
  function HeaderLoaded(f: I10e, data: bytes, at: nat): Load {
    if |data| < at + HEADER_SIZE then Rejected
    else
      var h := ReadHeader(data, at);
      if ValidPageSize(h.words[PAGE_SIZE]) then Loaded(WithHeader(f, h)) else Rejected
  }

  function Images(f: I10e, data: bytes, at: nat): Load {
    var pos := Wrap32(Wrap32(at + HEADER_SIZE) + SkipPadding(HEADER_SIZE, f.pageSize));
    match CutImage(data, pos, f.hdrKernelSize)
    case TooShort => Rejected
    case Wild => OutOfBounds
    case Cut(kernel) =>
      var pos1 := Advance(pos, f.hdrKernelSize, f.pageSize);
      match CutImage(data, pos1, f.hdrRamdiskSize)
      case TooShort => Rejected
      case Wild => OutOfBounds
      case Cut(ramdisk) =>
        var pos2 := Advance(pos1, f.hdrRamdiskSize, f.pageSize);
        match CutImage(data, pos2, f.hdrSecondSize)
        case TooShort => Rejected
        case Wild => OutOfBounds
        case Cut(second) =>
          var pos3 := Advance(pos2, f.hdrSecondSize, f.pageSize);
          match CutDeviceTree(data, pos3, f.hdrDtSize)
          case TooShort => Rejected
          case Wild => OutOfBounds
          case Cut(dt) =>
            Loaded(f.(kernelImage := kernel, ramdiskImage := ramdisk, secondImage := second, dtImage := dt))
  }

  /** loadImage as a function of the fields before the call and the data. */
  function LoadedFrom(f: I10e, data: bytes): Load {
    match HeaderIndex(data, SEARCH_RANGE)
    case None => Rejected
    case Some(at) =>
      match HeaderLoaded(f, data, at)
      case Loaded(g) => Images(g, data, at)
      case other => other
  }

  // ---------------------------------------------------------------------------
  // The codec
  // ---------------------------------------------------------------------------

  /** updateSha1Hash: the chunks are fed to the hash one by one. */
  method UpdateSha1Hash(f: I10e, kernelSize: u32, ramdiskSize: u32, sha1: Sha1) returns (id: bytes)
    ensures id == HashField(sha1(HashInput(f.kernelImage, kernelSize, f.ramdiskImage, ramdiskSize, f)))
  {
    var ctx := f.kernelImage;
    ctx := ctx + U32Bytes(kernelSize);
    ctx := ctx + f.ramdiskImage;
    ctx := ctx + U32Bytes(ramdiskSize);
    if f.secondImage != [] {
      ctx := ctx + f.secondImage;
    }
    ctx := ctx + U32Bytes(f.hdrSecondSize);
    if f.dtImage != [] {
      ctx := ctx + f.dtImage;
      ctx := ctx + U32Bytes(f.hdrDtSize);
    }
    assert ctx == HashInput(f.kernelImage, kernelSize, f.ramdiskImage, ramdiskSize, f);
    id := sha1(ctx) + Zeros(HDR_ID_SIZE - 20);
  }

  method CreateImage(impl: Impl, sha1: Sha1, dataOut: ByteVector) returns (ok: bool)
    modifies dataOut
    ensures ok == Created(impl.i10e, sha1).Some?
    ensures dataOut.bytes == if ok then Created(impl.i10e, sha1).value else old(dataOut.bytes)
  {
    hide SkipPadding, StringField, HashInput, HeaderBytes;
    var f := impl.i10e;
    var id := UpdateSha1Hash(f, f.hdrKernelSize, f.hdrRamdiskSize, sha1);
    var hdr := Header(
      [f.hdrKernelSize, f.kernelAddr, f.hdrRamdiskSize, f.ramdiskAddr, f.hdrSecondSize,
       f.secondAddr, f.tagsAddr, f.pageSize, f.hdrDtSize, f.hdrUnused],
      StringField(f.boardName, BOOT_NAME_SIZE), StringField(f.cmdline, BOOT_ARGS_SIZE), id);
    if !ValidPageSize(f.pageSize) {
      return false;
    }
    var data := HeaderBytes(hdr);
    data := data + Zeros(SkipPadding(HEADER_SIZE, f.pageSize));
    data := data + f.kernelImage;
    data := data + Zeros(SkipPadding(Wrap32(|f.kernelImage|), f.pageSize));
    data := data + f.ramdiskImage;
    data := data + Zeros(SkipPadding(Wrap32(|f.ramdiskImage|), f.pageSize));
    ghost var base := data;
    if f.secondImage != [] {
      data := data + f.secondImage;
      data := data + Zeros(SkipPadding(Wrap32(|f.secondImage|), f.pageSize));
    }
    ghost var upToSecond := data;
    assert upToSecond == base + (if f.secondImage == [] then [] else Padded(f.secondImage, f.pageSize));
    if f.dtImage != [] {
      data := data + f.dtImage;
      data := data + Zeros(SkipPadding(Wrap32(|f.dtImage|), f.pageSize));
    }
    assert data == upToSecond + (if f.dtImage == [] then [] else Padded(f.dtImage, f.pageSize));
    assert hdr == HeaderFor(f, sha1);
    assert base == Padded(HeaderBytes(hdr), f.pageSize) + Padded(f.kernelImage, f.pageSize) + Padded(f.ramdiskImage, f.pageSize);
    dataOut.bytes := data;
    ok := true;
  }

  method FindHeader(data: bytes, searchRange: nat) returns (found: bool, headerIndex: nat)
    ensures found == HeaderIndex(data, searchRange).Some?
    ensures found ==> headerIndex == HeaderIndex(data, searchRange).value
  {
    headerIndex := 0;
    if |data| < searchRange + HEADER_SIZE {
      return false, 0;
    }
    var i := 0;
    while i <= searchRange
      invariant i <= searchRange + 1
      invariant HeaderIndex(data, searchRange) == FindFirst(data, BOOT_MAGIC, i, searchRange + 1)
    {
      if MatchesAt(data, i, BOOT_MAGIC) {
        return true, i;
      }
      i := i + 1;
    }
    return false, 0;
  }

  method LoadHeader(impl: Impl, data: bytes, headerIndex: nat) returns (ok: bool)
    modifies impl`i10e
    ensures ok == HeaderLoaded(old(impl.i10e), data, headerIndex).Loaded?
    ensures impl.i10e == if ok then HeaderLoaded(old(impl.i10e), data, headerIndex).i10e else old(impl.i10e)
  {
    hide CString, ReadHeader, ValidPageSize;
    if |data| < headerIndex + HEADER_SIZE {
      return false;
    }
    var hdr := ReadHeader(data, headerIndex);
    if !ValidPageSize(hdr.words[PAGE_SIZE]) {
      return false;
    }
    impl.i10e := impl.i10e.(kernelAddr := hdr.words[KERNEL_ADDR]);
    impl.i10e := impl.i10e.(ramdiskAddr := hdr.words[RAMDISK_ADDR]);
    impl.i10e := impl.i10e.(secondAddr := hdr.words[SECOND_ADDR]);
    impl.i10e := impl.i10e.(tagsAddr := hdr.words[TAGS_ADDR]);
    impl.i10e := impl.i10e.(pageSize := hdr.words[PAGE_SIZE]);
    impl.i10e := impl.i10e.(boardName := CString(hdr.name));
    impl.i10e := impl.i10e.(cmdline := CString(hdr.cmdline));
    impl.i10e := impl.i10e.(hdrKernelSize := hdr.words[KERNEL_SIZE]);
    impl.i10e := impl.i10e.(hdrRamdiskSize := hdr.words[RAMDISK_SIZE]);
    impl.i10e := impl.i10e.(hdrSecondSize := hdr.words[SECOND_SIZE]);
    impl.i10e := impl.i10e.(hdrDtSize := hdr.words[DT_SIZE]);
    impl.i10e := impl.i10e.(hdrUnused := hdr.words[UNUSED]);
    impl.i10e := impl.i10e.(hdrId := hdr.id);
    ok := true;
  }

  /** The bounds test and copy each image goes through. */
  method TakeImage(data: bytes, pos: u32, size: u32) returns (status: LoadStatus, image: bytes)
    ensures match CutImage(data, pos, size)
            case TooShort => status == LoadFailed
            case Wild => status == LoadUndefined
            case Cut(c) => status == LoadOk && image == c
  {
    image := [];
    if Wrap32(pos + size) > |data| {
      return LoadFailed, [];
    }
    // The sum may have wrapped, and then the copy reads outside the data
    if pos + size > |data| {
      return LoadUndefined, [];
    }
    image := data[pos..pos + size];
    status := LoadOk;
  }

  /** A device tree that runs past the end of the data is cut off there. */
  method TakeDeviceTree(data: bytes, pos: u32, size: u32) returns (status: LoadStatus, image: bytes)
    ensures match CutDeviceTree(data, pos, size)
            case Cut(c) => status == LoadOk && image == c
            case _ => status == LoadUndefined
  {
    image := [];
    if Wrap32(pos + size) > |data| {
      var diff := Wrap32(pos + size) - |data|;
      // [pos, pos + size - diff) is only a range of the data when the sum did not wrap
      if pos + size >= U32_LIMIT || pos > |data| {
        return LoadUndefined, [];
      }
      image := data[pos..pos + size - diff];
    } else {
      if pos + size > |data| {
        return LoadUndefined, [];
      }
      image := data[pos..pos + size];
    }
    if size == 0 {
      image := [];
    }
    status := LoadOk;
  }

  /** The images are cut out one after the other behind the header; a failed load leaves partial data. */
  method LoadImage(impl: Impl, data: bytes) returns (status: LoadStatus)
    modifies impl`i10e
    ensures status == StatusOf(LoadedFrom(old(impl.i10e), data))
    ensures status == LoadOk ==> impl.i10e == LoadedFrom(old(impl.i10e), data).i10e
  {
    hide SkipPadding, HeaderLoaded, HeaderIndex, Advance, CutImage, CutDeviceTree;
    ghost var result := LoadedFrom(impl.i10e, data);
    var found, headerIndex := FindHeader(data, SEARCH_RANGE);
    if !found {
      return LoadFailed;
    }
    var ok := LoadHeader(impl, data, headerIndex);
    if !ok {
      assert result == Rejected by { HeaderLoadedOutcome(old(impl.i10e), data, headerIndex); }
      return LoadFailed;
    }
    assert result == Images(impl.i10e, data, headerIndex);
    var pageSize := impl.i10e.pageSize;
    var image: bytes;

    var pos: u32 := Wrap32(headerIndex + HEADER_SIZE);
    pos := Wrap32(pos + SkipPadding(HEADER_SIZE, pageSize));
    status, image := TakeImage(data, pos, impl.i10e.hdrKernelSize);
    if status != LoadOk {
      return;
    }
    impl.i10e := impl.i10e.(kernelImage := image);

    pos := Advance(pos, impl.i10e.hdrKernelSize, pageSize);
    status, image := TakeImage(data, pos, impl.i10e.hdrRamdiskSize);
    if status != LoadOk {
      return;
    }
    impl.i10e := impl.i10e.(ramdiskImage := image);

    pos := Advance(pos, impl.i10e.hdrRamdiskSize, pageSize);
    status, image := TakeImage(data, pos, impl.i10e.hdrSecondSize);
    if status != LoadOk {
      return;
    }
    impl.i10e := impl.i10e.(secondImage := image);

    pos := Advance(pos, impl.i10e.hdrSecondSize, pageSize);
    status, image := TakeDeviceTree(data, pos, impl.i10e.hdrDtSize);
    if status != LoadOk {
      return;
    }
    impl.i10e := impl.i10e.(dtImage := image);
  }

  lemma HeaderLoadedOutcome(f: I10e, data: bytes, at: nat)
    ensures HeaderLoaded(f, data, at) != OutOfBounds
  {
  }

  // ---------------------------------------------------------------------------
  // Round trip
  // ---------------------------------------------------------------------------

  /** The images of an assembled image start on page boundaries, and so does whatever is appended to it. */
  lemma SegmentsOnPageBoundaries(h: Header, kernel: bytes, ramdisk: bytes, second: bytes, dt: bytes)
    returns (r: nat, s: nat, d: nat)
    requires ValidHeader(h) && ValidPageSize(h.words[PAGE_SIZE])
    requires |kernel| < U32_LIMIT && |ramdisk| < U32_LIMIT && |second| < U32_LIMIT && |dt| < U32_LIMIT
    ensures var p := h.words[PAGE_SIZE];
            r % p == 0 && s % p == 0 && d % p == 0 && |Assemble(h, kernel, ramdisk, second, dt)| % p == 0
    ensures var p := h.words[PAGE_SIZE];
            var image := Assemble(h, kernel, ramdisk, second, dt);
            && p + |kernel| <= r && r + |ramdisk| <= s && s + |second| <= d && d + |dt| <= |image|
            && image[p..p + |kernel|] == kernel && image[r..r + |ramdisk|] == ramdisk
            && image[s..s + |second|] == second && image[d..d + |dt|] == dt
  {
    hide SkipPadding, Padded, Assemble, HeaderBytes;
    var p := h.words[PAGE_SIZE];
    HeaderPage(h, p);
    AssembleSegments(h, kernel, ramdisk, second, dt);
    var head, k1, r1, s1, d1 :=
      Padded(HeaderBytes(h), p), Padded(kernel, p), Padded(ramdisk, p), Padded(second, p), Padded(dt, p);
    var image := Assemble(h, kernel, ramdisk, second, dt);
    r := p + |k1|;
    s := r + |r1|;
    d := s + |s1|;
    StartOfSegment(image, head, kernel, k1, r1 + s1 + d1);
    StartOfSegment(image, head + k1, ramdisk, r1, s1 + d1);
    StartOfSegment(image, head + k1 + r1, second, s1, d1);
    StartOfSegment(image, head + k1 + r1 + s1, dt, d1, []);
    assert r % p == 0 && s % p == 0 && d % p == 0 && |image| % p == 0 by {
      PaddedMultiple(kernel, p, p);
      PaddedMultiple(ramdisk, p, r);
      PaddedMultiple(second, p, s);
      PaddedMultiple(dt, p, d);
    }
  }

  lemma StartOfSegment(image: bytes, pre: bytes, item: bytes, padded: bytes, post: bytes)
    requires image == pre + padded + post && |item| <= |padded| && padded[..|item|] == item
    ensures image[|pre|..|pre| + |item|] == item
  {
    assert image[|pre|..|pre| + |item|] == padded[..|item|];
  }

  lemma PaddedMultiple(image: bytes, p: u32, at: nat)
    requires ValidPageSize(p) && |image| < U32_LIMIT && at % p == 0
    ensures (at + |Padded(image, p)|) % p == 0
  {
    hide Padded;
    PaddedIsPageAligned(image, p);
    MultiplesAdd(at, |Padded(image, p)|, p);
  }

  lemma MultiplesAdd(a: nat, b: nat, p: nat)
    requires p > 0 && a % p == 0 && b % p == 0
    ensures (a + b) % p == 0
  {
    assert a + b == (a / p + b / p) * p;
    DivModUnique(a + b, p, a / p + b / p, 0);
  }

  /** What loading recovers: everything, with the two strings as their fields can hold them. */
  function Recovered(base: I10e, f: I10e, id: bytes): I10e {
    base.(kernelAddr := f.kernelAddr,
          ramdiskAddr := f.ramdiskAddr,
          secondAddr := f.secondAddr,
          tagsAddr := f.tagsAddr,
          pageSize := f.pageSize,
          boardName := Truncated(f.boardName, BOOT_NAME_SIZE),
          cmdline := Truncated(f.cmdline, BOOT_ARGS_SIZE),
          kernelImage := f.kernelImage,
          ramdiskImage := f.ramdiskImage,
          secondImage := f.secondImage,
          dtImage := f.dtImage,
          hdrKernelSize := f.hdrKernelSize,
          hdrRamdiskSize := f.hdrRamdiskSize,
          hdrSecondSize := f.hdrSecondSize,
          hdrDtSize := f.hdrDtSize,
          hdrUnused := f.hdrUnused,
          hdrId := id)
  }

  lemma HeaderPage(h: Header, p: u32)
    requires ValidHeader(h) && ValidPageSize(p)
    ensures |Padded(HeaderBytes(h), p)| == p
    ensures SkipPadding(HEADER_SIZE, p) == p - HEADER_SIZE
    ensures forall i :: HEADER_SIZE <= i < p ==> Padded(HeaderBytes(h), p)[i] == 0
  {
    hide SkipPadding;
    assert SkipPadding(HEADER_SIZE, p) == p - HEADER_SIZE by {
      DivModUnique(HEADER_SIZE, p, 0, HEADER_SIZE);
      SkipPaddingReachesBoundary(HEADER_SIZE, p);
    }
  }

  /** No magic before the given position. */
  predicate NoEarlierMagic(data: bytes, at: nat) {
    forall i :: 0 <= i < at && i + |BOOT_MAGIC| <= |data| ==> !MatchesAt(data, i, BOOT_MAGIC)
  }

  /** The search finds the header behind a prefix without magic that is no longer than its range. */
  lemma HeaderIsFound(pre: bytes, h: Header, rest: bytes, range: nat)
    requires ValidHeader(h) && ValidPageSize(h.words[PAGE_SIZE]) && |pre| <= range <= SEARCH_RANGE
    requires NoEarlierMagic(pre + (Padded(HeaderBytes(h), h.words[PAGE_SIZE]) + rest), |pre|)
    ensures var data := pre + (Padded(HeaderBytes(h), h.words[PAGE_SIZE]) + rest);
            HeaderIndex(data, range) == Some(|pre|) && |pre| + HEADER_SIZE <= |data| && ReadHeader(data, |pre|) == h
  {
    hide SkipPadding, MatchesAt, ReadHeader, FindFirst;
    var p := h.words[PAGE_SIZE];
    HeaderPage(h, p);
    var pad := Zeros(SkipPadding(HEADER_SIZE, p));
    var page := Padded(HeaderBytes(h), p);
    var data := pre + (page + rest);
    MagicStarts(pre, h, pad + rest);
    assert page + rest == HeaderBytes(h) + (pad + rest);
    var r := FindFirst(data, BOOT_MAGIC, 0, range + 1);
    assert r.Some? && !(r.value < |pre|) && !(|pre| < r.value);
    HeaderRoundTrip(h, pad + rest);
    HeaderMoves(pre, HeaderBytes(h) + (pad + rest));
  }

  lemma MagicStarts(pre: bytes, h: Header, rest: bytes)
    requires ValidHeader(h)
    ensures MatchesAt(pre + (HeaderBytes(h) + rest), |pre|, BOOT_MAGIC)
  {
    hide WordsBytes;
    var data := pre + (HeaderBytes(h) + rest);
    assert data == pre + BOOT_MAGIC + (WordsBytes(h.words) + (h.name + h.cmdline + h.id) + rest);
    SliceOfConcat(pre, BOOT_MAGIC, WordsBytes(h.words) + (h.name + h.cmdline + h.id) + rest);
  }

  lemma WordMoves(pre: bytes, data: bytes, pos: nat)
    requires pos + 4 <= |data|
    ensures U32At(pre + data, |pre| + pos) == U32At(data, pos)
  {
    hide U32At;
    var whole := pre + data;
    assert whole[|pre| + pos..|pre| + pos + 4] == data[pos..pos + 4];
    U32AtSlice(whole, |pre| + pos, data, pos);
  }

  /** A header reads the same wherever it stands. */
  lemma HeaderMoves(pre: bytes, data: bytes)
    requires |data| >= HEADER_SIZE
    ensures |pre| + HEADER_SIZE <= |pre + data| && ReadHeader(pre + data, |pre|) == ReadHeader(data, 0)
  {
    hide U32At;
    var whole, at := pre + data, |pre|;
    forall i | 0 <= i < WORD_COUNT ensures U32At(whole, at + 8 + 4 * i) == U32At(data, 8 + 4 * i) {
      WordMoves(pre, data, 8 + 4 * i);
    }
    assert whole[at + 48..at + 64] == data[48..64] && whole[at + 64..at + 576] == data[64..576];
    assert whole[at + 576..at + 608] == data[576..608];
  }

  /** The header and its magic are found at the very start of an assembled image. */
  lemma HeaderIsFirst(h: Header, rest: bytes, range: nat)
    requires ValidHeader(h) && ValidPageSize(h.words[PAGE_SIZE]) && range <= SEARCH_RANGE
    ensures HeaderIndex(Padded(HeaderBytes(h), h.words[PAGE_SIZE]) + rest, range) == Some(0)
    ensures ReadHeader(Padded(HeaderBytes(h), h.words[PAGE_SIZE]) + rest, 0) == h
  {
    hide Padded, HeaderIndex, ReadHeader, HeaderBytes;
    var data := Padded(HeaderBytes(h), h.words[PAGE_SIZE]) + rest;
    assert [] + data == data;
    HeaderIsFound([], h, rest, range);
  }

  /** One step of the cursor: it cuts the image out and lands behind its padding. */
  lemma CutPadded(data: bytes, pre: bytes, image: bytes, post: bytes, p: u32)
    requires ValidPageSize(p) && data == pre + Padded(image, p) + post && |data| < U32_LIMIT
    ensures CutImage(data, |pre|, |image|) == Cut(image)
    ensures CutDeviceTree(data, |pre|, |image|) == Cut(image)
    ensures Advance(|pre|, |image|, p) == |pre + Padded(image, p)|
  {
    hide SkipPadding;
    PaddedIsPageAligned(image, p);
    assert data[|pre|..|pre| + |image|] == image;
  }

  /** Assemble with the absent images written out as empty runs of pages. */
  lemma AssembleSegments(h: Header, kernel: bytes, ramdisk: bytes, second: bytes, dt: bytes)
    requires ValidHeader(h) && ValidPageSize(h.words[PAGE_SIZE])
    ensures var p := h.words[PAGE_SIZE];
            Assemble(h, kernel, ramdisk, second, dt)
            == Padded(HeaderBytes(h), p) + Padded(kernel, p) + Padded(ramdisk, p) + Padded(second, p) + Padded(dt, p)
  {
    var p := h.words[PAGE_SIZE];
    PaddedIsPageAligned([], p);
  }

  /** Cutting the images of an assembled image back out, whatever stands in front of it and follows it. */
  lemma ImagesBehind(f: I10e, h: Header, kernel: bytes, ramdisk: bytes, second: bytes, dt: bytes, pre: bytes, tail: bytes)
    requires ValidHeader(h) && ValidPageSize(f.pageSize) && h.words[PAGE_SIZE] == f.pageSize
    requires |pre + (Assemble(h, kernel, ramdisk, second, dt) + tail)| < U32_LIMIT
    requires f.hdrKernelSize == |kernel| && f.hdrRamdiskSize == |ramdisk|
    requires f.hdrSecondSize == |second| && f.hdrDtSize == |dt|
    ensures Images(f, pre + (Assemble(h, kernel, ramdisk, second, dt) + tail), |pre|)
            == Loaded(f.(kernelImage := kernel, ramdiskImage := ramdisk, secondImage := second, dtImage := dt))
  {
    hide SkipPadding, CutImage, CutDeviceTree, Advance, Padded, Assemble, HeaderBytes;
    var p := f.pageSize;
    HeaderPage(h, p);
    AssembleSegments(h, kernel, ramdisk, second, dt);
    var data := pre + (Assemble(h, kernel, ramdisk, second, dt) + tail);
    var page, k, r, s, d := Padded(HeaderBytes(h), p), Padded(kernel, p), Padded(ramdisk, p), Padded(second, p), Padded(dt, p);
    var s0 := pre + page;
    PartsBehind(pre, page, k, r, s, d, tail);
    CutPadded(data, s0, kernel, r + s + d + tail, p);
    CutPadded(data, s0 + k, ramdisk, s + d + tail, p);
    CutPadded(data, s0 + k + r, second, d + tail, p);
    CutPadded(data, s0 + k + r + s, dt, tail, p);
  }

  /** A file in parts, divided in front of each image. */
  lemma PartsBehind(pre: bytes, page: bytes, k: bytes, r: bytes, s: bytes, d: bytes, tail: bytes)
    ensures var data := pre + (page + k + r + s + d + tail);
            var s0 := pre + page;
            && data == s0 + k + (r + s + d + tail)
            && data == (s0 + k) + r + (s + d + tail)
            && data == (s0 + k + r) + s + (d + tail)
            && data == (s0 + k + r + s) + d + tail
            && data == pre + (page + (k + r + s + d + tail))
  {
  }

  lemma ImagesOfAssembled(f: I10e, h: Header, kernel: bytes, ramdisk: bytes, second: bytes, dt: bytes, tail: bytes)
    requires ValidHeader(h) && ValidPageSize(f.pageSize) && h.words[PAGE_SIZE] == f.pageSize
    requires |Assemble(h, kernel, ramdisk, second, dt) + tail| < U32_LIMIT
    requires f.hdrKernelSize == |kernel| && f.hdrRamdiskSize == |ramdisk|
    requires f.hdrSecondSize == |second| && f.hdrDtSize == |dt|
    ensures Images(f, Assemble(h, kernel, ramdisk, second, dt) + tail, 0)
            == Loaded(f.(kernelImage := kernel, ramdiskImage := ramdisk, secondImage := second, dtImage := dt))
  {
    hide Images, Assemble;
    var data := Assemble(h, kernel, ramdisk, second, dt) + tail;
    assert [] + data == data;
    ImagesBehind(f, h, kernel, ramdisk, second, dt, [], tail);
  }

  /** Loading an assembled image gives the fields back, also behind a prefix without magic and with something appended. */
  lemma RoundTripBehindOf(f: I10e, digest: Digest, base: I10e, pre: bytes, tail: bytes)
    requires ValidPageSize(f.pageSize) && SizesAgree(f) && |pre| <= SEARCH_RANGE
    requires var h := HeaderOf(f, f.hdrKernelSize, f.hdrRamdiskSize, digest);
             var data := pre + (Assemble(h, f.kernelImage, f.ramdiskImage, f.secondImage, f.dtImage) + tail);
             |data| < U32_LIMIT && NoEarlierMagic(data, |pre|)
    ensures var h := HeaderOf(f, f.hdrKernelSize, f.hdrRamdiskSize, digest);
            LoadedFrom(base, pre + (Assemble(h, f.kernelImage, f.ramdiskImage, f.secondImage, f.dtImage) + tail))
            == Loaded(Recovered(base, f, h.id))
  {
    hide SkipPadding, Images, Padded, Assemble, HeaderBytes, ReadHeader, CString, StringField, HeaderIndex, Truncated, NoEarlierMagic;
    var h := HeaderOf(f, f.hdrKernelSize, f.hdrRamdiskSize, digest);
    var p := f.pageSize;
    var image := Assemble(h, f.kernelImage, f.ramdiskImage, f.secondImage, f.dtImage);
    var data := pre + (image + tail);
    AssembleSegments(h, f.kernelImage, f.ramdiskImage, f.secondImage, f.dtImage);
    AssembledImagesFit(h, f.kernelImage, f.ramdiskImage, f.secondImage, f.dtImage);
    var page, k, r, s, d := Padded(HeaderBytes(h), p), Padded(f.kernelImage, p), Padded(f.ramdiskImage, p), Padded(f.secondImage, p), Padded(f.dtImage, p);
    PartsBehind(pre, page, k, r, s, d, tail);
    HeaderIsFound(pre, h, k + r + s + d + tail, SEARCH_RANGE);
    StringFieldRoundTrip(f.boardName, BOOT_NAME_SIZE);
    StringFieldRoundTrip(f.cmdline, BOOT_ARGS_SIZE);
    var g := WithHeader(base, h);
    assert HeaderLoaded(base, data, |pre|) == Loaded(g);
    ImagesBehind(g, h, f.kernelImage, f.ramdiskImage, f.secondImage, f.dtImage, pre, tail);
  }

  lemma RoundTripOf(f: I10e, digest: Digest, base: I10e, tail: bytes)
    requires ValidPageSize(f.pageSize) && SizesAgree(f)
    requires var h := HeaderOf(f, f.hdrKernelSize, f.hdrRamdiskSize, digest);
             |Assemble(h, f.kernelImage, f.ramdiskImage, f.secondImage, f.dtImage) + tail| < U32_LIMIT
    ensures var h := HeaderOf(f, f.hdrKernelSize, f.hdrRamdiskSize, digest);
            LoadedFrom(base, Assemble(h, f.kernelImage, f.ramdiskImage, f.secondImage, f.dtImage) + tail)
            == Loaded(Recovered(base, f, h.id))
  {
    hide LoadedFrom, HeaderOf, Recovered, Assemble;
    var h := HeaderOf(f, f.hdrKernelSize, f.hdrRamdiskSize, digest);
    var data := Assemble(h, f.kernelImage, f.ramdiskImage, f.secondImage, f.dtImage) + tail;
    assert [] + data == data;
    RoundTripBehindOf(f, digest, base, [], tail);
  }

  lemma AssembledImagesFit(h: Header, kernel: bytes, ramdisk: bytes, second: bytes, dt: bytes)
    requires ValidHeader(h)
    ensures var n := |Assemble(h, kernel, ramdisk, second, dt)|;
            |kernel| <= n && |ramdisk| <= n && |second| <= n && |dt| <= n
  {
    hide SkipPadding, HeaderBytes;
  }

  lemma RoundTrip(f: I10e, sha1: Sha1, base: I10e, tail: bytes)
    requires ValidPageSize(f.pageSize) && SizesAgree(f)
    requires |Created(f, sha1).value + tail| < U32_LIMIT
    ensures LoadedFrom(base, Created(f, sha1).value + tail) == Loaded(Recovered(base, f, HeaderFor(f, sha1).id))
  {
    hide LoadedFrom, HeaderOf, Recovered, Assemble, HashInput;
    RoundTripOf(f, sha1(HashInput(f.kernelImage, f.hdrKernelSize, f.ramdiskImage, f.hdrRamdiskSize, f)), base, tail);
  }

  /** The same for an image that starts up to 512 bytes into the file, with no magic in front of it. */
  lemma RoundTripBehind(f: I10e, sha1: Sha1, base: I10e, pre: bytes, tail: bytes)
    requires ValidPageSize(f.pageSize) && SizesAgree(f) && |pre| <= 512
    requires var data := pre + (Created(f, sha1).value + tail);
             |data| < U32_LIMIT && NoEarlierMagic(data, |pre|)
    ensures LoadedFrom(base, pre + (Created(f, sha1).value + tail)) == Loaded(Recovered(base, f, HeaderFor(f, sha1).id))
  {
    hide LoadedFrom, HeaderOf, Recovered, Assemble, HashInput, NoEarlierMagic;
    RoundTripBehindOf(f, sha1(HashInput(f.kernelImage, f.hdrKernelSize, f.ramdiskImage, f.hdrRamdiskSize, f)), base, pre, tail);
  }

  // ---------------------------------------------------------------------------
  // Creating again
  // ---------------------------------------------------------------------------

  lemma {:induction false} CStringOfCString(s: bytes)
    ensures CString(CString(s)) == CString(s)
  {
    var c := CString(s);
    CStringOfPadded(c, 0);
    assert c + Zeros(0) == c;
  }

  /** A truncated string fills its header field as the original string does. */
  lemma FieldOfTruncated(s: bytes, size: nat)
    requires size > 0
    ensures StringField(Truncated(s, size), size) == StringField(s, size)
  {
    var t := Truncated(s, size);
    assert |t| <= size - 1 && t[..|t|] == t;
    CStringOfCString(s[..if |s| < size - 1 then |s| else size - 1]);
  }

  /** Creating again from what was loaded gives the same bytes. */
  lemma CreateIsStable(f: I10e, sha1: Sha1, base: I10e, id: bytes)
    ensures Created(Recovered(base, f, id), sha1) == Created(f, sha1)
  {
    hide Truncated, StringField;
    FieldOfTruncated(f.boardName, BOOT_NAME_SIZE);
    FieldOfTruncated(f.cmdline, BOOT_ARGS_SIZE);
  }
}
