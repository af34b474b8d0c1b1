/** Android images whose kernel and ramdisk may carry a 512-byte MediaTek header. */
module MtkFormat {
  import opened Bytes
  import opened Intermediate
  import opened AndroidFormat

  const MTK_MAGIC: bytes := [0x88, 0x16, 0x88, 0x58]
  const MTK_HEADER_SIZE := 512
  const MTK_SIZE := 4 // offset of the size field

  predicate HasMagic(image: bytes) {
    |image| >= MTK_HEADER_SIZE && MatchesAt(image, 0, MTK_MAGIC)
  }

  // ---------------------------------------------------------------------------
  // Putting headers on and taking them off
  // ---------------------------------------------------------------------------

  /** An image behind its header, whose size field is set. */
  function Wrapped(hdr: bytes, image: bytes): (r: bytes)
    requires hdr == [] || |hdr| == MTK_HEADER_SIZE
    ensures |r| == |hdr| + |image|
  {
    if hdr == [] then image else PutU32(hdr, MTK_SIZE, Wrap32(|image|)) + image
  }

  datatype Stripped = Stripped(hdr: Option<bytes>, image: bytes) | SizeMismatch

  /** A header is recognised by its magic and moved out; a kernel may be longer than its header says. */
  function Strip(image: bytes, exact: bool): Stripped {
    if HasMagic(image) then
      var expected := MTK_HEADER_SIZE + U32At(image, MTK_SIZE);
      if |image| < expected || (exact && |image| != expected) then SizeMismatch
      else Stripped(Some(PutU32(image[..MTK_HEADER_SIZE], MTK_SIZE, 0)), image[MTK_HEADER_SIZE..])
    else Stripped(None, image)
  }

  /** A header that is absent, or complete with a zero size field, on an image that is not taken for one. */
  predicate Preserved(hdr: bytes, image: bytes) {
    if hdr == [] then !HasMagic(image)
    else |hdr| == MTK_HEADER_SIZE && hdr[..|MTK_MAGIC|] == MTK_MAGIC && U32At(hdr, MTK_SIZE) == 0
  }

  function HeaderOption(hdr: bytes): Option<bytes> {
    if hdr == [] then None else Some(hdr)
  }

  lemma PutZeroSize(hdr: bytes)
    requires |hdr| == MTK_HEADER_SIZE
    ensures PutU32(hdr, MTK_SIZE, 0) == hdr <==> U32At(hdr, MTK_SIZE) == 0
  {
    if U32At(hdr, MTK_SIZE) == 0 {
      U32BytesOfU32At(hdr, MTK_SIZE);
      assert PutU32(hdr, MTK_SIZE, 0) == hdr;
    } else {
      ReadBackWord(hdr, MTK_SIZE, 0);
    }
  }

  /** Stripping what was wrapped gives back both parts exactly when they are Preserved. */
  lemma StripWrapped(hdr: bytes, image: bytes, exact: bool)
    requires (hdr == [] || |hdr| == MTK_HEADER_SIZE) && |image| < U32_LIMIT
    ensures Strip(Wrapped(hdr, image), exact) == Stripped(HeaderOption(hdr), image) <==> Preserved(hdr, image)
  {
    hide U32At, U32Bytes;
    var w := Wrapped(hdr, image);
    if hdr != [] {
      var head := PutU32(hdr, MTK_SIZE, |image|);
      assert Wrap32(|image|) == |image|;
      assert w[..MTK_HEADER_SIZE] == head && w[MTK_HEADER_SIZE..] == image;
      assert w[0..4] == head[..MTK_SIZE] == hdr[..MTK_SIZE];
      ReadBackWord(hdr, MTK_SIZE, |image|);
      U32AtSlice(w, MTK_SIZE, head, MTK_SIZE);
      assert PutU32(head, MTK_SIZE, 0) == PutU32(hdr, MTK_SIZE, 0);
      PutZeroSize(hdr);
    }
  }

  // ---------------------------------------------------------------------------
  // Creating
  // ---------------------------------------------------------------------------

  function MtkHeaderFor(f: I10e, kernel: bytes, ramdisk: bytes, sha1: Sha1): (h: Header)
    ensures ValidHeader(h) && h.words[PAGE_SIZE] == f.pageSize
  {
    HeaderOf(f, Wrap32(|kernel|), Wrap32(|ramdisk|),
             sha1(HashInput(kernel, Wrap32(|kernel|), ramdisk, Wrap32(|ramdisk|), f)))
  }

  predicate HeaderSizesOk(f: I10e) {
    && (f.mtkKernelHdr == [] || |f.mtkKernelHdr| == MTK_HEADER_SIZE)
    && (f.mtkRamdiskHdr == [] || |f.mtkRamdiskHdr| == MTK_HEADER_SIZE)
  }

  function Created(f: I10e, sha1: Sha1): Option<bytes> {
    if !HeaderSizesOk(f) || !ValidPageSize(f.pageSize) then None
    else
      var kernel := Wrapped(f.mtkKernelHdr, f.kernelImage);
      var ramdisk := Wrapped(f.mtkRamdiskHdr, f.ramdiskImage);
      Some(Assemble(MtkHeaderFor(f, kernel, ramdisk, sha1), kernel, ramdisk, f.secondImage, f.dtImage))
  }

  /** The hash is fed header and image separately; the digest only depends on their concatenation. */
  method UpdateSha1Hash(f: I10e, kernelHdr: bytes, ramdiskHdr: bytes, kernelSize: u32, ramdiskSize: u32, sha1: Sha1)
    returns (id: bytes)
    ensures id == HashField(sha1(HashInput(kernelHdr + f.kernelImage, kernelSize, ramdiskHdr + f.ramdiskImage, ramdiskSize, f)))
  {
    hide U32Bytes;
    var ctx: bytes := [];
    if kernelHdr != [] {
      ctx := ctx + kernelHdr;
    }
    ctx := ctx + f.kernelImage;
    assert ctx == kernelHdr + f.kernelImage;
    ctx := ctx + U32Bytes(kernelSize);
    ghost var soFar := ctx;
    if ramdiskHdr != [] {
      ctx := ctx + ramdiskHdr;
    }
    ctx := ctx + f.ramdiskImage;
    assert ctx == soFar + (ramdiskHdr + f.ramdiskImage);
    ctx := ctx + U32Bytes(ramdiskSize);
    soFar := ctx;
    if f.secondImage != [] {
      ctx := ctx + f.secondImage;
    }
    assert ctx == soFar + f.secondImage;
    ctx := ctx + U32Bytes(f.hdrSecondSize);
    soFar := ctx;
    if f.dtImage != [] {
      ctx := ctx + f.dtImage;
      ctx := ctx + U32Bytes(f.hdrDtSize);
    }
    assert ctx == soFar + (if f.dtImage == [] then [] else f.dtImage + U32Bytes(f.hdrDtSize));
    id := sha1(ctx) + Zeros(HDR_ID_SIZE - 20);
  }

  method CreateImage(impl: Impl, sha1: Sha1, dataOut: ByteVector) returns (ok: bool)
    modifies dataOut
    ensures ok == Created(impl.i10e, sha1).Some?
    ensures dataOut.bytes == if ok then Created(impl.i10e, sha1).value else old(dataOut.bytes)
  {
    hide SkipPadding, StringField, HashInput, HeaderBytes, PutU32;
    var f := impl.i10e;
    var hasKernelHdr := f.mtkKernelHdr != [];
    var hasRamdiskHdr := f.mtkRamdiskHdr != [];
    if hasKernelHdr && |f.mtkKernelHdr| != MTK_HEADER_SIZE {
      return false;
    }
    if hasRamdiskHdr && |f.mtkRamdiskHdr| != MTK_HEADER_SIZE {
      return false;
    }
    var kernelSize := |f.kernelImage| + |f.mtkKernelHdr|;
    var ramdiskSize := |f.ramdiskImage| + |f.mtkRamdiskHdr|;
    var mtkKernelHdr: bytes := [];
    var mtkRamdiskHdr: bytes := [];
    if hasKernelHdr {
      mtkKernelHdr := PutU32(f.mtkKernelHdr, MTK_SIZE, Wrap32(|f.kernelImage|));
    }
    if hasRamdiskHdr {
      mtkRamdiskHdr := PutU32(f.mtkRamdiskHdr, MTK_SIZE, Wrap32(|f.ramdiskImage|));
    }
    ghost var kernel := Wrapped(f.mtkKernelHdr, f.kernelImage);
    ghost var ramdisk := Wrapped(f.mtkRamdiskHdr, f.ramdiskImage);
    assert mtkKernelHdr + f.kernelImage == kernel && mtkRamdiskHdr + f.ramdiskImage == ramdisk;
    var id := UpdateSha1Hash(f, mtkKernelHdr, mtkRamdiskHdr, Wrap32(kernelSize), Wrap32(ramdiskSize), sha1);
    var hdr := Header(
      [Wrap32(kernelSize), f.kernelAddr, Wrap32(ramdiskSize), f.ramdiskAddr, f.hdrSecondSize,
       f.secondAddr, f.tagsAddr, f.pageSize, f.hdrDtSize, f.hdrUnused],
      StringField(f.boardName, BOOT_NAME_SIZE), StringField(f.cmdline, BOOT_ARGS_SIZE), id);
    if !ValidPageSize(f.pageSize) {
      return false;
    }
    assert hdr == MtkHeaderFor(f, kernel, ramdisk, sha1);
    var data := HeaderBytes(hdr);
    data := data + Zeros(SkipPadding(HEADER_SIZE, f.pageSize));
    ghost var base := data;
    data := AppendImage(data, mtkKernelHdr, f.kernelImage, kernelSize, f.pageSize);
    assert data == base + Padded(kernel, f.pageSize);
    base := data;
    data := AppendImage(data, mtkRamdiskHdr, f.ramdiskImage, ramdiskSize, f.pageSize);
    assert data == base + Padded(ramdisk, f.pageSize);
    base := data;
    if f.secondImage != [] {
      data := data + f.secondImage;
      data := data + Zeros(SkipPadding(Wrap32(|f.secondImage|), f.pageSize));
    }
    assert data == base + (if f.secondImage == [] then [] else Padded(f.secondImage, f.pageSize));
    base := data;
    if f.dtImage != [] {
      data := data + f.dtImage;
      data := data + Zeros(SkipPadding(Wrap32(|f.dtImage|), f.pageSize));
    }
    assert data == base + (if f.dtImage == [] then [] else Padded(f.dtImage, f.pageSize));
    dataOut.bytes := data;
    ok := true;
  }

  /** Header, image and padding are appended one after the other. */
  method AppendImage(data: bytes, hdr: bytes, image: bytes, size: nat, pageSize: u32) returns (r: bytes)
    requires size == |hdr| + |image|
    ensures r == data + Padded(hdr + image, pageSize)
  {
    hide SkipPadding;
    r := data;
    if hdr != [] {
      r := r + hdr;
    }
    r := r + image;
    r := r + Zeros(SkipPadding(Wrap32(size), pageSize));
  }

  // ---------------------------------------------------------------------------
  // Loading
  // ---------------------------------------------------------------------------

  function StrippedImages(f: I10e): Load {
    match Strip(f.kernelImage, false)
    case SizeMismatch => Rejected
    case Stripped(kernelHdr, kernel) =>
      match Strip(f.ramdiskImage, true)
      case SizeMismatch => Rejected
      case Stripped(ramdiskHdr, ramdisk) =>
        Loaded(f.(mtkKernelHdr := if kernelHdr.Some? then kernelHdr.value else f.mtkKernelHdr, kernelImage := kernel,
                  mtkRamdiskHdr := if ramdiskHdr.Some? then ramdiskHdr.value else f.mtkRamdiskHdr, ramdiskImage := ramdisk))
  }

  function LoadedFrom(f: I10e, data: bytes): Load {
    match AndroidFormat.LoadedFrom(f, data)
    case Loaded(g) => StrippedImages(g)
    case other => other
  }

  /** A loaded image has the size its header field says. */
  lemma LoadedSizes(f: I10e, data: bytes)
    ensures AndroidFormat.LoadedFrom(f, data).Loaded? ==>
              var g := AndroidFormat.LoadedFrom(f, data).i10e;
              |g.kernelImage| == g.hdrKernelSize && |g.ramdiskImage| == g.hdrRamdiskSize
  {
    hide SkipPadding, Advance, ReadHeader, HeaderIndex, CString;
  }

  method LoadImage(impl: Impl, data: bytes) returns (status: LoadStatus)
    modifies impl`i10e
    ensures status == StatusOf(LoadedFrom(old(impl.i10e), data))
    ensures status == LoadOk ==> impl.i10e == LoadedFrom(old(impl.i10e), data).i10e
  {
    hide AndroidFormat.LoadedFrom, PutU32, U32At, MatchesAt;
    LoadedSizes(impl.i10e, data);
    status := AndroidFormat.LoadImage(impl, data);
    if status != LoadOk {
      return;
    }
    if impl.i10e.hdrKernelSize >= MTK_HEADER_SIZE {
      var image := impl.i10e.kernelImage;
      if MatchesAt(image, 0, MTK_MAGIC) {
        var expected := MTK_HEADER_SIZE + U32At(image, MTK_SIZE);
        if |image| < expected {
          return LoadFailed;
        }
        impl.i10e := impl.i10e.(mtkKernelHdr := image[..MTK_HEADER_SIZE]);
        impl.i10e := impl.i10e.(kernelImage := image[MTK_HEADER_SIZE..]);
        impl.i10e := impl.i10e.(mtkKernelHdr := PutU32(impl.i10e.mtkKernelHdr, MTK_SIZE, 0));
      }
    }
    if impl.i10e.hdrRamdiskSize >= MTK_HEADER_SIZE {
      var image := impl.i10e.ramdiskImage;
      if MatchesAt(image, 0, MTK_MAGIC) {
        var expected := MTK_HEADER_SIZE + U32At(image, MTK_SIZE);
        if |image| != expected {
          return LoadFailed;
        }
        impl.i10e := impl.i10e.(mtkRamdiskHdr := image[..MTK_HEADER_SIZE]);
        impl.i10e := impl.i10e.(ramdiskImage := image[MTK_HEADER_SIZE..]);
        impl.i10e := impl.i10e.(mtkRamdiskHdr := PutU32(impl.i10e.mtkRamdiskHdr, MTK_SIZE, 0));
      }
    }
  }

  // ---------------------------------------------------------------------------
  // Recognising
  // ---------------------------------------------------------------------------

  function MagicAt(data: bytes, pos: u32, size: u32): Verdict {
    if size < MTK_HEADER_SIZE then Invalid
    else if pos + |MTK_MAGIC| > |data| then Unknown
    else if MatchesAt(data, pos, MTK_MAGIC) then Valid
    else Invalid
  }

  /** The walk stops at the first image that has the magic or does not fit. */
  function HeaderSeen(data: bytes, at: nat, h: Header): Verdict
    requires ValidHeader(h)
  {
    var p := h.words[PAGE_SIZE];
    var pos := Wrap32(Wrap32(at + HEADER_SIZE) + SkipPadding(HEADER_SIZE, p));
    if Wrap32(pos + h.words[KERNEL_SIZE]) > |data| then Invalid
    else if MagicAt(data, pos, h.words[KERNEL_SIZE]) != Invalid then MagicAt(data, pos, h.words[KERNEL_SIZE])
    else
      var pos1 := Advance(pos, h.words[KERNEL_SIZE], p);
      if Wrap32(pos1 + h.words[RAMDISK_SIZE]) > |data| then Invalid
      else MagicAt(data, pos1, h.words[RAMDISK_SIZE])
  }

  function Recognised(data: bytes): Verdict {
    match HeaderIndex(data, SEARCH_RANGE)
    case None => Invalid
    case Some(at) => HeaderSeen(data, at, ReadHeader(data, at))
  }

  method IsValid(data: bytes) returns (v: Verdict)
    ensures v == Recognised(data)
  {
    hide SkipPadding, Advance, HeaderIndex, ReadHeader, MagicAt;
    var found, headerIndex := FindHeader(data, SEARCH_RANGE);
    if !found || |data| < headerIndex + HEADER_SIZE {
      return Invalid;
    }
    var hdr := ReadHeader(data, headerIndex);
    var pageSize := hdr.words[PAGE_SIZE];
    var pos: u32 := Wrap32(headerIndex + HEADER_SIZE);
    pos := Wrap32(pos + SkipPadding(HEADER_SIZE, pageSize));
    if Wrap32(pos + hdr.words[KERNEL_SIZE]) > |data| {
      return Invalid;
    }
    v := MagicAt(data, pos, hdr.words[KERNEL_SIZE]);
    if v != Invalid {
      return;
    }
    pos := Advance(pos, hdr.words[KERNEL_SIZE], pageSize);
    if Wrap32(pos + hdr.words[RAMDISK_SIZE]) > |data| {
      return Invalid;
    }
    v := MagicAt(data, pos, hdr.words[RAMDISK_SIZE]);
  }

  /** The test on an assembled image, up to 512 bytes into a file: valid exactly when its kernel or its ramdisk starts with the magic. */
  lemma RecognisedBehind(h: Header, kernel: bytes, ramdisk: bytes, second: bytes, dt: bytes, pre: bytes, tail: bytes)
    requires ValidHeader(h) && ValidPageSize(h.words[PAGE_SIZE]) && |pre| <= 512
    requires var data := pre + (Assemble(h, kernel, ramdisk, second, dt) + tail);
             |data| < U32_LIMIT && NoEarlierMagic(data, |pre|)
    requires h.words[KERNEL_SIZE] == |kernel| && h.words[RAMDISK_SIZE] == |ramdisk|
    ensures Recognised(pre + (Assemble(h, kernel, ramdisk, second, dt) + tail))
            == if HasMagic(kernel) || HasMagic(ramdisk) then Valid else Invalid
  {
    hide SkipPadding, CutDeviceTree, Advance, Padded, Assemble, HeaderBytes, HeaderIndex, ReadHeader, NoEarlierMagic;
    var p := h.words[PAGE_SIZE];
    HeaderPage(h, p);
    AssembleSegments(h, kernel, ramdisk, second, dt);
    var data := pre + (Assemble(h, kernel, ramdisk, second, dt) + tail);
    var page, k, r, s, d := Padded(HeaderBytes(h), p), Padded(kernel, p), Padded(ramdisk, p), Padded(second, p), Padded(dt, p);
    var s0 := pre + page;
    PartsBehind(pre, page, k, r, s, d, tail);
    HeaderIsFound(pre, h, k + r + s + d + tail, SEARCH_RANGE);
    CutPadded(data, s0, kernel, r + s + d + tail, p);
    CutPadded(data, s0 + k, ramdisk, s + d + tail, p);
    MagicOfCut(data, |s0|, kernel);
    MagicOfCut(data, |s0 + k|, ramdisk);
  }

  lemma RecognisedByMagic(h: Header, kernel: bytes, ramdisk: bytes, second: bytes, dt: bytes, tail: bytes)
    requires ValidHeader(h) && ValidPageSize(h.words[PAGE_SIZE])
    requires |Assemble(h, kernel, ramdisk, second, dt) + tail| < U32_LIMIT
    requires h.words[KERNEL_SIZE] == |kernel| && h.words[RAMDISK_SIZE] == |ramdisk|
    ensures Recognised(Assemble(h, kernel, ramdisk, second, dt) + tail)
            == if HasMagic(kernel) || HasMagic(ramdisk) then Valid else Invalid
  {
    hide Recognised, Assemble, HasMagic;
    var data := Assemble(h, kernel, ramdisk, second, dt) + tail;
    assert [] + data == data;
    RecognisedBehind(h, kernel, ramdisk, second, dt, [], tail);
  }

  lemma MagicOfCut(data: bytes, pos: u32, image: bytes)
    requires |image| < U32_LIMIT && CutImage(data, pos, |image|) == Cut(image)
    ensures MagicAt(data, pos, |image|) == if HasMagic(image) then Valid else Invalid
  {
    if |image| >= MTK_HEADER_SIZE {
      assert data[pos..pos + |MTK_MAGIC|] == data[pos..pos + |image|][..|MTK_MAGIC|] == image[..|MTK_MAGIC|];
    }
  }

  // ---------------------------------------------------------------------------
  // Round trip
  // ---------------------------------------------------------------------------

  /** The recovered fields; the raw size fields count the headers. */
  function MtkRecovered(base: I10e, f: I10e, id: bytes): I10e {
    Recovered(base, f, id).(hdrKernelSize := Wrap32(|f.kernelImage| + |f.mtkKernelHdr|),
                            hdrRamdiskSize := Wrap32(|f.ramdiskImage| + |f.mtkRamdiskHdr|),
                            mtkKernelHdr := f.mtkKernelHdr,
                            mtkRamdiskHdr := f.mtkRamdiskHdr)
  }

  /** Before the headers come off, the Android loader gives back the wrapped images. */
  lemma WrappedRoundTrip(f: I10e, sha1: Sha1, base: I10e)
    requires SizesAgree(f) && Created(f, sha1).Some? && |Created(f, sha1).value| < U32_LIMIT
    ensures var kernel := Wrapped(f.mtkKernelHdr, f.kernelImage);
            var ramdisk := Wrapped(f.mtkRamdiskHdr, f.ramdiskImage);
            AndroidFormat.LoadedFrom(base, Created(f, sha1).value)
            == Loaded(Recovered(base, f.(kernelImage := kernel, ramdiskImage := ramdisk,
                                         hdrKernelSize := |kernel|, hdrRamdiskSize := |ramdisk|),
                                MtkHeaderFor(f, kernel, ramdisk, sha1).id))
            && |kernel| < U32_LIMIT && |ramdisk| < U32_LIMIT
  {
    hide SkipPadding, Padded, Assemble, HeaderBytes, ReadHeader, CString, StringField, HashInput, Wrapped,
         AndroidFormat.LoadedFrom;
    var kernel := Wrapped(f.mtkKernelHdr, f.kernelImage);
    var ramdisk := Wrapped(f.mtkRamdiskHdr, f.ramdiskImage);
    var h := MtkHeaderFor(f, kernel, ramdisk, sha1);
    AssembledImagesFit(h, kernel, ramdisk, f.secondImage, f.dtImage);
    var g := f.(kernelImage := kernel, ramdiskImage := ramdisk, hdrKernelSize := |kernel|, hdrRamdiskSize := |ramdisk|);
    var digest := sha1(HashInput(kernel, |kernel|, ramdisk, |ramdisk|, f));
    assert HeaderOf(g, |kernel|, |ramdisk|, digest) == h;
    assert SizesAgree(g);
    var image := Assemble(h, kernel, ramdisk, f.secondImage, f.dtImage);
    assert image + [] == image;
    RoundTripOf(g, digest, base, []);
  }

  /** Creating and loading gives everything back exactly when both headers are Preserved. */
  lemma RoundTrip(f: I10e, sha1: Sha1, base: I10e)
    requires SizesAgree(f) && Created(f, sha1).Some? && |Created(f, sha1).value| < U32_LIMIT
    requires base.mtkKernelHdr == [] && base.mtkRamdiskHdr == []
    ensures var id := MtkHeaderFor(f, Wrapped(f.mtkKernelHdr, f.kernelImage), Wrapped(f.mtkRamdiskHdr, f.ramdiskImage), sha1).id;
            LoadedFrom(base, Created(f, sha1).value) == Loaded(MtkRecovered(base, f, id))
            <==> Preserved(f.mtkKernelHdr, f.kernelImage) && Preserved(f.mtkRamdiskHdr, f.ramdiskImage)
  {
    hide AndroidFormat.LoadedFrom, MtkHeaderFor, Wrapped, Strip, Preserved, Truncated, Assemble;
    WrappedRoundTrip(f, sha1, base);
    StripWrapped(f.mtkKernelHdr, f.kernelImage, false);
    StripWrapped(f.mtkRamdiskHdr, f.ramdiskImage, true);
    StrippedHeaderIsWhole(Wrapped(f.mtkKernelHdr, f.kernelImage), false);
    StrippedHeaderIsWhole(Wrapped(f.mtkRamdiskHdr, f.ramdiskImage), true);
  }

  lemma StrippedHeaderIsWhole(image: bytes, exact: bool)
    ensures var s := Strip(image, exact);
            s.Stripped? && s.hdr.Some? ==> |s.hdr.value| == MTK_HEADER_SIZE
  {
  }

  /** Creating again from what was loaded gives the same bytes, whatever the raw size fields say. */
  lemma CreateIsStable(f: I10e, sha1: Sha1, base: I10e, id: bytes)
    ensures Created(MtkRecovered(base, f, id), sha1) == Created(f, sha1)
  {
    hide Truncated, StringField, Assemble, Wrapped;
    FieldOfTruncated(f.boardName, BOOT_NAME_SIZE);
    FieldOfTruncated(f.cmdline, BOOT_ARGS_SIZE);
  }
}
