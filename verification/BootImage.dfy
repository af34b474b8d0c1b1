/** The boot image object: ordered format detection, loading, creating, and the image setters. */
module BootImage {
  import opened Bytes
  import opened Intermediate
  import opened AndroidFormat
  import BumpFormat
  import MtkFormat
  import LokiPatcher
  import LokiFormat
  import LokiRoundTrip
  import SonyElfFormat
  import SonyElfMagic

  // ---------------------------------------------------------------------------
  // Setters
  // ---------------------------------------------------------------------------

  method SetKernelImage(impl: Impl, data: bytes)
    modifies impl`i10e
    ensures impl.i10e == old(impl.i10e).(kernelImage := data, hdrKernelSize := Wrap32(|data|))
    ensures old(SizesAgree(impl.i10e)) ==> SizesAgree(impl.i10e)
  {
    impl.i10e := impl.i10e.(hdrKernelSize := Wrap32(|data|));
    impl.i10e := impl.i10e.(kernelImage := data);
  }

  method SetRamdiskImage(impl: Impl, data: bytes)
    modifies impl`i10e
    ensures impl.i10e == old(impl.i10e).(ramdiskImage := data, hdrRamdiskSize := Wrap32(|data|))
    ensures old(SizesAgree(impl.i10e)) ==> SizesAgree(impl.i10e)
  {
    impl.i10e := impl.i10e.(hdrRamdiskSize := Wrap32(|data|));
    impl.i10e := impl.i10e.(ramdiskImage := data);
  }

  method SetSecondBootloaderImage(impl: Impl, data: bytes)
    modifies impl`i10e
    ensures impl.i10e == old(impl.i10e).(secondImage := data, hdrSecondSize := Wrap32(|data|))
    ensures old(SizesAgree(impl.i10e)) ==> SizesAgree(impl.i10e)
  {
    impl.i10e := impl.i10e.(hdrSecondSize := Wrap32(|data|));
    impl.i10e := impl.i10e.(secondImage := data);
  }

  method SetDeviceTreeImage(impl: Impl, data: bytes)
    modifies impl`i10e
    ensures impl.i10e == old(impl.i10e).(dtImage := data, hdrDtSize := Wrap32(|data|))
    ensures old(SizesAgree(impl.i10e)) ==> SizesAgree(impl.i10e)
  {
    impl.i10e := impl.i10e.(hdrDtSize := Wrap32(|data|));
    impl.i10e := impl.i10e.(dtImage := data);
  }

  // ---------------------------------------------------------------------------
  // Detection, loading and creating
  // ---------------------------------------------------------------------------

  datatype Detection = Detected(type_: Type) | Unrecognised | Undetermined

  /** The formats are tried in this order; a test that would read past the data decides nothing. */
  function Detect(data: bytes): Detection {
    if LokiFormat.Recognised(data) == Valid then Detected(Loki)
    else
      match BumpFormat.Recognised(data)
      case Valid => Detected(Bump)
      case Unknown => Undetermined
      case Invalid =>
        match MtkFormat.Recognised(data)
        case Valid => Detected(Mtk)
        case Unknown => Undetermined
        case Invalid =>
          if HeaderIndex(data, SEARCH_RANGE).Some? then Detected(Android)
          else if SonyElfFormat.Recognised(data) == Valid then Detected(SonyElf)
          else Unrecognised
  }

  /** Loading with the loader of one format. */
  function LoadedAs(type_: Type, f: I10e, data: bytes): Load
    requires |data| < U32_LIMIT
  {
    match type_
    case Loki => LokiFormat.LoadedFrom(f, data)
    case Bump => AndroidFormat.LoadedFrom(f, data)
    case Mtk => MtkFormat.LoadedFrom(f, data)
    case Android => AndroidFormat.LoadedFrom(f, data)
    case SonyElf => SonyElfFormat.LoadedFrom(f, data)
  }

  /** An image that came with Loki's patch is repacked as a plain one. */
  function TargetFor(type_: Type): Type {
    if type_ == Loki then Android else type_
  }

  method IsValidAndroid(data: bytes) returns (found: bool)
    ensures found == HeaderIndex(data, SEARCH_RANGE).Some?
  {
    var headerIndex;
    found, headerIndex := FindHeader(data, SEARCH_RANGE);
  }

  method Load(impl: Impl, data: bytes) returns (status: LoadStatus)
    requires |data| < U32_LIMIT
    modifies impl
    ensures match Detect(data)
            case Unrecognised =>
              status == LoadFailed && impl.failed && impl.i10e == old(impl.i10e) && impl.targetType == old(impl.targetType)
            case Undetermined => status == LoadUndefined
            case Detected(t) =>
              var r := LoadedAs(t, old(impl.i10e), data);
              && status == StatusOf(r)
              && impl.sourceType == t && impl.targetType == TargetFor(t)
              && (if t == Loki then impl.targetType == Android else impl.targetType == t)
              && (status == LoadOk ==> impl.i10e == r.i10e && impl.failed == old(impl.failed))
              && (status == LoadFailed ==> impl.failed)
  {
    hide AndroidFormat.LoadedFrom, LokiFormat.LoadedFrom, MtkFormat.LoadedFrom, SonyElfFormat.LoadedFrom,
         BumpFormat.Recognised, MtkFormat.Recognised, LokiFormat.Recognised, SonyElfFormat.Recognised, HeaderIndex;
    status := LoadFailed;
    var v := LokiFormat.IsValid(data);
    if v == Valid {
      impl.sourceType := Loki;
      impl.targetType := Android;
      status := LokiFormat.LoadImage(impl, data);
    } else {
      v := BumpFormat.IsValid(data);
      if v == Unknown {
        return LoadUndefined;
      } else if v == Valid {
        impl.sourceType := Bump;
        impl.targetType := Bump;
        status := AndroidFormat.LoadImage(impl, data);
      } else {
        v := MtkFormat.IsValid(data);
        if v == Unknown {
          return LoadUndefined;
        } else if v == Valid {
          impl.sourceType := Mtk;
          impl.targetType := Mtk;
          status := MtkFormat.LoadImage(impl, data);
        } else {
          var found := IsValidAndroid(data);
          if found {
            impl.sourceType := Android;
            impl.targetType := Android;
            status := AndroidFormat.LoadImage(impl, data);
          } else {
            v := SonyElfFormat.IsValid(data);
            if v == Valid {
              impl.sourceType := SonyElf;
              impl.targetType := SonyElf;
              status := SonyElfFormat.LoadImage(impl, data);
            }
          }
        }
      }
    }
    if status == LoadFailed {
      impl.failed := true;
    }
  }

  /** What creating an image of the given type yields; None for a refused image. */
  function CreatedAs(type_: Type, f: I10e, sha1: Sha1): Option<bytes> {
    match type_
    case Android => AndroidFormat.Created(f, sha1)
    case Bump => BumpFormat.Created(f, sha1)
    case Loki =>
      (match LokiFormat.Created(f, sha1)
       case Patched(image) => Some(image)
       case _ => None)
    case Mtk => MtkFormat.Created(f, sha1)
    case SonyElf => SonyElfFormat.Created(f)
  }

  method Create(impl: Impl, sha1: Sha1, data: ByteVector) returns (ok: bool)
    modifies data
    ensures ok == CreatedAs(impl.targetType, impl.i10e, sha1).Some?
    ensures data.bytes == if ok then CreatedAs(impl.targetType, impl.i10e, sha1).value else old(data.bytes)
  {
    hide AndroidFormat.Created, LokiFormat.Created, MtkFormat.Created, SonyElfFormat.Created, BumpFormat.Created;
    match impl.targetType {
      case Android => ok := AndroidFormat.CreateImage(impl, sha1, data);
      case Bump => ok := BumpFormat.CreateImage(impl, sha1, data);
      case Loki =>
        var status := LokiFormat.CreateImage(impl, sha1, data);
        ok := status == LokiPatcher.PatchOk;
      case Mtk => ok := MtkFormat.CreateImage(impl, sha1, data);
      case SonyElf => ok := SonyElfFormat.CreateImage(impl, data);
    }
  }

  // ---------------------------------------------------------------------------
  // Detection agrees with construction
  // ---------------------------------------------------------------------------

  /** The header page of a created image is zero where the Loki magic would be. */
  lemma AssembledIsNotLoki(h: Header, kernel: bytes, ramdisk: bytes, second: bytes, dt: bytes, tail: bytes)
    requires ValidHeader(h) && ValidPageSize(h.words[PAGE_SIZE])
    ensures LokiFormat.Recognised(Assemble(h, kernel, ramdisk, second, dt) + tail) == Invalid
  {
    hide SkipPadding, Padded, Assemble, HeaderBytes, HeaderIndex;
    var p := h.words[PAGE_SIZE];
    HeaderPage(h, p);
    AssembleSegments(h, kernel, ramdisk, second, dt);
    var page := Padded(HeaderBytes(h), p);
    var rest := Padded(kernel, p) + Padded(ramdisk, p) + Padded(second, p) + Padded(dt, p) + tail;
    var data := Assemble(h, kernel, ramdisk, second, dt) + tail;
    assert data == page + rest;
    assert data[LokiPatcher.LOKI_HEADER] == page[LokiPatcher.LOKI_HEADER] == 0;
    var n := LokiPatcher.LOKI_HEADER;
    assert data[n..n + |LokiPatcher.LOKI_MAGIC|][0] == 0;
  }

  /** The ordered tests on any assembled image with something appended. */
  lemma DetectAssembled(h: Header, kernel: bytes, ramdisk: bytes, second: bytes, dt: bytes, tail: bytes)
    requires ValidHeader(h) && ValidPageSize(h.words[PAGE_SIZE])
    requires |Assemble(h, kernel, ramdisk, second, dt) + tail| + |BumpFormat.BUMP_MAGIC| < U32_LIMIT
    requires h.words[KERNEL_SIZE] == |kernel| && h.words[RAMDISK_SIZE] == |ramdisk|
    requires h.words[SECOND_SIZE] == |second| && h.words[DT_SIZE] == |dt|
    ensures Detect(Assemble(h, kernel, ramdisk, second, dt) + tail)
            == Detected(if BumpFormat.BUMP_MAGIC <= tail then Bump
                        else if MtkFormat.HasMagic(kernel) || MtkFormat.HasMagic(ramdisk) then Mtk
                        else Android)
  {
    hide SkipPadding, Padded, Assemble, HeaderBytes, HeaderIndex, BumpFormat.Recognised, MtkFormat.Recognised,
         LokiFormat.Recognised, SonyElfFormat.Recognised, MtkFormat.HasMagic, ReadHeader;
    AssembledIsNotLoki(h, kernel, ramdisk, second, dt, tail);
    BumpFormat.RecognisedBySignature(h, kernel, ramdisk, second, dt, tail);
    MtkFormat.RecognisedByMagic(h, kernel, ramdisk, second, dt, tail);
    var p := h.words[PAGE_SIZE];
    AssembleSegments(h, kernel, ramdisk, second, dt);
    var rest := Padded(kernel, p) + Padded(ramdisk, p) + Padded(second, p) + Padded(dt, p);
    assert Assemble(h, kernel, ramdisk, second, dt) + tail == Padded(HeaderBytes(h), p) + (rest + tail);
    HeaderIsFirst(h, rest + tail, SEARCH_RANGE);
  }

  /** A created Android image is taken for one unless its kernel or ramdisk starts with the MTK magic. */
  lemma DetectAndroid(f: I10e, sha1: Sha1)
    requires ValidPageSize(f.pageSize) && SizesAgree(f)
    requires |AndroidFormat.Created(f, sha1).value| + |BumpFormat.BUMP_MAGIC| < U32_LIMIT
    ensures Detect(AndroidFormat.Created(f, sha1).value)
            == Detected(if MtkFormat.HasMagic(f.kernelImage) || MtkFormat.HasMagic(f.ramdiskImage) then Mtk else Android)
  {
    hide Detect, Assemble, MtkFormat.HasMagic;
    var h := HeaderFor(f, sha1);
    LokiFormat.PageSizeOfHeader(f, sha1);
    var image := Assemble(h, f.kernelImage, f.ramdiskImage, f.secondImage, f.dtImage);
    AssembledImagesFit(h, f.kernelImage, f.ramdiskImage, f.secondImage, f.dtImage);
    assert image + [] == image;
    DetectAssembled(h, f.kernelImage, f.ramdiskImage, f.secondImage, f.dtImage, []);
  }

  lemma DetectBump(f: I10e, sha1: Sha1)
    requires ValidPageSize(f.pageSize) && SizesAgree(f)
    requires |BumpFormat.Created(f, sha1).value| + |BumpFormat.BUMP_MAGIC| < U32_LIMIT
    ensures Detect(BumpFormat.Created(f, sha1).value) == Detected(Bump)
  {
    hide Detect, Assemble, MtkFormat.HasMagic;
    var h := HeaderFor(f, sha1);
    LokiFormat.PageSizeOfHeader(f, sha1);
    AssembledImagesFit(h, f.kernelImage, f.ramdiskImage, f.secondImage, f.dtImage);
    DetectAssembled(h, f.kernelImage, f.ramdiskImage, f.secondImage, f.dtImage, BumpFormat.BUMP_MAGIC);
  }

  /** A created MTK image is taken for one exactly when a magic really starts its kernel or ramdisk. */
  lemma DetectMtk(f: I10e, sha1: Sha1)
    requires MtkFormat.Created(f, sha1).Some? && SizesAgree(f)
    requires |MtkFormat.Created(f, sha1).value| + |BumpFormat.BUMP_MAGIC| < U32_LIMIT
    ensures Detect(MtkFormat.Created(f, sha1).value)
            == Detected(if MtkFormat.HasMagic(MtkFormat.Wrapped(f.mtkKernelHdr, f.kernelImage))
                           || MtkFormat.HasMagic(MtkFormat.Wrapped(f.mtkRamdiskHdr, f.ramdiskImage)) then Mtk else Android)
  {
    hide Detect, Assemble, MtkFormat.HasMagic, MtkFormat.Wrapped;
    var kernel := MtkFormat.Wrapped(f.mtkKernelHdr, f.kernelImage);
    var ramdisk := MtkFormat.Wrapped(f.mtkRamdiskHdr, f.ramdiskImage);
    var h := MtkFormat.MtkHeaderFor(f, kernel, ramdisk, sha1);
    var image := Assemble(h, kernel, ramdisk, f.secondImage, f.dtImage);
    AssembledImagesFit(h, kernel, ramdisk, f.secondImage, f.dtImage);
    assert image + [] == image;
    DetectAssembled(h, kernel, ramdisk, f.secondImage, f.dtImage, []);
  }

  /** Preserved headers carry the magic, so an image with one of them is an MTK image. */
  lemma PreservedHeaderHasMagic(hdr: bytes, image: bytes)
    requires hdr != [] && MtkFormat.Preserved(hdr, image)
    ensures MtkFormat.HasMagic(MtkFormat.Wrapped(hdr, image))
  {
    hide U32At, U32Bytes;
    var w := MtkFormat.Wrapped(hdr, image);
    var head := PutU32(hdr, MtkFormat.MTK_SIZE, Wrap32(|image|));
    assert w[0..4] == head[..MtkFormat.MTK_SIZE] == hdr[..4];
  }

  /** A created Sony image is taken for one exactly when nothing in its headers passes for an Android magic. */
  lemma DetectSonyElf(f: I10e)
    requires SonyElfFormat.Created(f).Some?
    ensures var data := SonyElfFormat.Created(f).value;
            |data| >= SEARCH_RANGE + |BOOT_MAGIC| && (Detect(data) == Detected(SonyElf) <==> SonyElfMagic.HidesNoMagic(f))
  {
    hide BumpFormat.EndOfImage, MtkFormat.HeaderSeen, SonyElfFormat.Bodies, ReadHeader, U32At, U16At,
         SonyElfFormat.HeaderArea, Resize, MatchesAt, SonyElfMagic.HidesNoMagic;
    SonyElfMagic.NoMagicExactly(f);
    var sinPart := SonyElfFormat.SinPart(f).value;
    var data := SonyElfFormat.Created(f).value;
    SonyElfFormat.CreatedLayout(f, sinPart);
    if HeaderIndex(data, LokiFormat.LOKI_RANGE).Some? {
      assert MatchesAt(data, HeaderIndex(data, LokiFormat.LOKI_RANGE).value, BOOT_MAGIC);
    }
  }

  /** A created Loki image is taken for one. */
  lemma DetectLoki(f: I10e, sha1: Sha1, out: bytes)
    requires LokiRoundTrip.Patchable(f) && LokiFormat.Created(f, sha1) == LokiPatcher.Patched(out)
    ensures Detect(out) == Detected(Loki)
  {
    hide LokiFormat.Created, LokiPatcher.PatchedWords, Padded, LokiPatcher.Shellcode, LokiPatcher.Targets, LokiPatcher.TargetOf,
         LokiPatcher.SigOffset, Overwrite, HeaderFor, LokiRoundTrip.WrittenDeviceTree, LokiRoundTrip.BootloaderCode;
    var d, tgt, code := LokiRoundTrip.PatchedLayout(f, sha1, out);
    var p := f.pageSize;
    var k, r := Padded(f.kernelImage, p), Padded(f.ramdiskImage, p);
    var splice := Overwrite(code, LokiPatcher.SigOffset(tgt), LokiPatcher.Shellcode(tgt.hdr, f.ramdiskAddr));
    var dt := LokiRoundTrip.WrittenDeviceTree(f);
    LokiRoundTrip.JoinedForms(d[..p], k, r, splice, dt);
    var rest := k + r + splice + dt;
    assert out == d[..p] + rest;
    LokiPatcher.SliceOfPage(d, p, rest);
    LokiMagicOf(d, HeaderFor(f, sha1), tgt);
    assert MatchesAt(out, LokiPatcher.LOKI_HEADER, LokiPatcher.LOKI_MAGIC);
    assert MatchesAt(out, 0, BOOT_MAGIC);
  }

  lemma LokiMagicOf(d: bytes, h: Header, tgt: LokiPatcher.LokiTarget)
    requires |d| >= LokiPatcher.LOKI_HEADER_END && ValidHeader(h) && LokiPatcher.PatchedWords(d, h, tgt)
    ensures d[LokiPatcher.LOKI_HEADER..LokiPatcher.LOKI_HEADER + 4] == LokiPatcher.LOKI_MAGIC
  {
  }

  // ---------------------------------------------------------------------------
  // What was created comes back through the dispatcher
  // ---------------------------------------------------------------------------

  /** Whatever was loaded from a Loki image is created again as a plain image, without Loki's patch. */
  lemma LokiIsRepackedPlain(g: I10e, sha1: Sha1)
    requires ValidPageSize(g.pageSize) && SizesAgree(g)
    requires |AndroidFormat.Created(g, sha1).value| + |BumpFormat.BUMP_MAGIC| < U32_LIMIT
    ensures CreatedAs(TargetFor(Loki), g, sha1) == AndroidFormat.Created(g, sha1) && CreatedAs(TargetFor(Loki), g, sha1).Some?
    ensures Detect(CreatedAs(TargetFor(Loki), g, sha1).value)
            == Detected(if MtkFormat.HasMagic(g.kernelImage) || MtkFormat.HasMagic(g.ramdiskImage) then Mtk else Android)
  {
    hide Detect, Assemble, MtkFormat.HasMagic;
    DetectAndroid(g, sha1);
  }

  /** Images of the other formats are created again in their format, and are detected as such under the conditions of that format. */
  lemma OthersAreRepackedAlike(g: I10e, sha1: Sha1)
    requires ValidPageSize(g.pageSize) && SizesAgree(g)
    requires |BumpFormat.Created(g, sha1).value| + |BumpFormat.BUMP_MAGIC| < U32_LIMIT
    ensures CreatedAs(TargetFor(Bump), g, sha1).Some? && Detect(CreatedAs(TargetFor(Bump), g, sha1).value) == Detected(Bump)
    ensures CreatedAs(TargetFor(Android), g, sha1) == AndroidFormat.Created(g, sha1)
    ensures MtkFormat.Created(g, sha1).Some? && |MtkFormat.Created(g, sha1).value| + |BumpFormat.BUMP_MAGIC| < U32_LIMIT
            && MtkFormat.Preserved(g.mtkKernelHdr, g.kernelImage) && g.mtkKernelHdr != [] ==>
              CreatedAs(TargetFor(Mtk), g, sha1).Some? && Detect(CreatedAs(TargetFor(Mtk), g, sha1).value) == Detected(Mtk)
    ensures SonyElfFormat.Created(g).Some? && SonyElfMagic.HidesNoMagic(g) ==>
              CreatedAs(TargetFor(SonyElf), g, sha1).Some? && Detect(CreatedAs(TargetFor(SonyElf), g, sha1).value) == Detected(SonyElf)
  {
    hide Detect, Assemble, MtkFormat.HasMagic, MtkFormat.Preserved, SonyElfMagic.HidesNoMagic, SonyElfFormat.Created, MtkFormat.Wrapped;
    DetectBump(g, sha1);
    if MtkFormat.Created(g, sha1).Some? && |MtkFormat.Created(g, sha1).value| + |BumpFormat.BUMP_MAGIC| < U32_LIMIT {
      DetectMtk(g, sha1);
      if MtkFormat.Preserved(g.mtkKernelHdr, g.kernelImage) && g.mtkKernelHdr != [] {
        PreservedHeaderHasMagic(g.mtkKernelHdr, g.kernelImage);
      }
    }
    if SonyElfFormat.Created(g).Some? {
      DetectSonyElf(g);
    }
  }

  /** The format a fresh boot image object detects in the data, and what it then holds. */
  function Reloaded(data: bytes): Option<(Type, I10e)>
    requires |data| < U32_LIMIT
  {
    match Detect(data)
    case Unrecognised => None
    case Undetermined => None
    case Detected(t) =>
      match LoadedAs(t, Fresh(), data)
      case Loaded(g) => Some((t, g))
      case Rejected => None
      case OutOfBounds => None
  }

  /** An Android image comes back as one exactly if neither kernel nor ramdisk passes for an MTK image. */
  lemma AndroidComesBack(f: I10e, sha1: Sha1)
    requires ValidPageSize(f.pageSize) && SizesAgree(f)
    requires |AndroidFormat.Created(f, sha1).value| + |BumpFormat.BUMP_MAGIC| < U32_LIMIT
    ensures Reloaded(AndroidFormat.Created(f, sha1).value) == Some((Android, Recovered(Fresh(), f, HeaderFor(f, sha1).id)))
            <==> !MtkFormat.HasMagic(f.kernelImage) && !MtkFormat.HasMagic(f.ramdiskImage)
  {
    hide Detect, AndroidFormat.LoadedFrom, MtkFormat.LoadedFrom, Assemble, HeaderFor, MtkFormat.HasMagic, Recovered, Fresh;
    var image := AndroidFormat.Created(f, sha1).value;
    DetectAndroid(f, sha1);
    AndroidFormat.RoundTrip(f, sha1, Fresh(), []);
    assert image + [] == image;
  }

  lemma BumpComesBack(f: I10e, sha1: Sha1)
    requires ValidPageSize(f.pageSize) && SizesAgree(f)
    requires |BumpFormat.Created(f, sha1).value| + |BumpFormat.BUMP_MAGIC| < U32_LIMIT
    ensures Reloaded(BumpFormat.Created(f, sha1).value) == Some((Bump, Recovered(Fresh(), f, HeaderFor(f, sha1).id)))
  {
    hide Detect, AndroidFormat.LoadedFrom, BumpFormat.Created, HeaderFor, Recovered, Fresh;
    DetectBump(f, sha1);
    BumpFormat.RoundTrip(f, sha1, Fresh());
  }

  /** An MTK image comes back as one exactly if it has at least one header and both are preserved. */
  lemma MtkComesBack(f: I10e, sha1: Sha1)
    requires SizesAgree(f) && MtkFormat.Created(f, sha1).Some?
    requires |MtkFormat.Created(f, sha1).value| + |BumpFormat.BUMP_MAGIC| < U32_LIMIT
    ensures var kernel := MtkFormat.Wrapped(f.mtkKernelHdr, f.kernelImage);
            var ramdisk := MtkFormat.Wrapped(f.mtkRamdiskHdr, f.ramdiskImage);
            var id := MtkFormat.MtkHeaderFor(f, kernel, ramdisk, sha1).id;
            Reloaded(MtkFormat.Created(f, sha1).value) == Some((Mtk, MtkFormat.MtkRecovered(Fresh(), f, id)))
            <==> && MtkFormat.Preserved(f.mtkKernelHdr, f.kernelImage) && MtkFormat.Preserved(f.mtkRamdiskHdr, f.ramdiskImage)
                 && (f.mtkKernelHdr != [] || f.mtkRamdiskHdr != [])
  {
    hide Detect, MtkFormat.LoadedFrom, AndroidFormat.LoadedFrom, MtkFormat.Created, MtkFormat.MtkHeaderFor, MtkFormat.Wrapped,
         MtkFormat.Preserved, MtkFormat.HasMagic, MtkFormat.MtkRecovered;
    DetectMtk(f, sha1);
    MtkFormat.RoundTrip(f, sha1, Fresh());
    if MtkFormat.Preserved(f.mtkKernelHdr, f.kernelImage) && MtkFormat.Preserved(f.mtkRamdiskHdr, f.ramdiskImage) {
      PreservedMagic(f.mtkKernelHdr, f.kernelImage);
      PreservedMagic(f.mtkRamdiskHdr, f.ramdiskImage);
    }
  }

  /** With a preserved header, the magic is there exactly if the header is. */
  lemma PreservedMagic(hdr: bytes, image: bytes)
    requires MtkFormat.Preserved(hdr, image)
    ensures MtkFormat.HasMagic(MtkFormat.Wrapped(hdr, image)) <==> hdr != []
  {
    if hdr != [] {
      PreservedHeaderHasMagic(hdr, image);
    }
  }

  /** Exactly when a Loki image comes back. */
  lemma LokiComesBack(f: I10e, sha1: Sha1, out: bytes)
    requires LokiRoundTrip.Patchable(f) && LokiRoundTrip.LoadsAsNew(f)
    requires LokiFormat.Created(f, sha1) == LokiPatcher.Patched(out) && |out| < U32_LIMIT
    ensures LokiPatcher.TargetOf(f.abootImage).Some?
            && |LokiRoundTrip.BootloaderCode(f, LokiPatcher.TargetOf(f.abootImage).value)| >= 0x200
    ensures var tgt := LokiPatcher.TargetOf(f.abootImage).value;
            Reloaded(out) == Some((Loki, Recovered(Fresh(), f, HeaderFor(f, sha1).id)))
            <==> f.secondImage == []
                 && f.ramdiskAddr != 0
                 && LokiRoundTrip.WordFound(f, sha1, tgt) == f.ramdiskAddr
                 && (tgt.checkSigs == LokiPatcher.VIPER ==> LokiRoundTrip.ViperReadsDeviceTree(f, tgt))
  {
    hide Detect, LokiFormat.LoadedFrom, LokiFormat.Created, HeaderFor, Recovered, Fresh, LokiRoundTrip.WordFound,
         LokiRoundTrip.BootloaderCode, LokiPatcher.TargetOf, LokiRoundTrip.Patchable, LokiRoundTrip.LoadsAsNew, LokiRoundTrip.ViperReadsDeviceTree;
    DetectLoki(f, sha1, out);
    LokiRoundTrip.RoundTripExactly(f, sha1, Fresh(), out);
  }

  /**
   A Sony image without SIN image comes back as one exactly if no program header passes for an Android magic, and
   always if the file is smaller than the size that takes.
   */
  lemma SonyElfComesBack(f: I10e)
    requires !SonyElfFormat.HasSin(f) && SonyElfFormat.Created(f).Some? && |SonyElfFormat.Created(f).value| < U32_LIMIT
    ensures var data := SonyElfFormat.Created(f).value;
            |data| >= SEARCH_RANGE + |BOOT_MAGIC|
            && (Reloaded(data) == Some((SonyElf, SonyElfFormat.Expected(f))) <==> SonyElfMagic.HidesNoMagic(f))
            && (|data| < SonyElfMagic.MAGIC_END ==> Reloaded(data) == Some((SonyElf, SonyElfFormat.Expected(f))))
  {
    hide Detect, SonyElfFormat.LoadedFrom, SonyElfFormat.Created, SonyElfFormat.Expected, SonyElfFormat.HasSin, MatchesAt, Fresh,
         LokiFormat.LoadedFrom, AndroidFormat.LoadedFrom, MtkFormat.LoadedFrom, SonyElfMagic.HidesNoMagic;
    DetectSonyElf(f);
    if |SonyElfFormat.Created(f).value| < SonyElfMagic.MAGIC_END {
      SonyElfMagic.SmallFilesHideNoMagic(f);
    }
    SonyElfFormat.RoundTripWithoutSin(f);
  }

  /** With a normal SIN header and no uncounted segment, the SIN image has to survive its place as well. */
  lemma SonyElfWithSinComesBack(f: I10e)
    requires SonyElfFormat.HasSin(f) && SonyElfFormat.NormalSin(f) && SonyElfFormat.Uncounted(f) == []
    requires SonyElfFormat.Created(f).Some? && |SonyElfFormat.Created(f).value| < U32_LIMIT
    ensures var data := SonyElfFormat.Created(f).value;
            var filesz := U32At(f.sonySinHdr, SonyElfFormat.P_FILESZ);
            && |data| >= SEARCH_RANGE + |BOOT_MAGIC|
            && (|f.sonySinImage| == filesz || |f.sonySinImage| == filesz + 2)
            && (Reloaded(data) == Some((SonyElf, SonyElfFormat.ExpectedWithSin(f)))
                <==> SonyElfMagic.HidesNoMagic(f)
                     && SonyElfFormat.Survives(f.sonySinImage, filesz, SonyElfFormat.SinOffset(f),
                                               SonyElfFormat.Bodies(SonyElfFormat.Counted(f))))
  {
    hide Detect, SonyElfFormat.LoadedFrom, SonyElfFormat.Created, SonyElfFormat.ExpectedWithSin, MatchesAt, Fresh, U32At,
         LokiFormat.LoadedFrom, AndroidFormat.LoadedFrom, MtkFormat.LoadedFrom, SonyElfFormat.Survives, SonyElfFormat.Counted,
         SonyElfFormat.Uncounted, SonyElfMagic.HidesNoMagic;
    DetectSonyElf(f);
    SonyElfFormat.RoundTripWithSin(f);
  }
}
