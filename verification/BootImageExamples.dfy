/** Boot images that do not come back as they were. */
module BootImageExamples {
  import opened Bytes
  import opened Intermediate
  import opened AndroidFormat
  import opened BootImage
  import MtkFormat
  import SonyElfFormat
  import SonyElfMagic

  lemma SmallPages()
    ensures ValidPageSize(2048)
  {
  }

  lemma TwoPages(h: Header, kernel: bytes)
    requires ValidHeader(h) && h.words[PAGE_SIZE] == 2048 && 1 <= |kernel| <= 2048
    ensures |Assemble(h, kernel, [], [], [])| == 4096
  {
    hide SkipPadding, HeaderBytes;
    SmallPages();
    HeaderPage(h, 2048);
    SkipPaddingReachesBoundary(|kernel|, 2048);
    SkipPaddingReachesBoundary(0, 2048);
  }

  // ---------------------------------------------------------------------------
  // Android
  // ---------------------------------------------------------------------------

  /** A kernel that starts like an MTK image. */
  function MtkLikeKernel(): I10e {
    Fresh().(pageSize := 2048, kernelImage := MtkFormat.MTK_MAGIC + Zeros(508), hdrKernelSize := 512)
  }

  /** It is detected as an MTK image, so it does not come back as an Android image. */
  lemma AndroidIsTakenForMtk(sha1: Sha1)
    ensures var f := MtkLikeKernel();
            && AndroidFormat.Created(f, sha1).Some? && |AndroidFormat.Created(f, sha1).value| == 4096
            && Detect(AndroidFormat.Created(f, sha1).value) == Detected(Mtk)
            && Reloaded(AndroidFormat.Created(f, sha1).value) != Some((Android, Recovered(Fresh(), f, HeaderFor(f, sha1).id)))
  {
    hide Detect, Reloaded, Assemble, Recovered;
    var f := MtkLikeKernel();
    SmallPages();
    TwoPages(HeaderFor(f, sha1), f.kernelImage);
    MtkMagicFirst();
    DetectAndroid(f, sha1);
    AndroidComesBack(f, sha1);
  }

  lemma MtkMagicFirst()
    ensures MtkFormat.HasMagic(MtkFormat.MTK_MAGIC + Zeros(508))
  {
    var image := MtkFormat.MTK_MAGIC + Zeros(508);
    assert image[0..4] == MtkFormat.MTK_MAGIC;
  }

  // ---------------------------------------------------------------------------
  // MTK
  // ---------------------------------------------------------------------------

  /** An MTK header whose size field is not zero. */
  function SizedMtkHeader(): I10e {
    Fresh().(pageSize := 2048, kernelImage := [1], hdrKernelSize := 1,
             mtkKernelHdr := MtkFormat.MTK_MAGIC + [1, 0, 0, 0] + Zeros(504))
  }

  /** Its size field comes back as zero. */
  lemma MtkHeaderIsLost(sha1: Sha1)
    ensures var f := SizedMtkHeader();
            MtkFormat.HeaderSizesOk(f) && MtkFormat.Created(f, sha1).Some? && |MtkFormat.Created(f, sha1).value| == 4096
    ensures var f := SizedMtkHeader();
            var kernel, ramdisk := MtkFormat.Wrapped(f.mtkKernelHdr, f.kernelImage), MtkFormat.Wrapped(f.mtkRamdiskHdr, f.ramdiskImage);
            var id := MtkFormat.MtkHeaderFor(f, kernel, ramdisk, sha1).id;
            Reloaded(MtkFormat.Created(f, sha1).value) != Some((Mtk, MtkFormat.MtkRecovered(Fresh(), f, id)))
  {
    hide Detect, Reloaded, Assemble, MtkFormat.MtkRecovered, MtkFormat.Wrapped;
    var f := SizedMtkHeader();
    var kernel, ramdisk := MtkFormat.Wrapped(f.mtkKernelHdr, f.kernelImage), MtkFormat.Wrapped(f.mtkRamdiskHdr, f.ramdiskImage);
    SmallPages();
    assert ramdisk == [] by { NothingWrapped(); }
    TwoPages(MtkFormat.MtkHeaderFor(f, kernel, ramdisk, sha1), kernel);
    MtkComesBack(f, sha1);
  }

  lemma NothingWrapped()
    ensures MtkFormat.Wrapped([], []) == []
  {
  }

  // ---------------------------------------------------------------------------
  // Sony
  // ---------------------------------------------------------------------------

  /** The SIN header of an image of the given size. */
  function SinHeader(size: u32): (r: bytes)
    ensures |r| == SonyElfFormat.PHDR_SIZE
  {
    U32Bytes(SonyElfFormat.TYPE_SIN) + Zeros(12) + U32Bytes(size) + U32Bytes(size) + Zeros(8)
  }

  lemma SinHeaderWords(size: u32)
    ensures var h := SinHeader(size);
            && U32At(h, SonyElfFormat.P_TYPE) == SonyElfFormat.TYPE_SIN && U32At(h, SonyElfFormat.P_OFFSET) == 0
            && U32At(h, SonyElfFormat.P_FILESZ) == size && U32At(h, SonyElfFormat.P_MEMSZ) == size
  {
    hide U32Bytes;
    var h, t, w := SinHeader(size), U32Bytes(SonyElfFormat.TYPE_SIN), U32Bytes(size);
    U32RoundTrip(SonyElfFormat.TYPE_SIN);
    U32RoundTrip(size);
    assert h[0..4] == t == t[0..4] && h[16..20] == w == w[0..4] && h[20..24] == w;
    U32AtSlice(h, 0, t, 0);
    U32AtSlice(h, 16, w, 0);
    U32AtSlice(h, 20, w, 0);
  }

  /** A kernel and a SIN image that starts with the Android magic. */
  function SinWithMagic(): I10e {
    Fresh().(kernelImage := [1], sonySinImage := BOOT_MAGIC, sonySinHdr := SinHeader(8))
  }

  /** The magic is found in the SIN image, so the file is not taken for a Sony image. */
  lemma SinPassesForAndroid()
    ensures var f := SinWithMagic();
            && SonyElfFormat.Created(f).Some? && |SonyElfFormat.Created(f).value| < U32_LIMIT
            && Detect(SonyElfFormat.Created(f).value) != Detected(SonyElf)
            && Reloaded(SonyElfFormat.Created(f).value) != Some((SonyElf, SonyElfFormat.ExpectedWithSin(f)))
  {
    hide Detect, Reloaded, U32Bytes, U32At, PutU32, SonyElfFormat.PhdrTable, SonyElfFormat.EhdrBytes, SonyElfFormat.ExpectedWithSin,
         SonyElfMagic.TablePasses, SinHeader;
    var f := SinWithMagic();
    SinHeaderWords(8);
    var part := SonyElfFormat.SinPart(f).value;
    var all := SonyElfFormat.Counted(f) + SonyElfFormat.Uncounted(f);
    assert all == [SonyElfFormat.Segment(SonyElfFormat.Kernel, 0, [1])];
    assert all[1..] == [] && |SonyElfFormat.Bodies(all)| == 1;
    assert part[32..40] == BOOT_MAGIC;
    assert MatchesAt(part, 32, BOOT_MAGIC);
    assert SonyElfMagic.PartPasses(part, 52 + 32);
    SonyElfMagic.NoMagicExactly(f);
    DetectSonyElf(f);
    SonyElfWithSinComesBack(f);
  }

  /** A SIN image next to an ipl segment. */
  function SinWithIpl(): I10e {
    Fresh().(kernelImage := [1], iplImage := [2], sonySinImage := [3], sonySinHdr := SinHeader(1))
  }

  lemma TwoBodies(all: seq<SonyElfFormat.Segment>)
    requires |all| == 2
    ensures |SonyElfFormat.Bodies(all)| == |all[0].body| + |all[1].body|
  {
    assert all[1..][1..] == [];
    assert SonyElfFormat.Bodies(all[1..]) == all[1].body + SonyElfFormat.Bodies([]);
  }

  /** The ipl segment is read in its place. */
  lemma SinIsDisplaced()
    ensures var f := SinWithIpl();
            && SonyElfFormat.Created(f).Some? && |SonyElfFormat.Created(f).value| < U32_LIMIT
            && SonyElfFormat.LoadedFrom(Fresh(), SonyElfFormat.Created(f).value).Loaded?
            && SonyElfFormat.LoadedFrom(Fresh(), SonyElfFormat.Created(f).value).i10e.sonySinImage == []
            && SonyElfFormat.LoadedFrom(Fresh(), SonyElfFormat.Created(f).value).i10e.iplImage == [2]
  {
    hide U32Bytes, U32At, PutU32, SonyElfFormat.PhdrTable, SonyElfFormat.EhdrBytes, SonyElfFormat.LoadedFrom, SinHeader;
    var f := SinWithIpl();
    SinHeaderWords(1);
    var all := SonyElfFormat.Counted(f) + SonyElfFormat.Uncounted(f);
    TwoBodies(all);
    assert SonyElfFormat.Uncounted(f)[0] == SonyElfFormat.Segment(SonyElfFormat.Ipl, 0, [2]);
    SonyElfFormat.SinDisplaced(f);
  }

  /** A kernel whose address and size spell the magic. */
  function HugeKernel(): I10e {
    Fresh().(kernelAddr := SonyElfMagic.MAGIC_START, kernelImage := Zeros(SonyElfMagic.MAGIC_END))
  }

  /** Without a SIN image it takes a segment of more than 500 MB to be mistaken. */
  lemma HugeKernelPassesForAndroid()
    ensures var f := HugeKernel();
            && SonyElfFormat.Created(f).Some? && |SonyElfFormat.Created(f).value| < U32_LIMIT
            && Reloaded(SonyElfFormat.Created(f).value) != Some((SonyElf, SonyElfFormat.Expected(f)))
  {
    hide Detect, Reloaded, SonyElfFormat.PhdrTable, SonyElfFormat.EhdrBytes, SonyElfFormat.Expected;
    var f := HugeKernel();
    var s := SonyElfFormat.Segment(SonyElfFormat.Kernel, f.kernelAddr, f.kernelImage);
    var all := SonyElfFormat.Counted(f) + SonyElfFormat.Uncounted(f);
    assert all == [s] && all[0] == s && all[1..] == [];
    assert |SonyElfFormat.Bodies(all)| == SonyElfMagic.MAGIC_END;
    SonyElfComesBack(f);
  }
}
