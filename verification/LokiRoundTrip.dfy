/** What a created Loki image looks like, and what loading it gives back. */
module LokiRoundTrip {
  import opened Bytes
  import opened Intermediate
  import opened AndroidFormat
  import opened LokiPatcher
  import opened LokiFormat
  import opened LokiPage

  /** An image that the Loki header can describe, with all offsets below 2^32. */
  predicate Patchable(f: I10e) {
    && SizesAgree(f)
    && |f.kernelImage| + |f.ramdiskImage| + |f.dtImage| + 0x80_0000 < U32_LIMIT
  }

  /** The load address that the patcher records for the relocated ramdisk. */
  function StoredRamdiskAddr(f: I10e): u32 {
    Wrap32(f.kernelAddr + Align(f.hdrKernelSize, f.pageSize))
  }

  lemma CommonTail(a: bytes, b: bytes, from: nat)
    requires |a| == |b| && from <= |a| && a[from..] == b[from..]
    ensures forall i, j :: from <= i <= j <= |a| ==> a[i..j] == b[i..j]
  {
    forall k | from <= k < |a|
      ensures a[k] == b[k]
    {
      assert a[k] == a[from..][k - from] == b[from..][k - from] == b[k];
    }
  }

  /**
   What the patcher copies as the device tree: it takes the pages behind the ramdisk for it, which
   start with the second bootloader image if there is one.
   */
  function WrittenDeviceTree(f: I10e): (r: bytes)
    ensures |r| == |f.dtImage|
  {
    (Padded(f.secondImage, f.pageSize) + Padded(f.dtImage, f.pageSize))[..|f.dtImage|]
  }

  lemma WithoutSecondImage(f: I10e)
    requires ValidPageSize(f.pageSize) && f.secondImage == []
    ensures WrittenDeviceTree(f) == f.dtImage
  {
    hide Padded;
    PaddedIsPageAligned([], f.pageSize);
    assert [] + Padded(f.dtImage, f.pageSize) == Padded(f.dtImage, f.pageSize);
  }

  /** Where the padded images lie in the buffer that gets patched. */
  lemma ImagesInBuffer(h: Header, kernel: bytes, ramdisk: bytes, second: bytes, dt: bytes, zeros: bytes)
    requires ValidHeader(h) && ValidPageSize(h.words[PAGE_SIZE])
    requires |kernel| + |ramdisk| + |dt| + 0x80_0000 < U32_LIMIT
    ensures var p := h.words[PAGE_SIZE];
            var data := Assemble(h, kernel, ramdisk, second, dt) + zeros;
            var kernelEnd := p + Align(|kernel|, p);
            var ramdiskEnd := kernelEnd + Align(|ramdisk|, p);
            && kernelEnd == p + |Padded(kernel, p)| && ramdiskEnd == kernelEnd + |Padded(ramdisk, p)|
            && ramdiskEnd + |dt| <= |data|
            && data[p..kernelEnd] == Padded(kernel, p)
            && data[kernelEnd..ramdiskEnd] == Padded(ramdisk, p)
            && data[ramdiskEnd..ramdiskEnd + |dt|] == (Padded(second, p) + Padded(dt, p))[..|dt|]
  {
    hide SkipPadding, Padded, Assemble, HeaderBytes, Align;
    var p := h.words[PAGE_SIZE];
    HeaderPage(h, p);
    AssembleSegments(h, kernel, ramdisk, second, dt);
    AlignIsPadding(|kernel|, p);
    AlignIsPadding(|ramdisk|, p);
    PaddedIsPageAligned(kernel, p);
    PaddedIsPageAligned(ramdisk, p);
    Segments(Padded(HeaderBytes(h), p), Padded(kernel, p), Padded(ramdisk, p), Padded(second, p), Padded(dt, p), zeros, |dt|);
  }

  lemma Segments(s0: bytes, k: bytes, r: bytes, s: bytes, d: bytes, zeros: bytes, n: nat)
    requires n <= |d|
    ensures var data := s0 + k + r + s + d + zeros;
            && data[|s0|..|s0| + |k|] == k
            && data[|s0| + |k|..|s0| + |k| + |r|] == r
            && data[|s0| + |k| + |r|..|s0| + |k| + |r| + n] == (s + d)[..n]
  {
    var data := s0 + k + r + s + d + zeros;
    SliceOfConcat(s0, k, r + s + d + zeros);
    assert data == s0 + k + (r + s + d + zeros);
    SliceOfConcat(s0 + k, r, s + d + zeros);
    assert data == (s0 + k) + r + (s + d + zeros);
    assert data == (s0 + k + r) + (s + d) + zeros;
    StartOfSegment(data, s0 + k + r, (s + d)[..n], s + d, zeros);
  }

  /** The created image with room behind it, on whole pages. */
  function Buffer(f: I10e, sha1: Sha1): bytes {
    match AndroidFormat.Created(f, sha1)
    case None => []
    case Some(image) => Resize(image, WholePages(|image| + 0x2000))
  }

  /** The buffers patchImage works on, and the bootloader it recognises. */
  lemma PatchedBuffers(f: I10e, sha1: Sha1, out: bytes) returns (zeros: bytes, aboot: bytes, tgt: LokiTarget)
    requires LokiFormat.Created(f, sha1) == Patched(out)
    ensures ValidPageSize(f.pageSize) && tgt in Targets() && |aboot| >= 0x1000 && |zeros| >= 0x2000
    ensures TargetOf(f.abootImage) == Some(tgt) && aboot == Resize(f.abootImage, WholePages(|f.abootImage|))
    ensures HeaderFor(f, sha1).words[PAGE_SIZE] == f.pageSize
    ensures var h := HeaderFor(f, sha1);
            var data := AndroidFormat.Created(f, sha1).value + zeros;
            && ReadHeader(data, 0) == h && data == Buffer(f, sha1)
            && SpliceStatus(|data|, |aboot|, h, AbootBase(aboot), tgt) == PatchOk
            && out == SplicedImage(PatchedHeader(data, tgt), h, aboot, AbootBase(aboot), tgt, Shellcode(tgt.hdr, f.ramdiskAddr))
  {
    hide AndroidFormat.Created, ReadHeader, FindCheckSigs, Targets, HeaderFor, Filled, PatchedHeader, Shellcode,
         SplicedImage, SpliceStatus, AbootBase;
    CreatedNeedsPageSize(f, sha1);
    PageSizeOfHeader(f, sha1);
    CreatedStartsWithHeader(f, sha1);
    var image := AndroidFormat.Created(f, sha1).value;
    zeros := Zeros(WholePages(|image| + 0x2000) - |image|);
    var data := Resize(image, WholePages(|image| + 0x2000));
    assert data == image + zeros;
    aboot := Resize(f.abootImage, WholePages(|f.abootImage|));
    SameHeader(image, data);
    tgt := FindTarget(Targets(), FindCheckSigs(aboot)).value;
    ShellcodeForTarget(tgt, f.ramdiskAddr);
    assert Patched(out) == PatchedFor(data, aboot, AbootBase(aboot), tgt);
  }

  /** The bootloader code that is spliced in for a target, before the shellcode goes over it. */
  function BootloaderCode(f: I10e, tgt: LokiTarget): bytes {
    var aboot := Resize(f.abootImage, WholePages(|f.abootImage|));
    if !ReachesCode(f, tgt) then [] else
      var start := SpliceStart(tgt, AbootBase(aboot));
      aboot[start..start + FakeSize(tgt, f.pageSize)]
  }

  /** The code lies inside the bootloader image. */
  predicate ReachesCode(f: I10e, tgt: LokiTarget) {
    var aboot := Resize(f.abootImage, WholePages(|f.abootImage|));
    |aboot| >= 16 &&
    var start := SpliceStart(tgt, AbootBase(aboot));
    0 <= start && start + FakeSize(tgt, f.pageSize) <= |aboot|
  }

  /**
   Patch confinement: the output is the patched header page, then kernel, ramdisk and device tree
   exactly as they lie in the created image, with the bootloader code between them changed only by
   the 65 shellcode bytes.
   */
  lemma PatchedLayout(f: I10e, sha1: Sha1, out: bytes) returns (d: bytes, tgt: LokiTarget, code: bytes)
    requires Patchable(f) && LokiFormat.Created(f, sha1) == Patched(out)
    ensures ValidPageSize(f.pageSize) && tgt in Targets() && |d| >= f.pageSize && |code| == FakeSize(tgt, f.pageSize) >= 0x200
    ensures TargetOf(f.abootImage) == Some(tgt) && ReachesCode(f, tgt) && code == BootloaderCode(f, tgt)
    ensures PatchedWords(d, HeaderFor(f, sha1), tgt) && d[..|BOOT_MAGIC|] == BOOT_MAGIC
    ensures IsPatchedPage(d, HeaderFor(f, sha1), f.pageSize)
    ensures |Buffer(f, sha1)| >= LOKI_HEADER_END && d == PatchedHeader(Buffer(f, sha1), tgt)
    ensures out == Joined(d[..f.pageSize], Padded(f.kernelImage, f.pageSize), Padded(f.ramdiskImage, f.pageSize),
                          Overwrite(code, SigOffset(tgt), Shellcode(tgt.hdr, f.ramdiskAddr)), WrittenDeviceTree(f))
  {
    hide SkipPadding, Padded, Assemble, HeaderBytes, ReadHeader, Align, Joined, Overwrite, AbootBase,
         Targets, TargetOf, HeaderFor, PatchedHeader, PatchedWords, Shellcode, SigOffset, LokiFormat.Created, SpliceStatus,
         IsPatchedPage, Buffer;
    var zeros, aboot;
    zeros, aboot, tgt := PatchedBuffers(f, sha1, out);
    var p := f.pageSize;
    var h := HeaderFor(f, sha1);
    PageSizeOfHeader(f, sha1);
    CreatedStartsWithHeader(f, sha1);
    var image := Assemble(h, f.kernelImage, f.ramdiskImage, f.secondImage, f.dtImage);
    var data := image + zeros;
    d := PatchedHeader(data, tgt);
    AllTargetsAgree(tgt);
    PatchedHeaderWords(data, tgt);
    CommonTail(d, data, LOKI_HEADER_END);
    ImagesInBuffer(h, f.kernelImage, f.ramdiskImage, f.secondImage, f.dtImage, zeros);
    FakeSizeHoldsShellcode(tgt, p);
    var start := SpliceStart(tgt, AbootBase(aboot));
    SpliceInBounds(|data|, |aboot|, h, AbootBase(aboot), tgt);
    code := aboot[start..start + FakeSize(tgt, p)];
    HeaderPageTail(h, f.kernelImage, f.ramdiskImage, f.secondImage, f.dtImage, zeros);
    QuietPage(data, tgt, p);
    PageIsPatched(d, h, tgt, p);
    MagicFirst(f, sha1);
    assert data[..|BOOT_MAGIC|] == image[..|BOOT_MAGIC|];
  }

  lemma HeaderPageTail(h: Header, kernel: bytes, ramdisk: bytes, second: bytes, dt: bytes, zeros: bytes)
    requires ValidHeader(h) && ValidPageSize(h.words[PAGE_SIZE])
    ensures var p := h.words[PAGE_SIZE];
            var data := Assemble(h, kernel, ramdisk, second, dt) + zeros;
            p <= |data| && AllZero(data, HEADER_SIZE, p)
  {
    hide SkipPadding, Padded, Assemble, HeaderBytes;
    var p := h.words[PAGE_SIZE];
    HeaderPage(h, p);
    AssembleSegments(h, kernel, ramdisk, second, dt);
    var data := Assemble(h, kernel, ramdisk, second, dt) + zeros;
    var page := Padded(HeaderBytes(h), p);
    var rest := Padded(kernel, p) + Padded(ramdisk, p) + Padded(second, p) + Padded(dt, p) + zeros;
    assert data == page + rest;
    assert forall i :: 0 <= i < p ==> data[i] == page[i];
  }

  lemma SpliceInBounds(dataSize: nat, abootSize: nat, h: Header, base: u32, tgt: LokiTarget)
    requires ValidHeader(h) && SpliceStatus(dataSize, abootSize, h, base, tgt) == PatchOk
    ensures h.words[PAGE_SIZE] <= dataSize
    ensures 0 <= SpliceStart(tgt, base) && SpliceStart(tgt, base) + FakeSize(tgt, h.words[PAGE_SIZE]) <= abootSize
  {
  }

  lemma MagicFirst(f: I10e, sha1: Sha1)
    requires ValidPageSize(f.pageSize)
    ensures |AndroidFormat.Created(f, sha1).value| >= HEADER_SIZE
    ensures AndroidFormat.Created(f, sha1).value[..|BOOT_MAGIC|] == BOOT_MAGIC
  {
    hide SkipPadding, HeaderFor, HeaderBytes, Padded, Assemble;
    var h := HeaderFor(f, sha1);
    PageSizeOfHeader(f, sha1);
    AssembleSegments(h, f.kernelImage, f.ramdiskImage, f.secondImage, f.dtImage);
    var page := Padded(HeaderBytes(h), f.pageSize);
    HeaderPage(h, f.pageSize);
    HeaderMagic(h);
    assert page[..|BOOT_MAGIC|] == HeaderBytes(h)[..|BOOT_MAGIC|];
  }

  lemma HeaderMagic(h: Header)
    requires ValidHeader(h)
    ensures HeaderBytes(h)[..|BOOT_MAGIC|] == BOOT_MAGIC
  {
    hide WordsBytes;
    assert HeaderBytes(h) == BOOT_MAGIC + (WordsBytes(h.words) + (h.name + h.cmdline + h.id));
  }

  // ---------------------------------------------------------------------------
  // Loading it again
  // ---------------------------------------------------------------------------

  /** The recovered fields, with the ramdisk address and device tree the loader came up with; a second image never is. */
  function LokiRecovered(base: I10e, f: I10e, id: bytes, ramdiskAddr: u32, dt: bytes): I10e {
    Recovered(base, f, id).(ramdiskAddr := ramdiskAddr, secondImage := [], dtImage := dt)
  }

  /** Byte offset of the shellcode in the created image. */
  function ShellcodeAt(f: I10e, tgt: LokiTarget): nat {
    f.pageSize + |Padded(f.kernelImage, f.pageSize)| + |Padded(f.ramdiskImage, f.pageSize)| + SigOffset(tgt)
  }

  /** The first copy of the shellcode's code, by which the loader finds the ramdisk address. */
  function FirstCopy(out: bytes): Option<nat>
    requires |out| >= PREFIX_SIZE
  {
    FindFirst(out, ShellcodePrefix(), 0, |out| - PREFIX_SIZE)
  }

  lemma ShellcodeInOutput(pre: bytes, code: bytes, post: bytes, at: nat, header: u32, ramdisk: u32)
    requires at + SHELLCODE_SIZE <= |code|
    ensures var out := pre + Overwrite(code, at, Shellcode(header, ramdisk)) + post;
            && |pre| + at + SHELLCODE_SIZE <= |out|
            && MatchesAt(out, |pre| + at, ShellcodePrefix())
            && U32At(out, |pre| + at + 60) == ramdisk
            && FirstCopy(out).Some? && FirstCopy(out).value <= |pre| + at
  {
    hide ShellcodePrefix, U32Bytes, U32At;
    var patch := Shellcode(header, ramdisk);
    var out := pre + Overwrite(code, at, patch) + post;
    OverwriteInside(pre, code, post, at, patch);
    var k := |pre| + at;
    assert out[k..k + SHELLCODE_SIZE] == patch;
    assert out[k..k + PREFIX_SIZE] == patch[..PREFIX_SIZE] == ShellcodePrefix();
    assert out[k + 60..k + 64] == patch[60..64] == U32Bytes(ramdisk) == U32Bytes(ramdisk)[0..4];
    U32RoundTrip(ramdisk);
    U32AtSlice(out, k + 60, U32Bytes(ramdisk), 0);
  }

  // --- Where the loader finds the ramdisk address -----------------------------------

  /** The images and the bootloader code up to the patcher's own copy of the shellcode. */
  function Searched(f: I10e, tgt: LokiTarget): (r: bytes)
    requires |BootloaderCode(f, tgt)| >= 0x200
    ensures |r| == OwnCopy(f, tgt) + PREFIX_SIZE
  {
    Padded(f.kernelImage, f.pageSize) + Padded(f.ramdiskImage, f.pageSize)
    + (BootloaderCode(f, tgt)[..SigOffset(tgt)] + ShellcodePrefix())
  }

  /** The images and the code with the shellcode in it. */
  function Spliced(f: I10e, tgt: LokiTarget): (r: bytes)
    requires |BootloaderCode(f, tgt)| >= 0x200
    ensures |r| >= OwnCopy(f, tgt) + SHELLCODE_SIZE
  {
    Padded(f.kernelImage, f.pageSize) + Padded(f.ramdiskImage, f.pageSize)
    + Overwrite(BootloaderCode(f, tgt), SigOffset(tgt), Shellcode(tgt.hdr, f.ramdiskAddr))
  }

  /** Byte offset of the patcher's own copy behind the header page. */
  function OwnCopy(f: I10e, tgt: LokiTarget): nat {
    |Padded(f.kernelImage, f.pageSize)| + |Padded(f.ramdiskImage, f.pageSize)| + SigOffset(tgt)
  }

  lemma OwnIsCopy(f: I10e, tgt: LokiTarget)
    requires |BootloaderCode(f, tgt)| >= 0x200
    ensures MatchesAt(Searched(f, tgt), OwnCopy(f, tgt), ShellcodePrefix())
  {
    hide Padded, ShellcodePrefix, BootloaderCode, SigOffset;
    var pre := Padded(f.kernelImage, f.pageSize) + Padded(f.ramdiskImage, f.pageSize) + BootloaderCode(f, tgt)[..SigOffset(tgt)];
    assert Searched(f, tgt) == pre + ShellcodePrefix() + [];
    SliceOfConcat(pre, ShellcodePrefix(), []);
  }

  /** The first copy in the images, which is the patcher's own at the latest. */
  function FirstInImages(f: I10e, tgt: LokiTarget): (k: nat)
    requires |BootloaderCode(f, tgt)| >= 0x200
    ensures k <= OwnCopy(f, tgt) && MatchesAt(Searched(f, tgt), k, ShellcodePrefix())
    ensures forall j :: 0 <= j < k ==> !MatchesAt(Searched(f, tgt), j, ShellcodePrefix())
  {
    OwnIsCopy(f, tgt);
    FindFirst(Searched(f, tgt), ShellcodePrefix(), 0, OwnCopy(f, tgt) + 1).value
  }

  /** The word that is taken for the ramdisk address: behind the seam in the header page, or behind the first copy in the images. */
  function WordFound(f: I10e, sha1: Sha1, tgt: LokiTarget): u32
    requires |BootloaderCode(f, tgt)| >= 0x200
  {
    if SeamCopy(HeaderFor(f, sha1)) then U32At(HeaderFor(f, sha1).id, 7)
    else U32At(Spliced(f, tgt), FirstInImages(f, tgt) + 60)
  }

  /** Up to its own copy, the searched bytes are those of the output. */
  lemma CopiesAlike(page: bytes, a: bytes, code: bytes, at: nat, patch: bytes, dt: bytes, k: nat)
    requires at + |patch| <= |code| && |patch| >= PREFIX_SIZE && patch[..PREFIX_SIZE] == ShellcodePrefix() && k <= |a| + at
    ensures var out := page + (a + Overwrite(code, at, patch)) + dt;
            var s := a + (code[..at] + ShellcodePrefix());
            MatchesAt(out, |page| + k, ShellcodePrefix()) <==> MatchesAt(s, k, ShellcodePrefix())
  {
    hide Overwrite, ShellcodePrefix;
    var splice := Overwrite(code, at, patch);
    var out := page + (a + splice) + dt;
    var s := a + (code[..at] + ShellcodePrefix());
    var n := |a| + at + PREFIX_SIZE;
    assert splice[..at + PREFIX_SIZE] == splice[..at] + splice[at..at + |patch|][..PREFIX_SIZE];
    assert out[|page|..|page| + n] == (a + splice)[..n] == s;
    SliceOfSlice(out, |page|, |page| + n, k, k + PREFIX_SIZE);
  }

  lemma FirstCopyIs(out: bytes, k: nat)
    requires |out| > PREFIX_SIZE && k < |out| - PREFIX_SIZE && MatchesAt(out, k, ShellcodePrefix())
    requires forall j :: 0 <= j < k ==> !MatchesAt(out, j, ShellcodePrefix())
    ensures FirstCopy(out) == Some(k)
  {
    hide MatchesAt, ShellcodePrefix;
    var r := FirstCopy(out);
    assert r.Some? && !(r.value < k) && !(k < r.value);
  }

  /** The first copy of the shellcode in a created image, and the word behind it, from the inputs. */
  lemma WordOfCreated(f: I10e, sha1: Sha1, out: bytes) returns (tgt: LokiTarget)
    requires Patchable(f) && LokiFormat.Created(f, sha1) == Patched(out)
    ensures TargetOf(f.abootImage) == Some(tgt) && |BootloaderCode(f, tgt)| >= 0x200 && |out| >= PREFIX_SIZE
    ensures FirstCopy(out) == Some(if SeamCopy(HeaderFor(f, sha1)) then SEAM else f.pageSize + FirstInImages(f, tgt))
    ensures FirstCopy(out).value + 64 <= |out| && U32At(out, FirstCopy(out).value + 60) == WordFound(f, sha1, tgt)
  {
    hide SkipPadding, Padded, Shellcode, ShellcodePrefix, U32At, SigOffset, Targets, TargetOf, HeaderFor, LokiFormat.Created,
         BootloaderCode, ReachesCode, WrittenDeviceTree, PatchedWords, MatchesAt, IsPatchedPage, SeamCopy, Joined, FirstCopy,
         Overwrite, FirstInImages, FakeSize, Buffer, PatchedHeader;
    var d, code;
    d, tgt, code := PatchedLayout(f, sha1, out);
    var p, h := f.pageSize, HeaderFor(f, sha1);
    var a := Padded(f.kernelImage, p) + Padded(f.ramdiskImage, p);
    var patch := Shellcode(tgt.hdr, f.ramdiskAddr);
    var images, dt := Spliced(f, tgt), WrittenDeviceTree(f);
    assert out == d[..p] + images + dt && out == d[..p] + (images + dt) by {
      ImagesOfJoined(d[..p], Padded(f.kernelImage, p), Padded(f.ramdiskImage, p), Overwrite(code, SigOffset(tgt), patch), dt);
    }
    PageKept(d, h, p, images + dt);
    forall k | 0 <= k < p
      ensures k + PREFIX_SIZE <= |out| && (MatchesAt(out, k, ShellcodePrefix()) <==> k == SEAM && SeamCopy(h))
    {
      PageCopies(f, sha1, out, k);
    }
    forall k | 0 <= k <= OwnCopy(f, tgt)
      ensures MatchesAt(out, p + k, ShellcodePrefix()) <==> MatchesAt(Searched(f, tgt), k, ShellcodePrefix())
    {
      CopiesAlike(d[..p], a, code, SigOffset(tgt), patch, dt, k);
    }
    if SeamCopy(h) {
      FirstCopyIs(out, SEAM);
      SeamIsCopy(out, h, p);
    } else {
      var m := FirstInImages(f, tgt);
      forall j | 0 <= j < p + m ensures !MatchesAt(out, j, ShellcodePrefix()) {
        if j >= p {
          assert !MatchesAt(Searched(f, tgt), j - p, ShellcodePrefix());
        }
      }
      FirstCopyIs(out, p + m);
      WordBehind(d[..p], images, dt, m + 60);
    }
  }

  lemma ImagesOfJoined(page: bytes, k: bytes, r: bytes, splice: bytes, dt: bytes)
    ensures Joined(page, k, r, splice, dt) == page + (k + r + splice) + dt
    ensures Joined(page, k, r, splice, dt) == page + ((k + r + splice) + dt)
  {
  }

  lemma WordBehind(page: bytes, images: bytes, dt: bytes, at: nat)
    requires at + 4 <= |images|
    ensures U32At(page + images + dt, |page| + at) == U32At(images, at)
  {
    var out := page + images + dt;
    assert out[|page| + at..|page| + at + 4] == images[at..at + 4];
    U32AtSlice(out, |page| + at, images, at);
  }

  lemma PageCopies(f: I10e, sha1: Sha1, out: bytes, k: nat)
    requires IsPatchedPage(out, HeaderFor(f, sha1), f.pageSize) && k < f.pageSize && k + PREFIX_SIZE <= |out|
    ensures MatchesAt(out, k, ShellcodePrefix()) <==> k == SEAM && SeamCopy(HeaderFor(f, sha1))
  {
    hide MatchesAt, IsPatchedPage, StringField, SeamCopy;
    CopiesInPage(out, HeaderFor(f, sha1), f.pageSize, f.boardName, f.cmdline, k);
  }

  /** The patcher's own copy is followed by the ramdisk address. */
  lemma OwnWord(f: I10e, tgt: LokiTarget)
    requires |BootloaderCode(f, tgt)| >= 0x200
    ensures U32At(Spliced(f, tgt), OwnCopy(f, tgt) + 60) == f.ramdiskAddr
  {
    hide Padded, U32At, SigOffset, BootloaderCode, ShellcodePrefix;
    var a := Padded(f.kernelImage, f.pageSize) + Padded(f.ramdiskImage, f.pageSize);
    ShellcodeInOutput(a, BootloaderCode(f, tgt), [], SigOffset(tgt), tgt.hdr, f.ramdiskAddr);
    assert a + Overwrite(BootloaderCode(f, tgt), SigOffset(tgt), Shellcode(tgt.hdr, f.ramdiskAddr)) + [] == Spliced(f, tgt);
  }

  /** What the loader takes from the header of a created image, before it undoes the patch. */
  function HeaderFields(f: I10e, sha1: Sha1, base: I10e, tgt: LokiTarget): I10e
    requires tgt.checkSigs >= 16
  {
    WithHeader(base, HeaderFor(f, sha1))
    .(ramdiskAddr := tgt.checkSigs - SigOffset(tgt),
      hdrKernelSize := Wrap32(Align(Wrap32(|f.kernelImage|), f.pageSize) + |f.ramdiskImage|),
      hdrRamdiskSize := if tgt.lg then f.pageSize else 0)
  }

  /** Images without kernel, ramdisk or stored address count as old-style ones. */
  predicate LoadsAsNew(f: I10e) {
    f.kernelImage != [] && f.ramdiskImage != [] && StoredRamdiskAddr(f) != 0
  }

  /** The header and the Loki header are read back from the patched page, and decide how the image is loaded. */
  lemma ReadsPatchedPage(f: I10e, sha1: Sha1, base: I10e, d: bytes, tgt: LokiTarget, rest: bytes)
    requires Patchable(f) && ValidPageSize(f.pageSize) && |d| >= f.pageSize && tgt in Targets()
    requires PatchedWords(d, HeaderFor(f, sha1), tgt) && d[..|BOOT_MAGIC|] == BOOT_MAGIC
    requires |d[..f.pageSize] + rest| < U32_LIMIT
    ensures var out := d[..f.pageSize] + rest;
            tgt.checkSigs >= 16 && |out| >= LOKI_HEADER_END &&
            var g := HeaderFields(f, sha1, base, tgt);
            && LokiFormat.LoadedFrom(base, out) == (if LoadsAsNew(f) then NewImage(g, out) else OldImage(g, out))
            && U32At(out, LOKI_KERNEL_SIZE) == |f.kernelImage| && U32At(out, LOKI_RAMDISK_SIZE) == |f.ramdiskImage|
            && U32At(out, LOKI_RAMDISK_ADDR) == StoredRamdiskAddr(f)
  {
    hide ReadHeader, U32At, NewImage, OldImage, CString, StringField, HashInput, Align, SigOffset, Targets;
    var p := f.pageSize;
    var out := d[..p] + rest;
    var h := HeaderFor(f, sha1);
    PageSizeOfHeader(f, sha1);
    AllTargetsAgree(tgt);
    PatchedWordsInPage(d, p, rest, h, tgt);
    SliceOfPage(d, p, rest);
    assert MatchesAt(out, LOKI_HEADER, LOKI_MAGIC);
    assert MatchesAt(out, 0, BOOT_MAGIC);
    assert HeaderIndex(out, LOKI_RANGE) == Some(0);
  }

  /** The three copies hit the kernel, the ramdisk and, behind the guessed fake size, the device tree. */
  lemma CopiesOfLayout(page: bytes, kernel: bytes, ramdisk: bytes, splice: bytes, dt: bytes, p: u32, fake: nat)
    requires ValidPageSize(p) && |page| == p && |kernel| + |ramdisk| + 0x80_0000 < U32_LIMIT && fake <= |splice|
    ensures var out := Joined(page, Padded(kernel, p), Padded(ramdisk, p), splice, dt);
            var kernelEnd := p + Align(|kernel|, p);
            var ramdiskEnd := kernelEnd + Align(|ramdisk|, p);
            && Copy(out, p, |kernel|) == Cut(kernel)
            && Copy(out, kernelEnd, |ramdisk|) == Cut(ramdisk)
            && Copy(out, ramdiskEnd + fake, |dt|) == Cut((splice + dt)[fake..fake + |dt|])
  {
    hide SkipPadding, Padded, Align, Joined;
    AlignIsPadding(|kernel|, p);
    AlignIsPadding(|ramdisk|, p);
    PaddedIsPageAligned(kernel, p);
    PaddedIsPageAligned(ramdisk, p);
    var k, r := Padded(kernel, p), Padded(ramdisk, p);
    SegmentsOfJoined(page, kernel, k, ramdisk, r, splice, dt, fake);
  }

  lemma SegmentsOfJoined(page: bytes, kernel: bytes, k: bytes, ramdisk: bytes, r: bytes, splice: bytes, dt: bytes, fake: nat)
    requires |kernel| <= |k| && k[..|kernel|] == kernel && |ramdisk| <= |r| && r[..|ramdisk|] == ramdisk && fake <= |splice|
    ensures var out := Joined(page, k, r, splice, dt);
            && Copy(out, |page|, |kernel|) == Cut(kernel)
            && Copy(out, |page| + |k|, |ramdisk|) == Cut(ramdisk)
            && Copy(out, |page| + |k| + |r| + fake, |dt|) == Cut((splice + dt)[fake..fake + |dt|])
  {
    var out := Joined(page, k, r, splice, dt);
    assert out == page + k + (r + splice + dt);
    StartOfSegment(out, page, kernel, k, r + splice + dt);
    assert out == (page + k) + r + (splice + dt);
    StartOfSegment(out, page + k, ramdisk, r, splice + dt);
    var pre := page + k + r;
    assert out == pre + (splice + dt);
    assert out[|pre| + fake..|pre| + fake + |dt|] == (splice + dt)[fake..fake + |dt|];
  }

  /**
   What loading a created Loki image gives, from the inputs. The ramdisk address is the word behind the
   first copy of the shellcode, and the device tree is cut behind the guessed fake size.
   */
  lemma LoadOfCreated(f: I10e, sha1: Sha1, base: I10e, out: bytes) returns (tgt: LokiTarget, code: bytes)
    requires Patchable(f) && LoadsAsNew(f)
    requires LokiFormat.Created(f, sha1) == Patched(out) && |out| < U32_LIMIT
    ensures ValidPageSize(f.pageSize) && tgt in Targets() && tgt.checkSigs >= 16 && |code| == FakeSize(tgt, f.pageSize) >= 0x200
    ensures TargetOf(f.abootImage) == Some(tgt) && code == BootloaderCode(f, tgt)
    ensures var at := ShellcodeAt(f, tgt);
            && at + SHELLCODE_SIZE <= |out| && U32At(out, at + 60) == f.ramdiskAddr
            && FirstCopy(out).Some? && FirstCopy(out).value <= at
    ensures var ramdiskAddr := WordFound(f, sha1, tgt);
            var fake := GuessedFakeSize(tgt.checkSigs - SigOffset(tgt), f.pageSize);
            var splice := Overwrite(code, SigOffset(tgt), Shellcode(tgt.hdr, f.ramdiskAddr));
            fake <= |splice| && LokiFormat.LoadedFrom(base, out)
            == if ramdiskAddr == 0 then Rejected
               else Loaded(LokiRecovered(base, f, HeaderFor(f, sha1).id, ramdiskAddr,
                                         (splice + WrittenDeviceTree(f))[fake..fake + |f.dtImage|]))
  {
    hide SkipPadding, Padded, Align, Joined, PatchedWords, Shellcode, ShellcodePrefix, U32At, SigOffset, Targets, TargetOf,
         LokiFormat.LoadedFrom, HeaderFor, LokiFormat.Created, Copy, FindFirst, GuessedFakeSize, FakeSize, Recovered, WithHeader,
         BootloaderCode, ReachesCode, WrittenDeviceTree, WordFound, IsPatchedPage, Buffer, PatchedHeader, ValidPageSize;
    var d;
    d, tgt, code := PatchedLayout(f, sha1, out);
    var target := WordOfCreated(f, sha1, out);
    var p := f.pageSize;
    var dt := WrittenDeviceTree(f);
    var k, r := Padded(f.kernelImage, p), Padded(f.ramdiskImage, p);
    var patch := Shellcode(tgt.hdr, f.ramdiskAddr);
    var splice := Overwrite(code, SigOffset(tgt), patch);
    AllTargetsAgree(tgt);
    GuessIsRightButForViper(tgt, p);
    var fake := GuessedFakeSize(tgt.checkSigs - SigOffset(tgt), p);
    JoinedForms(d[..p], k, r, splice, dt);
    ShellcodeOfLayout(f, out, d[..p], k, r, tgt, code, dt);
    ReadsPatchedPage(f, sha1, base, d, tgt, k + r + splice + dt);
    CopiesOfLayout(d[..p], f.kernelImage, f.ramdiskImage, splice, dt, p, fake);
    NewImageOfCopies(f, sha1, base, out, tgt, (splice + dt)[fake..fake + |dt|]);
  }

  lemma ShellcodeOfLayout(f: I10e, out: bytes, page: bytes, k: bytes, r: bytes, tgt: LokiTarget, code: bytes, dt: bytes)
    requires ValidPageSize(f.pageSize) && |page| == f.pageSize && tgt in Targets()
    requires k == Padded(f.kernelImage, f.pageSize) && r == Padded(f.ramdiskImage, f.pageSize) && |code| >= 0x200
    requires out == Joined(page, k, r, Overwrite(code, SigOffset(tgt), Shellcode(tgt.hdr, f.ramdiskAddr)), dt)
    ensures var at := ShellcodeAt(f, tgt);
            && at + SHELLCODE_SIZE <= |out| && U32At(out, at + 60) == f.ramdiskAddr
            && FirstCopy(out).Some? && FirstCopy(out).value <= at
  {
    hide SkipPadding, Padded, Joined, Shellcode, ShellcodePrefix, U32At, SigOffset, Targets, FirstCopy, Overwrite, ValidPageSize;
    AllTargetsAgree(tgt);
    JoinedForms(page, k, r, Overwrite(code, SigOffset(tgt), Shellcode(tgt.hdr, f.ramdiskAddr)), dt);
    ShellcodeInOutput(page + k + r, code, dt, SigOffset(tgt), tgt.hdr, f.ramdiskAddr);
  }

  /** Without kernel, ramdisk or stored address, the created image is loaded by the guesses for old-style images. */
  lemma TakenForOldStyle(f: I10e, sha1: Sha1, base: I10e, out: bytes) returns (tgt: LokiTarget)
    requires Patchable(f) && !LoadsAsNew(f)
    requires LokiFormat.Created(f, sha1) == Patched(out) && |out| < U32_LIMIT
    ensures tgt.checkSigs >= 16 && |out| >= LOKI_HEADER_END && TargetOf(f.abootImage) == Some(tgt)
    ensures LokiFormat.LoadedFrom(base, out) == OldImage(HeaderFields(f, sha1, base, tgt), out)
  {
    hide SkipPadding, Padded, Align, Joined, PatchedWords, Shellcode, U32At, SigOffset, Targets, TargetOf,
         LokiFormat.LoadedFrom, HeaderFor, LokiFormat.Created, FakeSize, WithHeader, BootloaderCode, ReachesCode, WrittenDeviceTree,
         OldImage, HeaderFields, Buffer, PatchedHeader;
    var d, code;
    d, tgt, code := PatchedLayout(f, sha1, out);
    var p := f.pageSize;
    var dt, k, r := WrittenDeviceTree(f), Padded(f.kernelImage, p), Padded(f.ramdiskImage, p);
    var splice := Overwrite(code, SigOffset(tgt), Shellcode(tgt.hdr, f.ramdiskAddr));
    JoinedForms(d[..p], k, r, splice, dt);
    ReadsPatchedPage(f, sha1, base, d, tgt, k + r + splice + dt);
  }

  lemma JoinedForms(page: bytes, k: bytes, r: bytes, splice: bytes, dt: bytes)
    ensures Joined(page, k, r, splice, dt) == page + k + r + splice + dt
    ensures Joined(page, k, r, splice, dt) == page + (k + r + splice + dt)
  {
  }

  lemma NewImageOfCopies(f: I10e, sha1: Sha1, base: I10e, out: bytes, tgt: LokiTarget, dt: bytes)
    requires Patchable(f) && ValidPageSize(f.pageSize) && |out| >= LOKI_HEADER_END && tgt.checkSigs >= 16
    requires U32At(out, LOKI_KERNEL_SIZE) == |f.kernelImage| && U32At(out, LOKI_RAMDISK_SIZE) == |f.ramdiskImage|
    requires U32At(out, LOKI_RAMDISK_ADDR) != 0
    requires FirstCopy(out).Some? && FirstCopy(out).value + 64 <= |out| && |dt| == |f.dtImage|
    requires var p := f.pageSize;
             var kernelEnd := p + Align(|f.kernelImage|, p);
             var ramdiskEnd := kernelEnd + Align(|f.ramdiskImage|, p);
             && Copy(out, p, |f.kernelImage|) == Cut(f.kernelImage)
             && Copy(out, kernelEnd, |f.ramdiskImage|) == Cut(f.ramdiskImage)
             && Copy(out, ramdiskEnd + GuessedFakeSize(tgt.checkSigs - SigOffset(tgt), p), |f.dtImage|) == Cut(dt)
    ensures var g := HeaderFields(f, sha1, base, tgt);
            var ramdiskAddr := U32At(out, FirstCopy(out).value + 60);
            NewImage(g, out) == if ramdiskAddr == 0 then Rejected
                                else Loaded(LokiRecovered(base, f, HeaderFor(f, sha1).id, ramdiskAddr, dt))
  {
    hide Align, ShellcodePrefix, U32At, SigOffset, Copy, FindFirst, GuessedFakeSize, CString, StringField, HashInput, Truncated;
    StringFieldRoundTrip(f.boardName, BOOT_NAME_SIZE);
    StringFieldRoundTrip(f.cmdline, BOOT_ARGS_SIZE);
  }

  /** No copy of the shellcode stands in front of the patcher's own. */
  predicate NoEarlierCopy(f: I10e, sha1: Sha1, tgt: LokiTarget) {
    && |BootloaderCode(f, tgt)| >= 0x200
    && !SeamCopy(HeaderFor(f, sha1))
    && forall k :: 0 <= k < OwnCopy(f, tgt) ==> !MatchesAt(Searched(f, tgt), k, ShellcodePrefix())
  }

  lemma OwnWordFound(f: I10e, sha1: Sha1, tgt: LokiTarget)
    requires NoEarlierCopy(f, sha1, tgt)
    ensures WordFound(f, sha1, tgt) == f.ramdiskAddr
  {
    hide Searched, Spliced, U32At, SeamCopy, MatchesAt, ShellcodePrefix, BootloaderCode, OwnCopy;
    assert FirstInImages(f, tgt) == OwnCopy(f, tgt);
    OwnWord(f, tgt);
  }

  /**
   The Loki round trip. Without a second image, creating and loading gives everything back for every
   known bootloader but the LG Viper's, and for that one too when there is no device tree.
   */
  lemma RoundTrip(f: I10e, sha1: Sha1, base: I10e, out: bytes)
    requires Patchable(f) && LoadsAsNew(f) && f.secondImage == [] && f.ramdiskAddr != 0
    requires LokiFormat.Created(f, sha1) == Patched(out) && |out| < U32_LIMIT
    requires TargetOf(f.abootImage).Some? ==> NoEarlierCopy(f, sha1, TargetOf(f.abootImage).value)
    requires TargetOf(f.abootImage).Some? && TargetOf(f.abootImage).value.checkSigs == VIPER ==> f.dtImage == []
    ensures LokiFormat.LoadedFrom(base, out) == Loaded(Recovered(base, f, HeaderFor(f, sha1).id))
  {
    hide SkipPadding, Padded, Align, Shellcode, ShellcodePrefix, U32At, SigOffset, Targets, TargetOf, StoredRamdiskAddr,
         LokiFormat.LoadedFrom, HeaderFor, LokiFormat.Created, GuessedFakeSize, FakeSize, Patchable, FindFirst, Truncated,
         BootloaderCode, WrittenDeviceTree, LoadsAsNew, NoEarlierCopy, WordFound;
    var tgt, code := LoadOfCreated(f, sha1, base, out);
    var splice := Overwrite(code, SigOffset(tgt), Shellcode(tgt.hdr, f.ramdiskAddr));
    GuessIsRightButForViper(tgt, f.pageSize);
    WithoutSecondImage(f);
    OwnWordFound(f, sha1, tgt);
    var fake := GuessedFakeSize(tgt.checkSigs - SigOffset(tgt), f.pageSize);
    assert (splice + f.dtImage)[fake..fake + |f.dtImage|] == f.dtImage;
  }

  /**
   On the LG Viper the device tree is read 0x200 bytes into the spliced bootloader code, so it comes back
   exactly if it equals as many bytes of that code, continued by the device tree itself.
   */
  predicate ViperReadsDeviceTree(f: I10e, tgt: LokiTarget) {
    var code := BootloaderCode(f, tgt);
    |code| >= 0x200 && (code[0x200..] + f.dtImage)[..|f.dtImage|] == f.dtImage
  }

  /** Behind the shellcode the spliced region is the bootloader code as it was. */
  lemma CodeBehindShellcode(code: bytes, at: nat, patch: bytes, dt: bytes)
    requires at + |patch| <= 0x200 <= |code|
    ensures (Overwrite(code, at, patch) + dt)[0x200..0x200 + |dt|] == (code[0x200..] + dt)[..|dt|]
  {
    hide Overwrite;
    var splice := Overwrite(code, at, patch);
    assert forall i :: 0x200 <= i < |code| ==> splice[i] == splice[at + |patch|..][i - at - |patch|] == code[i];
    assert splice[0x200..] == code[0x200..];
    assert (splice + dt)[0x200..] == code[0x200..] + dt;
  }

  /** The device tree the loader comes up with for a created image. */
  lemma DeviceTreeRead(f: I10e, sha1: Sha1, base: I10e, out: bytes)
    requires Patchable(f) && LoadsAsNew(f)
    requires LokiFormat.Created(f, sha1) == Patched(out) && |out| < U32_LIMIT
    ensures TargetOf(f.abootImage).Some? && |BootloaderCode(f, TargetOf(f.abootImage).value)| >= 0x200
    ensures var tgt := TargetOf(f.abootImage).value;
            var word := WordFound(f, sha1, tgt);
            var dt := WrittenDeviceTree(f);
            var code := BootloaderCode(f, tgt);
            LokiFormat.LoadedFrom(base, out)
            == if word == 0 then Rejected
               else Loaded(LokiRecovered(base, f, HeaderFor(f, sha1).id, word,
                                         if tgt.checkSigs == VIPER then (code[0x200..] + dt)[..|dt|] else dt))
  {
    hide SkipPadding, Padded, Align, Shellcode, ShellcodePrefix, U32At, SigOffset, Targets, TargetOf, StoredRamdiskAddr,
         LokiFormat.LoadedFrom, HeaderFor, LokiFormat.Created, GuessedFakeSize, FakeSize, Patchable, FindFirst, Truncated,
         BootloaderCode, WrittenDeviceTree, LoadsAsNew, Recovered, WordFound;
    var tgt, code := LoadOfCreated(f, sha1, base, out);
    GuessIsRightButForViper(tgt, f.pageSize);
    var dt := WrittenDeviceTree(f);
    var splice := Overwrite(code, SigOffset(tgt), Shellcode(tgt.hdr, f.ramdiskAddr));
    var fake := GuessedFakeSize(tgt.checkSigs - SigOffset(tgt), f.pageSize);
    if tgt.checkSigs == VIPER {
      CodeBehindShellcode(code, SigOffset(tgt), Shellcode(tgt.hdr, f.ramdiskAddr), dt);
    } else {
      assert (splice + dt)[fake..fake + |dt|] == dt;
    }
  }

  /** Exactly when everything comes back, for every bootloader in the table, stated on the inputs. */
  lemma RoundTripExactly(f: I10e, sha1: Sha1, base: I10e, out: bytes)
    requires Patchable(f) && LoadsAsNew(f)
    requires LokiFormat.Created(f, sha1) == Patched(out) && |out| < U32_LIMIT
    ensures TargetOf(f.abootImage).Some? && |BootloaderCode(f, TargetOf(f.abootImage).value)| >= 0x200
    ensures LokiFormat.LoadedFrom(base, out) == Loaded(Recovered(base, f, HeaderFor(f, sha1).id))
            <==> f.secondImage == []
                 && f.ramdiskAddr != 0
                 && WordFound(f, sha1, TargetOf(f.abootImage).value) == f.ramdiskAddr
                 && (TargetOf(f.abootImage).value.checkSigs == VIPER
                     ==> ViperReadsDeviceTree(f, TargetOf(f.abootImage).value))
  {
    hide SkipPadding, Padded, Align, ShellcodePrefix, U32At, Targets, TargetOf, StoredRamdiskAddr,
         LokiFormat.LoadedFrom, HeaderFor, LokiFormat.Created, Patchable, FindFirst, Truncated,
         BootloaderCode, WrittenDeviceTree, LoadsAsNew, WordFound;
    DeviceTreeRead(f, sha1, base, out);
    if f.secondImage == [] {
      CreatedIsPaged(f, sha1, out);
      WithoutSecondImage(f);
    }
  }

  lemma CreatedIsPaged(f: I10e, sha1: Sha1, out: bytes)
    requires LokiFormat.Created(f, sha1) == Patched(out)
    ensures ValidPageSize(f.pageSize)
  {
    hide PatchedFrom, ValidPageSize, AndroidFormat.Created;
    CreatedNeedsPageSize(f, sha1);
  }

  /** A second bootloader image is lost, and the device tree that comes back is cut from its pages. */
  lemma SecondImageIsLost(f: I10e, sha1: Sha1, base: I10e, out: bytes)
    requires Patchable(f) && LoadsAsNew(f) && f.secondImage != []
    requires LokiFormat.Created(f, sha1) == Patched(out) && |out| < U32_LIMIT
    requires TargetOf(f.abootImage).Some? && TargetOf(f.abootImage).value.checkSigs != VIPER
    ensures var r := LokiFormat.LoadedFrom(base, out);
            r.Loaded? ==>
              && r.i10e.secondImage == [] && r.i10e.hdrSecondSize == f.hdrSecondSize
              && r.i10e.dtImage == (Padded(f.secondImage, f.pageSize) + Padded(f.dtImage, f.pageSize))[..|f.dtImage|]
  {
    hide SkipPadding, Padded, Align, ShellcodePrefix, U32At, Targets, TargetOf, StoredRamdiskAddr,
         LokiFormat.LoadedFrom, HeaderFor, LokiFormat.Created, Patchable, FindFirst, Truncated, BootloaderCode, LoadsAsNew;
    DeviceTreeRead(f, sha1, base, out);
  }

  /**
   Exactly when loading succeeds: the word behind the first copy of the shellcode is not zero. It becomes
   the ramdisk address, and kernel and ramdisk come back whenever loading succeeds.
   */
  lemma RamdiskAddressSurvives(f: I10e, sha1: Sha1, base: I10e, out: bytes)
    requires Patchable(f) && LoadsAsNew(f)
    requires LokiFormat.Created(f, sha1) == Patched(out) && |out| < U32_LIMIT
    ensures TargetOf(f.abootImage).Some? && |BootloaderCode(f, TargetOf(f.abootImage).value)| >= 0x200
    ensures var word := WordFound(f, sha1, TargetOf(f.abootImage).value);
            var r := LokiFormat.LoadedFrom(base, out);
            && (r.Loaded? <==> word != 0)
            && (r.Loaded? ==> r.i10e.kernelImage == f.kernelImage && r.i10e.ramdiskImage == f.ramdiskImage
                              && r.i10e.ramdiskAddr == word)
  {
    hide SkipPadding, Padded, Align, ShellcodePrefix, U32At, Targets, TargetOf, StoredRamdiskAddr,
         LokiFormat.LoadedFrom, HeaderFor, LokiFormat.Created, Patchable, FindFirst, Truncated,
         BootloaderCode, WrittenDeviceTree, LoadsAsNew, WordFound;
    DeviceTreeRead(f, sha1, base, out);
  }

  /**
   A kernel that starts with the shellcode's code is taken for the shellcode: unless the seam comes first, the word
   60 bytes into it becomes the ramdisk address.
   */
  lemma KernelTakenForShellcode(f: I10e, sha1: Sha1, base: I10e, out: bytes)
    requires Patchable(f) && LoadsAsNew(f) && |f.cmdline| < BOOT_ARGS_SIZE - 1
    requires LokiFormat.Created(f, sha1) == Patched(out) && |out| < U32_LIMIT
    requires |f.kernelImage| >= 64 && f.kernelImage[..PREFIX_SIZE] == ShellcodePrefix()
    ensures var r := LokiFormat.LoadedFrom(base, out);
            && (r.Loaded? ==> r.i10e.ramdiskAddr == U32At(f.kernelImage, 60))
            && (U32At(f.kernelImage, 60) != f.ramdiskAddr ==> r != Loaded(Recovered(base, f, HeaderFor(f, sha1).id)))
  {
    hide U32At, TargetOf, LokiFormat.LoadedFrom, HeaderFor, LokiFormat.Created, Patchable, BootloaderCode, LoadsAsNew, ShellcodePrefix,
         WordFound, Truncated;
    RamdiskAddressSurvives(f, sha1, base, out);
    KernelWordFound(f, sha1, TargetOf(f.abootImage).value);
  }

  lemma KernelWordFound(f: I10e, sha1: Sha1, tgt: LokiTarget)
    requires |BootloaderCode(f, tgt)| >= 0x200 && |f.cmdline| < BOOT_ARGS_SIZE - 1
    requires |f.kernelImage| >= 64 && f.kernelImage[..PREFIX_SIZE] == ShellcodePrefix()
    ensures WordFound(f, sha1, tgt) == U32At(f.kernelImage, 60)
  {
    hide U32At, BootloaderCode, ShellcodePrefix, SeamCopy, Padded, StringField, Overwrite, Shellcode;
    if SeamCopy(HeaderFor(f, sha1)) {
      SeamNeedsLongCmdline(HeaderFor(f, sha1), f.cmdline);
    }
    var k := Padded(f.kernelImage, f.pageSize);
    assert k[..PREFIX_SIZE] == k[..|f.kernelImage|][..PREFIX_SIZE];
    assert Searched(f, tgt)[..PREFIX_SIZE] == k[..PREFIX_SIZE];
    assert FirstInImages(f, tgt) == 0;
    assert Spliced(f, tgt)[60..64] == k[60..64] == k[..|f.kernelImage|][60..64] == f.kernelImage[60..64];
    U32AtSlice(Spliced(f, tgt), 60, f.kernelImage, 60);
  }

  /** The LG Viper: a device tree that differs from the code in its place is not given back. */
  lemma ViperLosesDeviceTree(f: I10e, sha1: Sha1, base: I10e, out: bytes)
    requires Patchable(f) && LoadsAsNew(f)
    requires LokiFormat.Created(f, sha1) == Patched(out) && |out| < U32_LIMIT
    requires TargetOf(f.abootImage).Some? && TargetOf(f.abootImage).value.checkSigs == VIPER
    ensures var r := LokiFormat.LoadedFrom(base, out);
            var code := BootloaderCode(f, TargetOf(f.abootImage).value);
            && (r.Loaded? ==> |code| >= 0x200 && r.i10e.dtImage == (code[0x200..] + WrittenDeviceTree(f))[..|f.dtImage|])
            && (!ViperReadsDeviceTree(f, TargetOf(f.abootImage).value) ==> r != Loaded(Recovered(base, f, HeaderFor(f, sha1).id)))
  {
    hide SkipPadding, Padded, Align, ShellcodePrefix, U32At, Targets, TargetOf, StoredRamdiskAddr, LokiFormat.LoadedFrom,
         HeaderFor, LokiFormat.Created, Patchable, FindFirst, Truncated, BootloaderCode, WrittenDeviceTree, LoadsAsNew,
         ViperReadsDeviceTree;
    DeviceTreeRead(f, sha1, base, out);
    RoundTripExactly(f, sha1, base, out);
  }

  // ---------------------------------------------------------------------------
  // When an image can be created
  // ---------------------------------------------------------------------------

  /** A Loki image is created exactly if the bootloader is a known one and holds all of the code that is spliced in. */
  lemma CreatedExactly(f: I10e, sha1: Sha1)
    requires Patchable(f) && ValidPageSize(f.pageSize)
    ensures LokiFormat.Created(f, sha1).Patched?
            <==> TargetOf(f.abootImage).Some? && ReachesCode(f, TargetOf(f.abootImage).value)
  {
    hide AndroidFormat.Created, ReadHeader, FindCheckSigs, Targets, HeaderFor, Filled, PatchedHeader, Shellcode,
         SplicedImage, SpliceStatus, AbootBase;
    CreatedNeedsPageSize(f, sha1);
    PageSizeOfHeader(f, sha1);
    CreatedStartsWithHeader(f, sha1);
    var image := AndroidFormat.Created(f, sha1).value;
    if f.abootImage != [] {
      var data := Resize(image, WholePages(|image| + 0x2000));
      var aboot := Resize(f.abootImage, WholePages(|f.abootImage|));
      var target := FindCheckSigs(aboot);
      SameHeader(image, data);
      if FindTarget(Targets(), target).Some? {
        var tgt := FindTarget(Targets(), target).value;
        ShellcodeForTarget(tgt, f.ramdiskAddr);
        AllTargetsAgree(tgt);
        StatusOfCreated(f, sha1, data, aboot, tgt);
      }
    }
  }

  lemma StatusOfCreated(f: I10e, sha1: Sha1, data: bytes, aboot: bytes, tgt: LokiTarget)
    requires Patchable(f) && ValidPageSize(f.pageSize) && |aboot| >= 16
    requires data == Resize(AndroidFormat.Created(f, sha1).value, WholePages(|AndroidFormat.Created(f, sha1).value| + 0x2000))
    requires aboot == Resize(f.abootImage, WholePages(|f.abootImage|))
    ensures SpliceStatus(|data|, |aboot|, HeaderFor(f, sha1), AbootBase(aboot), tgt) == PatchOk <==> ReachesCode(f, tgt)
  {
    hide SkipPadding, Padded, Assemble, HeaderBytes, ReadHeader, Align, AbootBase, HeaderFor, SigOffset;
    PageSizeOfHeader(f, sha1);
    var h := HeaderFor(f, sha1);
    var image := Assemble(h, f.kernelImage, f.ramdiskImage, f.secondImage, f.dtImage);
    assert data == image + Zeros(|data| - |image|);
    ImagesInBuffer(h, f.kernelImage, f.ramdiskImage, f.secondImage, f.dtImage, Zeros(|data| - |image|));
    AlignIsPadding(|f.kernelImage|, f.pageSize);
    AlignIsPadding(|f.ramdiskImage|, f.pageSize);
  }
}
