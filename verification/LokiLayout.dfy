/** What stands at each offset of a Loki image, and what its loader reads from which offset, in the numbers of its layout. */
module LokiLayout {
  import opened Bytes
  import opened Intermediate
  import opened AndroidFormat
  import opened AndroidLayout
  import opened LokiPatcher
  import LokiFormat
  import opened LokiPage
  import opened LokiRoundTrip

  // ---------------------------------------------------------------------------
  // Created images
  // ---------------------------------------------------------------------------

  /** The Loki header at 0x400: magic, recovery flag, build name, the two sizes and where the ramdisk would be loaded. */
  predicate LokiHeaderAt(data: bytes, build: string, kernelSize: u32, ramdiskSize: u32, ramdiskAddr: u32) {
    && |data| >= 0x494
    && data[0x400..0x408] == [0x4c, 0x4f, 0x4b, 0x49, 0, 0, 0, 0]
    && (forall i :: 0x408 <= i < 0x487 ==> data[i] == if i - 0x408 < |build| then build[i - 0x408] as int % 256 else 0)
    && U32At(data, 0x488) == kernelSize && U32At(data, 0x48c) == ramdiskSize && U32At(data, 0x490) == ramdiskAddr
  }

  lemma LokiHeaderStands(data: bytes, tgt: LokiTarget, i: nat)
    requires |data| >= 0x494 && i < 127
    ensures var d := WithLokiHeader(data, tgt);
            && d[0x408 + i] == (if i < |tgt.build| then tgt.build[i] as int % 256 else 0)
            && d[0x400..0x408] == [0x4c, 0x4f, 0x4b, 0x49, 0, 0, 0, 0]
  {
    hide ReadHeader, Overwrite, Align, Wrap32, BuildBytes, Resize;
    var h := ReadHeader(data, 0);
    var build := Resize(BuildBytes(tgt.build), 127);
    var a := Overwrite(data, 0x400, LOKI_MAGIC);
    var b := PutU32(a, 0x404, 0);
    var c := Overwrite(b, 0x408, build);
    var d := PutU32(c, 0x488, h.words[KERNEL_SIZE]);
    var e := PutU32(d, 0x48c, h.words[RAMDISK_SIZE]);
    var w := Wrap32(h.words[KERNEL_ADDR] + Align(h.words[KERNEL_SIZE], h.words[PAGE_SIZE]));
    var g := PutU32(e, 0x490, w);
    BesidePatch(c, 0x488, U32Bytes(h.words[KERNEL_SIZE]));
    BesidePatch(d, 0x48c, U32Bytes(h.words[RAMDISK_SIZE]));
    BesidePatch(e, 0x490, U32Bytes(w));
    BesidePatch(b, 0x408, build);
    BesidePatch(a, 0x404, U32Bytes(0));
    assert g[0x408..0x487] == c[0x408..0x487] == build;
    assert g[0x400..0x408] == c[0x400..0x408] == b[0x400..0x408];
    assert b[0x400..0x404] == a[0x400..0x404] == LOKI_MAGIC && b[0x404..0x408] == U32Bytes(0) == [0, 0, 0, 0];
    assert b[0x400..0x408] == b[0x400..0x404] + b[0x404..0x408];
    assert g[0x408 + i] == g[0x408..0x487][i];
    BuildByte(tgt.build, i);
  }

  lemma BuildByte(build: string, i: nat)
    requires i < 127
    ensures Resize(BuildBytes(build), 127)[i] == if i < |build| then build[i] as int % 256 else 0
  {
  }

  /** The header words that are redirected, and those that stay. */
  predicate RedirectedAt(data: bytes, f: I10e, t: LokiTarget, kernelPages: nat) {
    && |data| >= 608
    && data[..8] == [0x41, 0x4e, 0x44, 0x52, 0x4f, 0x49, 0x44, 0x21]
    && U32At(data, 8) == Wrap32(kernelPages + |f.ramdiskImage|) && U32At(data, 12) == f.kernelAddr
    && U32At(data, 16) == (if t.lg then f.pageSize else 0) && U32At(data, 20) == t.checkSigs - t.checkSigs % 16
    && U32At(data, 24) == f.hdrSecondSize && U32At(data, 28) == f.secondAddr && U32At(data, 32) == f.tagsAddr
    && U32At(data, 36) == f.pageSize && U32At(data, 40) == f.hdrDtSize && U32At(data, 44) == f.hdrUnused
  }

  /** The spliced code: bytes of the bootloader, over which the shellcode is written with its two words. */
  predicate SpliceAt(data: bytes, from: nat, size: nat, aboot: bytes, t: LokiTarget, ramdiskAddr: u32)
    requires |aboot| >= 16
  {
    var s := t.checkSigs % 16;
    var start := t.checkSigs - Wrap32(U32At(aboot, 12) - 0x28) - s;
    && s + 65 <= size && from + size <= |data| && 0 <= start && start + size <= |aboot|
    && data[from..from + s] == aboot[start..start + s]
    && data[from + s + 65..from + size] == aboot[start + s + 65..start + size]
    && data[from + s..from + s + 56] == ShellcodePrefix()
    && U32At(data, from + s + 56) == t.hdr && U32At(data, from + s + 60) == ramdiskAddr && data[from + s + 64] == 0
  }

  lemma AlignIsPages(n: u32, p: u32)
    requires ValidPageSize(p) && n + p < U32_LIMIT
    ensures Align(n, p) == Pages(n, p)
  {
    hide Align, SkipPadding;
    AlignIsPadding(n, p);
    SkipPaddingReachesBoundary(n, p);
    PagesIsGap(n, p);
  }

  lemma RedirectedWords(d: bytes, f: I10e, sha1: Sha1, tgt: LokiTarget)
    requires Patchable(f) && ValidPageSize(f.pageSize) && |d| >= 0x494 && tgt.checkSigs >= 16
    requires PatchedWords(d, HeaderFor(f, sha1), tgt) && d[..|BOOT_MAGIC|] == BOOT_MAGIC
    ensures RedirectedAt(d, f, tgt, Pages(|f.kernelImage|, f.pageSize))
    ensures U32At(d, 0x488) == |f.kernelImage| && U32At(d, 0x48c) == |f.ramdiskImage|
            && U32At(d, 0x490) == Wrap32(f.kernelAddr + Pages(|f.kernelImage|, f.pageSize))
  {
    hide U32At, Align, HeaderFor, ReadHeader;
    LokiFormat.PageSizeOfHeader(f, sha1);
    AlignIsPages(|f.kernelImage|, f.pageSize);
    WordsRead(d, ReadHeader(d, 0));
  }

  lemma SpliceStands(pre: bytes, aboot: bytes, start: nat, size: nat, t: LokiTarget, ramdiskAddr: u32, post: bytes)
    requires |aboot| >= 16 && start + size <= |aboot| && size >= 0x200
    requires start == t.checkSigs - Wrap32(U32At(aboot, 12) - 0x28) - t.checkSigs % 16
    ensures var out := pre + Overwrite(aboot[start..start + size], SigOffset(t), Shellcode(t.hdr, ramdiskAddr)) + post;
            SpliceAt(out, |pre|, size, aboot, t, ramdiskAddr)
  {
    hide U32At, ShellcodePrefix, U32Bytes, Overwrite;
    var code, s, patch := aboot[start..start + size], SigOffset(t), Shellcode(t.hdr, ramdiskAddr);
    var splice := Overwrite(code, s, patch);
    var out := pre + splice + post;
    var n := |pre|;
    BesidePatch(code, s, patch);
    SliceBehind(pre, splice, post, 0, s);
    SliceBehind(pre, splice, post, s + 65, size);
    SliceBehind(pre, splice, post, s, s + 65);
    SliceOfSlice(aboot, start, start + size, 0, s);
    SliceOfSlice(aboot, start, start + size, s + 65, size);
    PatchParts(out, n + s, t.hdr, ramdiskAddr);
  }

  lemma SliceBehind(pre: bytes, mid: bytes, post: bytes, i: nat, j: nat)
    requires i <= j <= |mid|
    ensures (pre + mid + post)[|pre| + i..|pre| + j] == mid[i..j]
  {
  }

  lemma PatchParts(out: bytes, at: nat, hdr: u32, ramdiskAddr: u32)
    requires at + 65 <= |out| && out[at..at + 65] == Shellcode(hdr, ramdiskAddr)
    ensures out[at..at + 56] == ShellcodePrefix()
    ensures U32At(out, at + 56) == hdr && U32At(out, at + 60) == ramdiskAddr && out[at + 64] == 0
  {
    hide U32At, ShellcodePrefix, U32Bytes;
    var patch := Shellcode(hdr, ramdiskAddr);
    SliceOfSlice(out, at, at + 65, 0, 56);
    SliceOfSlice(out, at, at + 65, 56, 60);
    SliceOfSlice(out, at, at + 65, 60, 64);
    assert patch[0..56] == ShellcodePrefix() && patch[56..60] == U32Bytes(hdr) && patch[60..64] == U32Bytes(ramdiskAddr);
    assert out[at + 64] == out[at..at + 65][64];
    WordIs(out, at + 56, hdr);
    WordIs(out, at + 60, ramdiskAddr);
  }

  /** A created image, part by part: header page, kernel, ramdisk, spliced code, device tree. */
  lemma CreatedOffsets(f: I10e, sha1: Sha1, out: bytes)
    requires Patchable(f) && LokiFormat.Created(f, sha1) == Patched(out)
    ensures TargetOf(f.abootImage).Some? && ValidPageSize(f.pageSize)
    ensures var t, p := TargetOf(f.abootImage).value, f.pageSize;
            var kernelPages := Pages(|f.kernelImage|, p);
            var n := (|f.abootImage| + 0xfff) / 0x1000 * 0x1000;
            var end := p + kernelPages + Pages(|f.ramdiskImage|, p);
            var fake := if t.lg then p else 0x200;
            && RedirectedAt(out, f, t, kernelPages)
            && LokiHeaderAt(out, t.build, |f.kernelImage|, |f.ramdiskImage|, Wrap32(f.kernelAddr + kernelPages))
            && ImageAt(out, p, f.kernelImage, p) && ImageAt(out, p + kernelPages, f.ramdiskImage, p)
            && n >= |f.abootImage| && n >= 16
            && SpliceAt(out, end, fake, f.abootImage + Zeros(n - |f.abootImage|), t, f.ramdiskAddr)
            && |out| == end + fake + |f.dtImage| && (f.secondImage == [] ==> out[end + fake..] == f.dtImage)
  {
    hide SkipPadding, Padded, Align, Joined, PatchedWords, Shellcode, ShellcodePrefix, U32At, Targets, TargetOf, HeaderFor, SpliceAt,
         LokiFormat.Created, Overwrite, FakeSize, WrittenDeviceTree, IsPatchedPage, Buffer, PatchedHeader, RedirectedAt, LokiHeaderAt,
         ImageAt, Pages, ReachesCode, BootloaderCode;
    var d, tgt, code := PatchedLayout(f, sha1, out);
    var p := f.pageSize;
    var k, r := Padded(f.kernelImage, p), Padded(f.ramdiskImage, p);
    var splice, dt := Overwrite(code, SigOffset(tgt), Shellcode(tgt.hdr, f.ramdiskAddr)), WrittenDeviceTree(f);
    var page := d[..p];
    PaddedTakesPages(f.kernelImage, p);
    PaddedTakesPages(f.ramdiskImage, p);
    PartsOfJoined(page, k, r, splice, dt);
    PaddedStands(out, page, f.kernelImage, r + splice + dt, p);
    PaddedStands(out, page + k, f.ramdiskImage, splice + dt, p);
    AllTargetsAgree(tgt);
    PageStands(f, sha1, d, tgt, page, k + r + splice + dt);
    CodeStands(f, tgt, page + k + r, dt);
    if f.secondImage == [] {
      WithoutSecondImage(f);
    }
  }

  lemma PartsOfJoined(page: bytes, k: bytes, r: bytes, splice: bytes, dt: bytes)
    ensures var out := Joined(page, k, r, splice, dt);
            && out == page + k + (r + splice + dt) && out == (page + k) + r + (splice + dt)
            && out == (page + k + r) + splice + dt && out == page + (k + r + splice + dt)
            && |out| == |page| + |k| + |r| + |splice| + |dt| && out[|page| + |k| + |r| + |splice|..] == dt
  {
  }

  lemma PageStands(f: I10e, sha1: Sha1, d: bytes, tgt: LokiTarget, page: bytes, rest: bytes)
    requires Patchable(f) && ValidPageSize(f.pageSize) && |d| >= f.pageSize && page == d[..f.pageSize] && tgt.checkSigs >= 16
    requires PatchedWords(d, HeaderFor(f, sha1), tgt) && d[..|BOOT_MAGIC|] == BOOT_MAGIC
    requires |Buffer(f, sha1)| >= LOKI_HEADER_END && d == PatchedHeader(Buffer(f, sha1), tgt)
    ensures var kernelPages := Pages(|f.kernelImage|, f.pageSize);
            && RedirectedAt(page + rest, f, tgt, kernelPages)
            && LokiHeaderAt(page + rest, tgt.build, |f.kernelImage|, |f.ramdiskImage|, Wrap32(f.kernelAddr + kernelPages))
  {
    hide U32At, PatchedWords, HeaderFor, Buffer, Pages, WithLokiHeader, ReadHeader;
    RedirectedWords(d, f, sha1, tgt);
    var data := Buffer(f, sha1);
    var out := page + rest;
    SliceOfPage(d, f.pageSize, rest);
    assert forall i :: 0 <= i < f.pageSize ==> out[i] == d[i];
    SameWordsBefore(out, d, f.pageSize);
    var before := WithLokiHeader(data, tgt);
    RedirectKeeps(before, ReadHeader(data, 0), tgt);
    forall i | 0x408 <= i < 0x487
      ensures out[i] == if i - 0x408 < |tgt.build| then tgt.build[i - 0x408] as int % 256 else 0
    {
      LokiHeaderStands(data, tgt, i - 0x408);
      assert out[i] == d[i] == before[i];
    }
    LokiHeaderStands(data, tgt, 0);
    assert out[0x400..0x408] == d[0x400..0x408] == before[0x400..0x408];
  }

  lemma SameWordsBefore(a: bytes, b: bytes, n: nat)
    requires n <= |a| && n <= |b| && forall i :: 0 <= i < n ==> a[i] == b[i]
    ensures forall i: nat :: i + 4 <= n ==> U32At(a, i) == U32At(b, i)
  {
  }

  lemma RedirectKeeps(data: bytes, h: Header, tgt: LokiTarget)
    requires |data| >= LOKI_HEADER_END && ValidHeader(h)
    ensures forall i :: 608 <= i < |data| ==> WithFakeSizes(data, h, tgt)[i] == data[i]
    ensures WithFakeSizes(data, h, tgt)[0x400..0x408] == data[0x400..0x408]
  {
    hide WithFakeSizes;
    forall i | 608 <= i < |data| ensures WithFakeSizes(data, h, tgt)[i] == data[i] {
      RedirectedByte(data, h, tgt, i);
    }
  }

  lemma CodeStands(f: I10e, tgt: LokiTarget, pre: bytes, post: bytes)
    requires ReachesCode(f, tgt) && |BootloaderCode(f, tgt)| == FakeSize(tgt, f.pageSize) >= 0x200
    ensures var n := (|f.abootImage| + 0xfff) / 0x1000 * 0x1000;
            var out := pre + Overwrite(BootloaderCode(f, tgt), SigOffset(tgt), Shellcode(tgt.hdr, f.ramdiskAddr)) + post;
            && n >= |f.abootImage| && n >= 16
            && FakeSize(tgt, f.pageSize) == (if tgt.lg then f.pageSize else 0x200)
            && SpliceAt(out, |pre|, FakeSize(tgt, f.pageSize), f.abootImage + Zeros(n - |f.abootImage|), tgt, f.ramdiskAddr)
  {
    hide U32At, ShellcodePrefix, Shellcode, Overwrite, SpliceAt;
    var n := (|f.abootImage| + 0xfff) / 0x1000 * 0x1000;
    var aboot := Resize(f.abootImage, WholePages(|f.abootImage|));
    assert n == WholePages(|f.abootImage|) && aboot == f.abootImage + Zeros(n - |f.abootImage|);
    SpliceStands(pre, aboot, SpliceStart(tgt, AbootBase(aboot)), FakeSize(tgt, f.pageSize), tgt, f.ramdiskAddr, post);
  }

  // ---------------------------------------------------------------------------
  // Loaded images
  // ---------------------------------------------------------------------------

  /** A file with both magics, its Android header up to 32 bytes into it. */
  predicate LooksLikeLoki(data: bytes, at: nat) {
    && 0x494 <= |data| < U32_LIMIT && at <= 32
    && data[at..at + 8] == [0x41, 0x4e, 0x44, 0x52, 0x4f, 0x49, 0x44, 0x21] && NoEarlierMagic(data, at)
    && ValidPageSize(U32At(data, at + 36))
    && data[0x400..0x404] == [0x4c, 0x4f, 0x4b, 0x49]
  }

  /** The fields that come from the Android header. */
  function HeaderFields(base: I10e, data: bytes, at: nat): I10e
    requires at + 608 <= |data|
  {
    base.(hdrKernelSize := U32At(data, at + 8), kernelAddr := U32At(data, at + 12),
          hdrRamdiskSize := U32At(data, at + 16), ramdiskAddr := U32At(data, at + 20),
          hdrSecondSize := U32At(data, at + 24), secondAddr := U32At(data, at + 28),
          tagsAddr := U32At(data, at + 32), pageSize := U32At(data, at + 36),
          hdrDtSize := U32At(data, at + 40), hdrUnused := U32At(data, at + 44),
          boardName := CString(data[at + 48..at + 64]), cmdline := CString(data[at + 64..at + 576]),
          hdrId := data[at + 576..at + 608])
  }

  lemma LokiIsLoaded(base: I10e, data: bytes, at: nat)
    requires LooksLikeLoki(data, at)
    ensures LokiFormat.Recognised(data) == Valid
    ensures LokiFormat.LoadedFrom(base, data) ==
            (if U32At(data, 0x488) != 0 && U32At(data, 0x48c) != 0 && U32At(data, 0x490) != 0
             then LokiFormat.NewImage(HeaderFields(base, data, at), data)
             else LokiFormat.OldImage(HeaderFields(base, data, at), data))
  {
    hide U32At, CString, LokiFormat.NewImage, LokiFormat.OldImage, FindFirst, ReadHeader, HeaderLoaded;
    LoadedOffsets(base, data, at);
    assert MatchesAt(data, at, BOOT_MAGIC) && MatchesAt(data, 0x400, LOKI_MAGIC);
    var r := FindFirst(data, BOOT_MAGIC, 0, 33);
    assert r.Some? && !(r.value < at) && !(at < r.value);
    assert HeaderIndex(data, LokiFormat.LOKI_RANGE) == Some(at);
  }

  /** The first copy of the shellcode. */
  predicate FirstShellcode(data: bytes, i: nat) {
    && i + 64 <= |data| && MatchesAt(data, i, ShellcodePrefix())
    && forall j :: 0 <= j < i ==> !MatchesAt(data, j, ShellcodePrefix())
  }

  lemma ShellcodeIsFound(data: bytes, i: nat, lokiRamdiskAddr: u32, kernelAddr: u32)
    requires FirstShellcode(data, i) && lokiRamdiskAddr != 0
    ensures LokiFormat.RamdiskAddress(data, lokiRamdiskAddr, kernelAddr) == LokiFormat.Found(U32At(data, i + 60))
  {
    hide U32At, ShellcodePrefix, FindFirst;
    var r := FindFirst(data, ShellcodePrefix(), 0, |data| - 56);
    assert MatchesAt(data, i, ShellcodePrefix());
    assert r.Some? && !(r.value < i) && !(i < r.value);
  }

  /**
   A new-style image, wherever its header stands: kernel, ramdisk and device tree are cut out at offsets from the
   start of the file, by the sizes in the Loki header, and the word 60 bytes into the shellcode is the ramdisk address.
   */
  lemma NewStyleLoads(base: I10e, data: bytes, at: nat, i: nat)
    requires LooksLikeLoki(data, at) && FirstShellcode(data, i) && U32At(data, i + 60) != 0
    requires U32At(data, 0x488) != 0 && U32At(data, 0x48c) != 0 && U32At(data, 0x490) != 0
    requires var p, k, r := U32At(data, at + 36), U32At(data, 0x488), U32At(data, 0x48c);
             p + Pages(k, p) + Pages(r, p) + p + U32At(data, at + 40) <= |data|
    ensures var p, k, r := U32At(data, at + 36), U32At(data, 0x488), U32At(data, 0x48c);
            var kernelEnd := p + Pages(k, p);
            var redirected := U32At(data, at + 20);
            var dt := kernelEnd + Pages(r, p) + (if redirected > 0x88f0_0000 || redirected < 0x0fa0_0000 then p else 0x200);
            && kernelEnd + r <= |data| && p + k <= |data| && dt + U32At(data, at + 40) <= |data|
            && LokiFormat.LoadedFrom(base, data) == Loaded(
                 HeaderFields(base, data, at).(hdrKernelSize := k, hdrRamdiskSize := r, ramdiskAddr := U32At(data, i + 60),
                   kernelImage := data[p..p + k], ramdiskImage := data[kernelEnd..kernelEnd + r], secondImage := [],
                   dtImage := data[dt..dt + U32At(data, at + 40)]))
  {
    hide U32At, CString, LokiFormat.RamdiskAddress, ShellcodePrefix, LokiFormat.LoadedFrom, LokiFormat.OldImage, LokiFormat.NewImage, Align, Pages,
         LooksLikeLoki;
    ValidAndShort(data, at);
    var p, k, r := U32At(data, at + 36), U32At(data, 0x488), U32At(data, 0x48c);
    LokiIsLoaded(base, data, at);
    ShellcodeIsFound(data, i, U32At(data, 0x490), U32At(data, at + 12));
    PagesCover(k, p);
    PagesCover(r, p);
    NewImageIs(HeaderFields(base, data, at), data, U32At(data, i + 60));
  }

  lemma NewImageIs(g: I10e, data: bytes, addr: u32)
    requires 0x494 <= |data| < U32_LIMIT && ValidPageSize(g.pageSize) && addr != 0
    requires LokiFormat.RamdiskAddress(data, U32At(data, 0x490), g.kernelAddr) == LokiFormat.Found(addr)
    requires g.pageSize + Pages(U32At(data, 0x488), g.pageSize) + Pages(U32At(data, 0x48c), g.pageSize) + g.pageSize + g.hdrDtSize <= |data|
    ensures var p, k, r := g.pageSize, U32At(data, 0x488), U32At(data, 0x48c);
            var kernelEnd := p + Pages(k, p);
            var dt := kernelEnd + Pages(r, p) + (if g.ramdiskAddr > 0x88f0_0000 || g.ramdiskAddr < 0x0fa0_0000 then p else 0x200);
            && kernelEnd + r <= |data| && p + k <= |data| && dt + g.hdrDtSize <= |data|
            && LokiFormat.NewImage(g, data) == Loaded(
                 g.(hdrKernelSize := k, hdrRamdiskSize := r, ramdiskAddr := addr, kernelImage := data[p..p + k],
                    ramdiskImage := data[kernelEnd..kernelEnd + r], secondImage := [], dtImage := data[dt..dt + g.hdrDtSize]))
  {
    hide U32At, LokiFormat.RamdiskAddress, Align, Pages;
    var p, k, r := g.pageSize, U32At(data, 0x488), U32At(data, 0x48c);
    PagesCover(k, p);
    PagesCover(r, p);
    AlignIsPages(k, p);
    AlignIsPages(r, p);
  }

  lemma ValidAndShort(data: bytes, at: nat)
    requires LooksLikeLoki(data, at)
    ensures 0x494 <= |data| < U32_LIMIT && at + 608 <= |data| && ValidPageSize(U32At(data, at + 36))
  {
  }

  lemma PagesCover(n: nat, p: nat)
    requires p > 0
    ensures n <= Pages(n, p) < n + p
  {
    PagesIsGap(n, p);
  }

  /** A gzip header with the given flags. */
  predicate GzipAt(data: bytes, i: nat, flags: byte) {
    i + 4 <= |data| && data[i..i + 3] == [0x1f, 0x8b, 0x08] && data[i + 3] == flags
  }

  /** The gzip header that is taken for the ramdisk's: the first one with a file name, else the first one without flags. */
  predicate RamdiskGzip(data: bytes, from: nat, g: nat) {
    && from <= g
    && (|| (GzipAt(data, g, 8) && forall i :: from <= i < g ==> !GzipAt(data, i, 8))
        || (GzipAt(data, g, 0) && (forall i :: from <= i < g ==> !GzipAt(data, i, 0)) && forall i :: from <= i < |data| ==> !GzipAt(data, i, 8)))
  }

  lemma GzipFits(data: bytes, from: nat, g: nat)
    requires RamdiskGzip(data, from, g)
    ensures from <= g < |data|
  {
  }

  lemma GzipIsFound(data: bytes, from: u32, g: nat)
    requires 0 < from <= |data| < U32_LIMIT && RamdiskGzip(data, from, g) && (from + 3 <= |data| ==> data[|data| - 3..] != [0x1f, 0x8b, 0x08])
    ensures LokiFormat.GzipOffset(data, from) == LokiFormat.Found(g)
  {
    hide LokiFormat.FirstGzip;
    forall i: nat, flags: byte | i + 4 <= |data|
      ensures GzipAt(data, i, flags) <==> MatchesAt(data, i, LokiFormat.GZIP_DEFLATE) && data[i + 3] == flags
    {
    }
    var named, plain := LokiFormat.FirstGzip(data, from, 8), LokiFormat.FirstGzip(data, from, 0);
    assert named.Some? ==> GzipAt(data, named.value, 8);
    assert plain.Some? ==> GzipAt(data, plain.value, 0);
    if GzipAt(data, g, 8) && forall i :: from <= i < g ==> !GzipAt(data, i, 8) {
      assert named == Some(g);
    } else {
      assert named == None && plain == Some(g);
    }
  }

  /** Where the old-style ramdisk is said to end: at the last byte that is not zero in the page before the copied code, else there. */
  predicate RamdiskEnd(data: bytes, p: nat, end: nat) {
    && |data| >= 0x200 + p
    && var begin := |data| - 0x200;
    || (begin - p < end <= begin && data[end] != 0 && forall i :: end < i <= begin ==> data[i] == 0)
    || (end == begin && forall i :: begin - p < i <= begin ==> data[i] == 0)
  }

  lemma RamdiskSizeIs(data: bytes, g: u32, p: u32, end: nat)
    requires 0x200 < |data| < U32_LIMIT && RamdiskEnd(data, p, end) && g <= end
    ensures LokiFormat.OldRamdiskSize(data, g, p) == end - g
  {
    hide LokiFormat.LastNonZero;
    var begin := |data| - 0x200;
    var r := LokiFormat.LastNonZero(data, begin, begin - p);
  }

  /**
   An old-style image: the kernel says its own size 0x2c bytes into it, the ramdisk is a gzip archive behind it, and
   without a recorded address the ramdisk goes 0x2000000 - 0x8000 bytes behind the kernel.
   */
  lemma OldStyleLoads(base: I10e, data: bytes, at: nat, g: nat, end: nat, addr: u32)
    requires LooksLikeLoki(data, at) && (U32At(data, 0x488) == 0 || U32At(data, 0x48c) == 0 || U32At(data, 0x490) == 0)
    requires U32At(data, at + 36) + 0x30 <= |data|
    requires var p := U32At(data, at + 36);
             var from := p + U32At(data, p + 0x2c);
             && from <= |data| && RamdiskGzip(data, from, g) && (from + 3 <= |data| ==> data[|data| - 3..] != [0x1f, 0x8b, 0x08])
             && RamdiskEnd(data, p, end) && g <= end
    requires addr != 0 && (if U32At(data, 0x490) == 0 then addr == Wrap32(U32At(data, at + 12) - 0x8000 + 0x200_0000)
                           else exists i: nat :: FirstShellcode(data, i) && addr == U32At(data, i + 60))
    ensures var p := U32At(data, at + 36);
            var k := U32At(data, p + 0x2c);
            LokiFormat.LoadedFrom(base, data) == Loaded(
              HeaderFields(base, data, at).(tagsAddr := 0x1000_0100, hdrKernelSize := k, hdrRamdiskSize := end - g, ramdiskAddr := addr,
                kernelImage := data[p..p + k], ramdiskImage := data[g..end], secondImage := [], dtImage := []))
  {
    hide U32At, CString, LokiFormat.RamdiskAddress, ShellcodePrefix, LokiFormat.LoadedFrom, LokiFormat.NewImage, LokiFormat.OldImage,
         LooksLikeLoki, LokiFormat.GzipOffset, LokiFormat.OldRamdiskSize, RamdiskGzip, RamdiskEnd;
    ValidAndShort(data, at);
    var p := U32At(data, at + 36);
    var k := U32At(data, p + 0x2c);
    LokiIsLoaded(base, data, at);
    GzipIsFound(data, p + k, g);
    GzipFits(data, p + k, g);
    EndFits(data, p, end);
    RamdiskSizeIs(data, g, p, end);
    if U32At(data, 0x490) == 0 {
      DefaultAddress(data, U32At(data, at + 12));
    } else {
      var i: nat :| FirstShellcode(data, i) && addr == U32At(data, i + 60);
      ShellcodeIsFound(data, i, U32At(data, 0x490), U32At(data, at + 12));
    }
    OldImageIs(HeaderFields(base, data, at), data, g, end, addr);
  }

  lemma OldImageIs(h: I10e, data: bytes, g: u32, end: nat, addr: u32)
    requires 0x494 <= |data| < U32_LIMIT && h.pageSize + 0x30 <= |data| && addr != 0
    requires var from := h.pageSize + U32At(data, h.pageSize + 0x2c);
             from <= |data| && from <= g && g > 0 && LokiFormat.GzipOffset(data, from) == LokiFormat.Found(g)
    requires g <= end <= |data| - 0x200 && LokiFormat.OldRamdiskSize(data, g, h.pageSize) == end - g
    requires LokiFormat.RamdiskAddress(data, U32At(data, 0x490), h.kernelAddr) == LokiFormat.Found(addr)
    ensures var p := h.pageSize;
            var k := U32At(data, p + 0x2c);
            LokiFormat.OldImage(h, data) == Loaded(
              h.(tagsAddr := 0x1000_0100, hdrKernelSize := k, hdrRamdiskSize := end - g, ramdiskAddr := addr,
                 kernelImage := data[p..p + k], ramdiskImage := data[g..end], secondImage := [], dtImage := []))
  {
    hide U32At, LokiFormat.RamdiskAddress, LokiFormat.GzipOffset, LokiFormat.OldRamdiskSize;
    var from := h.pageSize + U32At(data, h.pageSize + 0x2c);
    assert Wrap32(from) == from;
  }

  lemma EndFits(data: bytes, p: nat, end: nat)
    requires RamdiskEnd(data, p, end)
    ensures |data| >= 0x200 + p && end <= |data| - 0x200
  {
  }

  lemma DefaultAddress(data: bytes, kernelAddr: u32)
    requires |data| >= 56
    ensures LokiFormat.RamdiskAddress(data, 0, kernelAddr) == LokiFormat.Found(Wrap32(kernelAddr - 0x8000 + 0x200_0000))
  {
  }
}
