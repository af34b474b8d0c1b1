/** What stands at each offset of an Android boot image, in the numbers of its layout. */
module AndroidLayout {
  import opened Bytes
  import opened Intermediate
  import opened AndroidFormat

  /** n rounded up to whole pages. */
  function Pages(n: nat, p: nat): nat
    requires p > 0
  {
    (n + p - 1) / p * p
  }

  lemma PaddedTakesPages(image: bytes, p: u32)
    requires ValidPageSize(p) && |image| < U32_LIMIT
    ensures |Padded(image, p)| == Pages(|image|, p)
  {
    hide SkipPadding;
    PaddedIsPageAligned(image, p);
    SkipPaddingReachesBoundary(|image|, p);
    PagesIsGap(|image|, p);
  }

  lemma PagesIsGap(n: nat, p: nat)
    requires p > 0
    ensures Pages(n, p) == n + Gap(n, p)
  {
    var q, r := n / p, n % p;
    assert n == q * p + r;
    if r == 0 {
      DivModUnique(n + p - 1, p, q, p - 1);
    } else {
      assert n + p - 1 == (q + 1) * p + (r - 1);
      DivModUnique(n + p - 1, p, q + 1, r - 1);
    }
  }

  /** A string in a field: up to its first NUL, cut to one less than the field, then zeros. */
  predicate FieldHolds(field: bytes, s: bytes) {
    exists n :: 0 <= n <= |s| && n < |field|
      && field[..n] == s[..n] && 0 !in s[..n] && (n == |s| || s[n] == 0 || n == |field| - 1)
      && forall i :: n <= i < |field| ==> field[i] == 0
  }

  lemma StringFieldHolds(s: bytes, size: nat)
    requires size > 0
    ensures FieldHolds(StringField(s, size), s)
  {
    var m := if |s| < size - 1 then |s| else size - 1;
    var t := CString(s[..m]);
    var n := |t|;
    assert t == s[..n] && StringField(s, size)[..n] == t;
    assert n < m ==> s[n] == s[..m][n] == 0;
  }

  /** The header of an image at a position. */
  predicate HeaderAt(data: bytes, f: I10e, kernelSize: u32, ramdiskSize: u32, digest: Digest) {
    && |data| >= 608
    && data[..8] == [0x41, 0x4e, 0x44, 0x52, 0x4f, 0x49, 0x44, 0x21]
    && U32At(data, 8) == kernelSize && U32At(data, 12) == f.kernelAddr
    && U32At(data, 16) == ramdiskSize && U32At(data, 20) == f.ramdiskAddr
    && U32At(data, 24) == f.hdrSecondSize && U32At(data, 28) == f.secondAddr
    && U32At(data, 32) == f.tagsAddr && U32At(data, 36) == f.pageSize
    && U32At(data, 40) == f.hdrDtSize && U32At(data, 44) == f.hdrUnused
    && FieldHolds(data[48..64], f.boardName) && FieldHolds(data[64..576], f.cmdline)
    && data[576..596] == digest && data[596..608] == [0, 0, 0, 0, 0, 0, 0, 0, 0, 0, 0, 0]
  }

  lemma HeaderOfStands(f: I10e, kernelSize: u32, ramdiskSize: u32, digest: Digest, rest: bytes)
    ensures HeaderAt(HeaderBytes(HeaderOf(f, kernelSize, ramdiskSize, digest)) + rest, f, kernelSize, ramdiskSize, digest)
  {
    hide U32At, StringField, WordsBytes, FieldHolds;
    var h := HeaderOf(f, kernelSize, ramdiskSize, digest);
    var data := HeaderBytes(h) + rest;
    HeaderRoundTrip(h, rest);
    WordsRead(data, h);
    assert data == BOOT_MAGIC + (WordsBytes(h.words) + (h.name + h.cmdline + h.id) + rest);
    assert data[48..64] == h.name && data[64..576] == h.cmdline && data[576..608] == h.id;
    assert data[576..596] == data[576..608][..20] && data[596..608] == data[576..608][20..];
    StringFieldHolds(f.boardName, 16);
    StringFieldHolds(f.cmdline, 512);
  }

  lemma WordsRead(data: bytes, h: Header)
    requires |data| >= 608 && ReadHeader(data, 0) == h
    ensures |h.words| == 10 && forall i :: 0 <= i < 10 ==> U32At(data, 8 + 4 * i) == h.words[i]
    ensures U32At(data, 8) == h.words[0] && U32At(data, 12) == h.words[1] && U32At(data, 16) == h.words[2]
            && U32At(data, 20) == h.words[3] && U32At(data, 24) == h.words[4] && U32At(data, 28) == h.words[5]
            && U32At(data, 32) == h.words[6] && U32At(data, 36) == h.words[7] && U32At(data, 40) == h.words[8]
            && U32At(data, 44) == h.words[9]
  {
    hide U32At;
    var w := ReadHeader(data, 0).words;
    assert forall i :: 0 <= i < 10 ==> w[i] == U32At(data, 0 + 8 + 4 * i);
    assert w[0] == U32At(data, 8) && w[1] == U32At(data, 12) && w[2] == U32At(data, 16) && w[3] == U32At(data, 20)
        && w[4] == U32At(data, 24) && w[5] == U32At(data, 28) && w[6] == U32At(data, 32) && w[7] == U32At(data, 36)
        && w[8] == U32At(data, 40) && w[9] == U32At(data, 44);
  }

  /** An image in its pages, with zeros behind it. */
  predicate ImageAt(data: bytes, from: nat, image: bytes, p: nat)
    requires p > 0
  {
    && from + Pages(|image|, p) <= |data| && |image| <= Pages(|image|, p)
    && data[from..from + |image|] == image
    && forall i :: from + |image| <= i < from + Pages(|image|, p) ==> data[i] == 0
  }

  lemma PaddedStands(data: bytes, pre: bytes, image: bytes, post: bytes, p: u32)
    requires ValidPageSize(p) && |image| < U32_LIMIT && data == pre + Padded(image, p) + post
    ensures ImageAt(data, |pre|, image, p)
  {
    hide SkipPadding;
    PaddedTakesPages(image, p);
    PaddedIsPageAligned(image, p);
    var k := Padded(image, p);
    assert forall i :: |pre| <= i < |pre| + |k| ==> data[i] == k[i - |pre|];
  }

  /** The four images, each from a page boundary on, in this order and with nothing between them. */
  predicate ImagesAt(data: bytes, p: nat, kernel: bytes, ramdisk: bytes, second: bytes, dt: bytes)
    requires p > 0
  {
    var r := p + Pages(|kernel|, p);
    var s := r + Pages(|ramdisk|, p);
    var d := s + Pages(|second|, p);
    && ImageAt(data, p, kernel, p) && ImageAt(data, r, ramdisk, p) && ImageAt(data, s, second, p) && ImageAt(data, d, dt, p)
    && |data| == d + Pages(|dt|, p)
    && forall i :: 608 <= i < p ==> data[i] == 0
  }

  lemma AssembledImages(h: Header, kernel: bytes, ramdisk: bytes, second: bytes, dt: bytes)
    requires ValidHeader(h) && ValidPageSize(h.words[PAGE_SIZE]) && |Assemble(h, kernel, ramdisk, second, dt)| < U32_LIMIT
    ensures var data, p := Assemble(h, kernel, ramdisk, second, dt), h.words[PAGE_SIZE];
            var r := p + Pages(|kernel|, p);
            var s := r + Pages(|ramdisk|, p);
            var d := s + Pages(|second|, p);
            && ImageAt(data, p, kernel, p) && ImageAt(data, r, ramdisk, p) && ImageAt(data, s, second, p) && ImageAt(data, d, dt, p)
            && |data| == d + Pages(|dt|, p)
  {
    hide SkipPadding, Padded, Assemble, HeaderBytes, ImageAt, Pages;
    var p := h.words[PAGE_SIZE];
    HeaderPage(h, p);
    AssembledImagesFit(h, kernel, ramdisk, second, dt);
    AssembleSegments(h, kernel, ramdisk, second, dt);
    var data := Assemble(h, kernel, ramdisk, second, dt);
    var page, k, r, s, d := Padded(HeaderBytes(h), p), Padded(kernel, p), Padded(ramdisk, p), Padded(second, p), Padded(dt, p);
    PaddedTakesPages(kernel, p);
    PaddedTakesPages(ramdisk, p);
    PaddedTakesPages(second, p);
    PaddedTakesPages(dt, p);
    PartsBehind([], page, k, r, s, d, []);
    PartsAlone(page, k, r, s, d);
    PaddedStands(data, page, kernel, r + s + d + [], p);
    PaddedStands(data, page + k, ramdisk, s + d + [], p);
    PaddedStands(data, page + k + r, second, d + [], p);
    PaddedStands(data, page + k + r + s, dt, [], p);
  }

  lemma AssembledHead(h: Header, kernel: bytes, ramdisk: bytes, second: bytes, dt: bytes)
    requires ValidHeader(h) && ValidPageSize(h.words[PAGE_SIZE])
    ensures var data, p := Assemble(h, kernel, ramdisk, second, dt), h.words[PAGE_SIZE];
            && p <= |data| && (forall i :: 608 <= i < p ==> data[i] == 0) && data == HeaderBytes(h) + data[608..]
  {
    hide SkipPadding, Padded, Assemble, HeaderBytes;
    var p := h.words[PAGE_SIZE];
    HeaderPage(h, p);
    AssembleSegments(h, kernel, ramdisk, second, dt);
    var data := Assemble(h, kernel, ramdisk, second, dt);
    var page := Padded(HeaderBytes(h), p);
    var rest := Padded(kernel, p) + Padded(ramdisk, p) + Padded(second, p) + Padded(dt, p);
    assert data == page + rest;
    assert forall i :: 0 <= i < p ==> data[i] == page[i];
    assert data[..608] == page[..608] == HeaderBytes(h);
  }

  lemma AssembledStands(h: Header, kernel: bytes, ramdisk: bytes, second: bytes, dt: bytes)
    requires ValidHeader(h) && ValidPageSize(h.words[PAGE_SIZE]) && |Assemble(h, kernel, ramdisk, second, dt)| < U32_LIMIT
    ensures var data := Assemble(h, kernel, ramdisk, second, dt);
            ImagesAt(data, h.words[PAGE_SIZE], kernel, ramdisk, second, dt) && |data| >= 608 && data == HeaderBytes(h) + data[608..]
  {
    hide Assemble, HeaderBytes, ImageAt, Pages;
    AssembledImages(h, kernel, ramdisk, second, dt);
    AssembledHead(h, kernel, ramdisk, second, dt);
  }

  lemma PartsAlone(page: bytes, k: bytes, r: bytes, s: bytes, d: bytes)
    ensures [] + (page + k + r + s + d + []) == page + k + r + s + d
    ensures [] + page == page
  {
  }

  /** A created image: its header by offsets, the hash over images and sizes in this order, and its pages. */
  lemma CreatedOffsets(f: I10e, sha1: Sha1)
    requires ValidPageSize(f.pageSize) && AndroidFormat.Created(f, sha1).Some? && |AndroidFormat.Created(f, sha1).value| < U32_LIMIT
    ensures var data := AndroidFormat.Created(f, sha1).value;
            var hashed := f.kernelImage + U32Bytes(f.hdrKernelSize) + f.ramdiskImage + U32Bytes(f.hdrRamdiskSize)
                          + f.secondImage + U32Bytes(f.hdrSecondSize)
                          + (if f.dtImage == [] then [] else f.dtImage + U32Bytes(f.hdrDtSize));
            && HeaderAt(data, f, f.hdrKernelSize, f.hdrRamdiskSize, sha1(hashed))
            && ImagesAt(data, f.pageSize, f.kernelImage, f.ramdiskImage, f.secondImage, f.dtImage)
  {
    hide Assemble, HeaderBytes, U32Bytes, HeaderAt, ImagesAt, StringField;
    var h := HeaderFor(f, sha1);
    AssembledStands(h, f.kernelImage, f.ramdiskImage, f.secondImage, f.dtImage);
    var data := AndroidFormat.Created(f, sha1).value;
    var digest := sha1(HashInput(f.kernelImage, f.hdrKernelSize, f.ramdiskImage, f.hdrRamdiskSize, f));
    HeaderOfStands(f, f.hdrKernelSize, f.hdrRamdiskSize, digest, data[608..]);
  }

  /** What loading takes from a header at some offset. */
  lemma LoadedOffsets(base: I10e, data: bytes, at: nat)
    requires at + 608 <= |data|
    ensures HeaderLoaded(base, data, at) ==
            (if U32At(data, at + 36) !in {2048, 4096, 8192, 16384, 32768, 65536, 131072} then Rejected
             else Loaded(base.(hdrKernelSize := U32At(data, at + 8), kernelAddr := U32At(data, at + 12),
                               hdrRamdiskSize := U32At(data, at + 16), ramdiskAddr := U32At(data, at + 20),
                               hdrSecondSize := U32At(data, at + 24), secondAddr := U32At(data, at + 28),
                               tagsAddr := U32At(data, at + 32), pageSize := U32At(data, at + 36),
                               hdrDtSize := U32At(data, at + 40), hdrUnused := U32At(data, at + 44),
                               boardName := CString(data[at + 48..at + 64]), cmdline := CString(data[at + 64..at + 576]),
                               hdrId := data[at + 576..at + 608])))
  {
    hide U32At, CString;
    var w := ReadHeader(data, at).words;
    assert w[0] == U32At(data, at + 8) && w[1] == U32At(data, at + 12) && w[2] == U32At(data, at + 16)
        && w[3] == U32At(data, at + 20) && w[4] == U32At(data, at + 24) && w[5] == U32At(data, at + 28)
        && w[6] == U32At(data, at + 32) && w[7] == U32At(data, at + 36) && w[8] == U32At(data, at + 40)
        && w[9] == U32At(data, at + 44);
  }

  // ---------------------------------------------------------------------------
  // Files that are cut short
  // ---------------------------------------------------------------------------

  /** The bounds test of each image: a range past the end is refused, unless its 32-bit end has wrapped around. */
  lemma BoundsTest(data: bytes, pos: u32, size: u32)
    requires |data| < U32_LIMIT
    ensures CutImage(data, pos, size).Cut? <==> pos + size <= |data|
    ensures CutImage(data, pos, size).Wild? <==> 0x1_0000_0000 <= pos + size <= 0x1_0000_0000 + |data|
  {
  }

  lemma HeaderOfPrefix(data: bytes, n: nat, base: I10e)
    requires 1120 <= n <= |data| && data[..8] == [0x41, 0x4e, 0x44, 0x52, 0x4f, 0x49, 0x44, 0x21]
    ensures HeaderIndex(data, 512) == Some(0) && HeaderIndex(data[..n], 512) == Some(0)
    ensures HeaderLoaded(base, data[..n], 0) == HeaderLoaded(base, data, 0)
  {
    hide ReadHeader, CString, FindFirst;
    assert MatchesAt(data, 0, BOOT_MAGIC);
    var cut := data[..n];
    assert cut[..8] == data[..8];
    assert MatchesAt(cut, 0, BOOT_MAGIC);
    HeaderMoves([], data);
    SameHeaderBytes(cut, data);
  }

  lemma SameHeaderBytes(a: bytes, b: bytes)
    requires |a| >= 608 && |b| >= 608 && a[..608] == b[..608]
    ensures ReadHeader(a, 0) == ReadHeader(b, 0)
  {
    hide U32At;
    assert a == a[..608] + a[608..] && b == a[..608] + b[608..];
    HeaderOfWhole(a[..608], a[608..]);
    HeaderOfWhole(a[..608], b[608..]);
  }

  lemma HeaderOfWhole(head: bytes, rest: bytes)
    requires |head| == 608
    ensures ReadHeader(head + rest, 0) == ReadHeader(head, 0)
  {
    hide U32At;
    var data := head + rest;
    forall i | 0 <= i < 10 ensures U32At(data, 0 + 8 + 4 * i) == U32At(head, 0 + 8 + 4 * i) {
      assert data[8 + 4 * i..8 + 4 * i + 4] == head[8 + 4 * i..8 + 4 * i + 4];
      U32AtSlice(data, 8 + 4 * i, head, 8 + 4 * i);
    }
    assert data[48..64] == head[48..64] && data[64..576] == head[64..576] && data[576..608] == head[576..608];
  }

  /** Cutting an image out of a file that was cut short. */
  lemma CutOfPrefix(data: bytes, n: nat, pos: u32, size: u32)
    requires n <= |data| && pos + size <= |data| < U32_LIMIT
    ensures CutImage(data[..n], pos, size) == if pos + size <= n then Cut(data[pos..pos + size]) else TooShort
    ensures CutDeviceTree(data[..n], pos, size)
         == if pos + size <= n then Cut(data[pos..pos + size]) else if pos <= n then Cut(data[pos..n]) else Wild
  {
    if pos + size <= n {
      assert data[..n][pos..pos + size] == data[pos..pos + size];
    } else if pos <= n {
      assert data[..n][pos..] == data[pos..n];
    }
  }

  /** The walk over the four images, by the offsets of the layout. */
  lemma WalkIs(g: I10e, data: bytes, n: nat)
    requires ValidPageSize(g.pageSize) && n <= |data| < U32_LIMIT
    requires var p := g.pageSize;
             p + Pages(g.hdrKernelSize, p) + Pages(g.hdrRamdiskSize, p) + Pages(g.hdrSecondSize, p) + Pages(g.hdrDtSize, p) <= |data|
    ensures var p, k, r, s, d := g.pageSize, g.hdrKernelSize, g.hdrRamdiskSize, g.hdrSecondSize, g.hdrDtSize;
            var at1 := p + Pages(k, p);
            var at2 := at1 + Pages(r, p);
            var at3 := at2 + Pages(s, p);
            && p + k <= |data| && at1 + r <= |data| && at2 + s <= |data| && at3 + d <= |data|
            && Images(g, data[..n], 0) ==
               (if n < p + k || n < at1 + r || n < at2 + s then Rejected
                else if n < at3 then OutOfBounds
                else Loaded(g.(kernelImage := data[p..p + k], ramdiskImage := data[at1..at1 + r], secondImage := data[at2..at2 + s],
                               dtImage := data[at3..if at3 + d <= n then at3 + d else n])))
  {
    hide SkipPadding, CutImage, CutDeviceTree, Pages, Advance, ValidPageSize;
    var p, k, r, s, d := g.pageSize, g.hdrKernelSize, g.hdrRamdiskSize, g.hdrSecondSize, g.hdrDtSize;
    FirstPage(p);
    var at1 := p + Pages(k, p);
    var at2 := at1 + Pages(r, p);
    var at3 := at2 + Pages(s, p);
    StepIsPages(d, p);
    AdvanceIs(p, k, p);
    AdvanceIs(at1, r, p);
    AdvanceIs(at2, s, p);
    CutOfPrefix(data, n, p, k);
    CutOfPrefix(data, n, at1, r);
    CutOfPrefix(data, n, at2, s);
    CutOfPrefix(data, n, at3, d);
  }

  lemma AdvanceIs(pos: u32, size: u32, p: u32)
    requires ValidPageSize(p) && pos + Pages(size, p) < U32_LIMIT
    ensures Advance(pos, size, p) == pos + Pages(size, p) && size <= Pages(size, p)
  {
    hide SkipPadding, Pages;
    StepIsPages(size, p);
  }

  lemma FirstPage(p: u32)
    requires ValidPageSize(p)
    ensures 608 + SkipPadding(608, p) == p && Wrap32(Wrap32(608) + SkipPadding(608, p)) == p && p > 0
  {
    hide SkipPadding;
    DivModUnique(608, p, 0, 608);
    SkipPaddingReachesBoundary(608, p);
  }

  lemma StepIsPages(n: u32, p: u32)
    requires ValidPageSize(p)
    ensures n + SkipPadding(n, p) == Pages(n, p) && n <= Pages(n, p)
  {
    hide SkipPadding;
    SkipPaddingReachesBoundary(n, p);
    PagesIsGap(n, p);
  }

  /**
   A created image that was cut short, but not before its device tree, loads with what is left of the device tree;
   cut before the end of an earlier image, it is refused.
   */
  lemma LoadsCutShort(f: I10e, sha1: Sha1, base: I10e, n: nat)
    requires ValidPageSize(f.pageSize) && SizesAgree(f)
    requires 1120 <= n <= |AndroidFormat.Created(f, sha1).value| < U32_LIMIT
    ensures var p := f.pageSize;
            var at1 := p + Pages(|f.kernelImage|, p);
            var at2 := at1 + Pages(|f.ramdiskImage|, p);
            var at3 := at2 + Pages(|f.secondImage|, p);
            var r := AndroidFormat.LoadedFrom(base, AndroidFormat.Created(f, sha1).value[..n]);
            && (n < p + |f.kernelImage| || n < at1 + |f.ramdiskImage| || n < at2 + |f.secondImage| ==> r == Rejected)
            && (n >= at3 ==> r == Loaded(Recovered(base, f, HeaderFor(f, sha1).id)
                                         .(dtImage := if n < at3 + |f.dtImage| then f.dtImage[..n - at3] else f.dtImage)))
  {
    hide AndroidFormat.LoadedFrom, Assemble, Images, Recovered, Pages, SkipPadding, HeaderFor, ImagesAt, ValidPageSize, WithHeader;
    var data := AndroidFormat.Created(f, sha1).value;
    CreatedStarts(f, sha1);
    var g := CutHeader(f, sha1, base, n);
    var p := f.pageSize;
    FirstPage(p);
    ImageParts(data, f);
    WalkIs(g, data, n);
    WithRecovered(f, sha1, base, g);
    StepIsPages(|f.kernelImage|, p);
    StepIsPages(|f.ramdiskImage|, p);
    StepIsPages(|f.secondImage|, p);
    var at3 := p + Pages(|f.kernelImage|, p) + Pages(|f.ramdiskImage|, p) + Pages(|f.secondImage|, p);
    if at3 <= n < at3 + |f.dtImage| {
      SliceOfSlice(data, at3, at3 + |f.dtImage|, 0, n - at3);
    }
  }

  /** The header of a created image that was cut short. */
  lemma CutHeader(f: I10e, sha1: Sha1, base: I10e, n: nat) returns (g: I10e)
    requires ValidPageSize(f.pageSize) && SizesAgree(f)
    requires 1120 <= n <= |AndroidFormat.Created(f, sha1).value| < U32_LIMIT
    ensures g == WithHeader(base, HeaderFor(f, sha1))
    ensures AndroidFormat.LoadedFrom(base, AndroidFormat.Created(f, sha1).value[..n])
         == Images(g, AndroidFormat.Created(f, sha1).value[..n], 0)
    ensures g.pageSize == f.pageSize && g.hdrKernelSize == |f.kernelImage| && g.hdrRamdiskSize == |f.ramdiskImage|
            && g.hdrSecondSize == |f.secondImage| && g.hdrDtSize == |f.dtImage|
  {
    hide Assemble, HeaderBytes, HeaderLoaded, Images, Recovered, Pages, HeaderFor, ImagesAt, HeaderIndex;
    var data := AndroidFormat.Created(f, sha1).value;
    CreatedStarts(f, sha1);
    HeaderOfPrefix(data, n, base);
    g := HeaderOfCreated(f, sha1, base);
  }

  lemma CreatedStarts(f: I10e, sha1: Sha1)
    requires ValidPageSize(f.pageSize) && SizesAgree(f) && AndroidFormat.Created(f, sha1).Some? && |AndroidFormat.Created(f, sha1).value| < U32_LIMIT
    ensures var data := AndroidFormat.Created(f, sha1).value;
            && |data| >= 608 && data[..8] == [0x41, 0x4e, 0x44, 0x52, 0x4f, 0x49, 0x44, 0x21]
            && ImagesAt(data, f.pageSize, f.kernelImage, f.ramdiskImage, f.secondImage, f.dtImage)
  {
    hide AndroidFormat.Created, ImagesAt, FieldHolds, U32At, U32Bytes;
    CreatedOffsets(f, sha1);
  }

  lemma ImageParts(data: bytes, f: I10e)
    requires f.pageSize > 0 && ImagesAt(data, f.pageSize, f.kernelImage, f.ramdiskImage, f.secondImage, f.dtImage)
    ensures var p := f.pageSize;
            var at1 := p + Pages(|f.kernelImage|, p);
            var at2 := at1 + Pages(|f.ramdiskImage|, p);
            var at3 := at2 + Pages(|f.secondImage|, p);
            && at3 + Pages(|f.dtImage|, p) == |data|
            && p + |f.kernelImage| <= |data| && data[p..p + |f.kernelImage|] == f.kernelImage
            && at1 + |f.ramdiskImage| <= |data| && data[at1..at1 + |f.ramdiskImage|] == f.ramdiskImage
            && at2 + |f.secondImage| <= |data| && data[at2..at2 + |f.secondImage|] == f.secondImage
            && at3 + |f.dtImage| <= |data| && data[at3..at3 + |f.dtImage|] == f.dtImage
  {
    hide Pages;
  }

  lemma HeaderOfCreated(f: I10e, sha1: Sha1, base: I10e) returns (g: I10e)
    requires ValidPageSize(f.pageSize) && SizesAgree(f) && 608 <= |AndroidFormat.Created(f, sha1).value| < U32_LIMIT
    ensures g == WithHeader(base, HeaderFor(f, sha1)) && HeaderLoaded(base, AndroidFormat.Created(f, sha1).value, 0) == Loaded(g)
    ensures g.pageSize == f.pageSize && g.hdrKernelSize == |f.kernelImage| && g.hdrRamdiskSize == |f.ramdiskImage|
            && g.hdrSecondSize == |f.secondImage| && g.hdrDtSize == |f.dtImage|
  {
    hide Assemble, HeaderBytes, ReadHeader, CString, StringField, HashInput;
    var h := HeaderFor(f, sha1);
    AssembledStands(h, f.kernelImage, f.ramdiskImage, f.secondImage, f.dtImage);
    AssembledImagesFit(h, f.kernelImage, f.ramdiskImage, f.secondImage, f.dtImage);
    var data := AndroidFormat.Created(f, sha1).value;
    HeaderRoundTrip(h, data[608..]);
    g := WithHeader(base, h);
  }

  lemma WithRecovered(f: I10e, sha1: Sha1, base: I10e, g: I10e)
    requires g == WithHeader(base, HeaderFor(f, sha1))
    ensures g.(kernelImage := f.kernelImage, ramdiskImage := f.ramdiskImage, secondImage := f.secondImage, dtImage := f.dtImage)
         == Recovered(base, f, HeaderFor(f, sha1).id)
  {
    hide CString, StringField, HashInput, Truncated;
    StringFieldRoundTrip(f.boardName, BOOT_NAME_SIZE);
    StringFieldRoundTrip(f.cmdline, BOOT_ARGS_SIZE);
  }
}
