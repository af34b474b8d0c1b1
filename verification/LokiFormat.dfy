/** Loki images: recognising them, undoing the patch, and the round trip through both. */
module LokiFormat {
  import opened Bytes
  import opened Intermediate
  import opened AndroidFormat
  import opened LokiPatcher

  const LOKI_RANGE := 32
  const DEFAULT_BASE := 0x1000_0000
  const DEFAULT_TAGS_OFFSET := 0x100
  const OLD_FAKE_SIZE := 0x200

  // ---------------------------------------------------------------------------
  // Creating
  // ---------------------------------------------------------------------------

  lemma CreatedStartsWithHeader(f: I10e, sha1: Sha1)
    requires ValidPageSize(f.pageSize)
    ensures |AndroidFormat.Created(f, sha1).value| >= f.pageSize
    ensures ReadHeader(AndroidFormat.Created(f, sha1).value, 0) == HeaderFor(f, sha1)
  {
    hide SkipPadding, Padded, Assemble, HeaderBytes, ReadHeader, HeaderFor, HeaderIndex;
    var h := HeaderFor(f, sha1);
    var p := f.pageSize;
    assert h.words[PAGE_SIZE] == p by { PageSizeOfHeader(f, sha1); }
    AssembleSegments(h, f.kernelImage, f.ramdiskImage, f.secondImage, f.dtImage);
    var rest := Padded(f.kernelImage, p) + Padded(f.ramdiskImage, p) + Padded(f.secondImage, p) + Padded(f.dtImage, p);
    var image := Assemble(h, f.kernelImage, f.ramdiskImage, f.secondImage, f.dtImage);
    assert image == Padded(HeaderBytes(h), p) + rest;
    HeaderPage(h, p);
    HeaderIsFirst(h, rest, SEARCH_RANGE);
  }

  lemma PageSizeOfHeader(f: I10e, sha1: Sha1)
    ensures HeaderFor(f, sha1).words == [f.hdrKernelSize, f.kernelAddr, f.hdrRamdiskSize, f.ramdiskAddr,
                                         f.hdrSecondSize, f.secondAddr, f.tagsAddr, f.pageSize, f.hdrDtSize, f.hdrUnused]
  {
  }

  function Created(f: I10e, sha1: Sha1): Patched {
    match AndroidFormat.Created(f, sha1)
    case None => Refused
    case Some(image) =>
      CreatedStartsWithHeader(f, sha1);
      PageSizeOfHeader(f, sha1);
      PatchedFrom(image, f.abootImage)
  }

  method CreateImage(impl: Impl, sha1: Sha1, dataOut: ByteVector) returns (status: PatchStatus)
    modifies dataOut
    ensures status == PatchStatusOf(Created(impl.i10e, sha1))
    ensures dataOut.bytes == if status == PatchOk then Created(impl.i10e, sha1).image else old(dataOut.bytes)
  {
    hide AndroidFormat.Created, PatchedFrom, HeaderFor, ReadHeader;
    var data := new ByteVector();
    var ok := AndroidFormat.CreateImage(impl, sha1, data);
    if !ok {
      return PatchFailed;
    }
    assert ValidPageSize(impl.i10e.pageSize) by { CreatedNeedsPageSize(impl.i10e, sha1); }
    CreatedStartsWithHeader(impl.i10e, sha1);
    PageSizeOfHeader(impl.i10e, sha1);
    status := PatchImage(data, impl.i10e.abootImage);
    if status != PatchOk {
      return;
    }
    dataOut.bytes := data.bytes;
  }

  lemma CreatedNeedsPageSize(f: I10e, sha1: Sha1)
    ensures AndroidFormat.Created(f, sha1).Some? <==> ValidPageSize(f.pageSize)
  {
  }

  // ---------------------------------------------------------------------------
  // Loading
  // ---------------------------------------------------------------------------

  function Recognised(data: bytes): Verdict {
    if |data| < LOKI_HEADER + |LOKI_MAGIC| then Invalid
    else if MatchesAt(data, LOKI_HEADER, LOKI_MAGIC) && HeaderIndex(data, LOKI_RANGE).Some? then Valid
    else Invalid
  }

  method IsValid(data: bytes) returns (v: Verdict)
    ensures v == Recognised(data)
  {
    if |data| < LOKI_HEADER + |LOKI_MAGIC| {
      return Invalid;
    }
    if !MatchesAt(data, LOKI_HEADER, LOKI_MAGIC) {
      return Invalid;
    }
    var found, _ := FindHeader(data, LOKI_RANGE);
    v := if found then Valid else Invalid;
  }

  datatype Found = Found(value: u32) | Beyond

  /** The ramdisk address behind the first copy of the shellcode, 0 when there is none. */
  function RamdiskAddress(data: bytes, lokiRamdiskAddr: u32, kernelAddr: u32): Found
    requires |data| >= PREFIX_SIZE
  {
    if lokiRamdiskAddr == 0 then Found(Wrap32(kernelAddr - 0x8000 + 0x0200_0000))
    else
      match FindFirst(data, ShellcodePrefix(), 0, |data| - PREFIX_SIZE)
      case None => Found(0)
      case Some(i) => if i + 64 > |data| then Beyond else Found(U32At(data, i + 60))
  }

  /** A copy without a bounds test. */
  function Copy(data: bytes, from: nat, size: nat): Cut {
    if from + size > |data| then Wild else Cut(data[from..from + size])
  }

  /** New-style images: sizes from the Loki header, ramdisk address from the shellcode. */
  function NewImage(f: I10e, data: bytes): Load
    requires |data| >= LOKI_HEADER_END
  {
    var kernelSize := U32At(data, LOKI_KERNEL_SIZE);
    var ramdiskSize := U32At(data, LOKI_RAMDISK_SIZE);
    var fake := GuessedFakeSize(f.ramdiskAddr, f.pageSize);
    match RamdiskAddress(data, U32At(data, LOKI_RAMDISK_ADDR), f.kernelAddr)
    case Beyond => OutOfBounds
    case Found(ramdiskAddr) =>
      if ramdiskAddr == 0 then Rejected
      else
        var kernelEnd := f.pageSize + Align(kernelSize, f.pageSize);
        var ramdiskEnd := kernelEnd + Align(ramdiskSize, f.pageSize);
        match (Copy(data, f.pageSize, kernelSize), Copy(data, kernelEnd, ramdiskSize),
               Copy(data, ramdiskEnd + fake, f.hdrDtSize))
        case (Cut(kernel), Cut(ramdisk), dt) =>
          if f.hdrDtSize != 0 && dt == Wild then OutOfBounds
          else Loaded(f.(hdrKernelSize := kernelSize, hdrRamdiskSize := ramdiskSize, ramdiskAddr := ramdiskAddr,
                         kernelImage := kernel, ramdiskImage := ramdisk, secondImage := [],
                         dtImage := if f.hdrDtSize != 0 then dt.image else []))
        case _ => OutOfBounds
  }

  // Old-style images: the ramdisk is found by its gzip header

  const GZIP_DEFLATE: bytes := [0x1f, 0x8b, 0x08]
  const FLAG_NAME := 0x08 // the FNAME bit of RFC 1952, section 2.3.1

  /** The first gzip header at or after `from` with the given flag byte. */
  function FirstGzip(data: bytes, from: nat, flag: byte): (r: Option<nat>)
    requires from <= |data|
    ensures r.Some? ==> from <= r.value && r.value + 4 <= |data|
                        && MatchesAt(data, r.value, GZIP_DEFLATE) && data[r.value + 3] == flag
    ensures forall k :: from <= k && (if r.Some? then k < r.value else k + 4 <= |data|)
              ==> !(MatchesAt(data, k, GZIP_DEFLATE) && data[k + 3] == flag)
    decreases |data| - from
  {
    if from + 4 > |data| then None
    else if MatchesAt(data, from, GZIP_DEFLATE) && data[from + 3] == flag then Some(from)
    else FirstGzip(data, from + 1, flag)
  }

  /** The flag byte of a match that ends the data would be read past its end. */
  predicate EndsInGzip(data: bytes, from: nat) {
    from + 3 <= |data| && MatchesAt(data, |data| - 3, GZIP_DEFLATE)
  }

  /** The offset the search settles on: a header with a file name wins over one without flags. */
  function GzipOffset(data: bytes, start: nat): Found
    requires |data| < U32_LIMIT
  {
    if start == 0 || start > |data| || EndsInGzip(data, start) then Beyond
    else
      match FirstGzip(data, start, FLAG_NAME)
      case Some(i) => Found(i)
      case None =>
        match FirstGzip(data, start, 0)
        case Some(i) => Found(i)
        case None => Found(0)
  }

  /** The last non-zero byte in the page that ends where the bootloader copy begins. */
  function LastNonZero(data: bytes, from: nat, lowest: nat): (r: Option<nat>)
    requires lowest <= from < |data|
    ensures r.Some? ==> lowest < r.value <= from && data[r.value] != 0
    ensures forall k :: (if r.Some? then r.value else lowest) < k <= from ==> data[k] == 0
    decreases from
  {
    if from == lowest then None
    else if data[from] != 0 then Some(from)
    else LastNonZero(data, from - 1, lowest)
  }

  function OldRamdiskSize(data: bytes, ramdiskOffset: u32, pageSize: u32): u32
    requires |data| > OLD_FAKE_SIZE
  {
    var begin := |data| - OLD_FAKE_SIZE;
    if begin < pageSize then 0xffff_ffff
    else
      match LastNonZero(data, begin, begin - pageSize)
      case Some(location) => Wrap32(location - ramdiskOffset)
      case None => Wrap32(|data| - ramdiskOffset - OLD_FAKE_SIZE)
  }

  function OldImage(f: I10e, data: bytes): Load
    requires LOKI_HEADER_END <= |data| < U32_LIMIT
  {
    if |data| < f.pageSize + 0x2c + 4 then Rejected
    else
      var kernelSize := U32At(data, f.pageSize + 0x2c);
      match GzipOffset(data, Wrap32(f.pageSize + kernelSize))
      case Beyond => OutOfBounds
      case Found(gzip) =>
        if gzip == 0 then Rejected
        else
          var ramdiskSize := OldRamdiskSize(data, gzip, f.pageSize);
          match RamdiskAddress(data, U32At(data, LOKI_RAMDISK_ADDR), f.kernelAddr)
          case Beyond => OutOfBounds
          case Found(ramdiskAddr) =>
            if ramdiskAddr == 0 then Rejected
            else
              match (Copy(data, f.pageSize, kernelSize), Copy(data, gzip, ramdiskSize))
              case (Cut(kernel), Cut(ramdisk)) =>
                Loaded(f.(tagsAddr := DEFAULT_BASE + DEFAULT_TAGS_OFFSET,
                          hdrKernelSize := kernelSize, hdrRamdiskSize := ramdiskSize, ramdiskAddr := ramdiskAddr,
                          kernelImage := kernel, ramdiskImage := ramdisk, secondImage := [], dtImage := []))
              case _ => OutOfBounds
  }

  /** Images that store both original sizes and the ramdisk's load address are new-style ones. */
  predicate IsNewStyle(data: bytes)
    requires |data| >= LOKI_HEADER_END
  {
    U32At(data, LOKI_KERNEL_SIZE) != 0 && U32At(data, LOKI_RAMDISK_SIZE) != 0 && U32At(data, LOKI_RAMDISK_ADDR) != 0
  }

  function LoadedFrom(f: I10e, data: bytes): Load
    requires |data| < U32_LIMIT
  {
    if Recognised(data) != Valid then Rejected
    else
      match HeaderLoaded(f, data, HeaderIndex(data, LOKI_RANGE).value)
      case Rejected => Rejected
      case OutOfBounds => OutOfBounds
      case Loaded(g) =>
        if |data| < LOKI_HEADER_END then OutOfBounds
        else if IsNewStyle(data) then NewImage(g, data)
        else OldImage(g, data)
  }

  // ---------------------------------------------------------------------------
  // The loader
  // ---------------------------------------------------------------------------

  method FindRamdiskAddress(data: bytes, lokiRamdiskAddr: u32, kernelAddr: u32) returns (r: Found)
    requires PREFIX_SIZE <= |data| < U32_LIMIT
    ensures r == RamdiskAddress(data, lokiRamdiskAddr, kernelAddr)
  {
    hide MatchesAt, ShellcodePrefix;
    if lokiRamdiskAddr != 0 {
      var limit := |data| - PREFIX_SIZE;
      var i: nat := 0;
      while i < limit
        invariant i <= limit
        invariant FindFirst(data, ShellcodePrefix(), i, limit) == FindFirst(data, ShellcodePrefix(), 0, limit)
      {
        if MatchesAt(data, i, ShellcodePrefix()) {
          if i + 64 > |data| {
            return Beyond;
          }
          return Found(U32At(data, i + SHELLCODE_SIZE - 5));
        }
        i := i + 1;
      }
      r := Found(0);
    } else {
      r := Found(Wrap32(kernelAddr - 0x8000 + 0x0200_0000));
    }
  }

  method LoadNewImage(impl: Impl, data: bytes) returns (status: LoadStatus)
    requires LOKI_HEADER_END <= |data| < U32_LIMIT
    modifies impl`i10e
    ensures status == StatusOf(NewImage(old(impl.i10e), data))
    ensures status == LoadOk ==> impl.i10e == NewImage(old(impl.i10e), data).i10e
  {
    hide RamdiskAddress, Align, U32At;
    var origKernelSize := U32At(data, LOKI_KERNEL_SIZE);
    var origRamdiskSize := U32At(data, LOKI_RAMDISK_SIZE);
    var pageSize := impl.i10e.pageSize;
    var fakeSize := 0x200;
    if impl.i10e.ramdiskAddr > 0x88f0_0000 || impl.i10e.ramdiskAddr < 0xfa0_0000 {
      fakeSize := pageSize;
    }
    var found := FindRamdiskAddress(data, U32At(data, LOKI_RAMDISK_ADDR), impl.i10e.kernelAddr);
    if found == Beyond {
      return LoadUndefined;
    }
    if found.value == 0 {
      return LoadFailed;
    }
    impl.i10e := impl.i10e.(hdrKernelSize := origKernelSize, hdrRamdiskSize := origRamdiskSize, ramdiskAddr := found.value);
    var pageKernelSize := Align(origKernelSize, pageSize);
    var pageRamdiskSize := Align(origRamdiskSize, pageSize);

    if pageSize + origKernelSize > |data| {
      return LoadUndefined;
    }
    impl.i10e := impl.i10e.(kernelImage := data[pageSize..pageSize + origKernelSize]);
    var start := pageSize + pageKernelSize;
    if start + origRamdiskSize > |data| {
      return LoadUndefined;
    }
    impl.i10e := impl.i10e.(ramdiskImage := data[start..start + origRamdiskSize]);
    impl.i10e := impl.i10e.(secondImage := []);
    if impl.i10e.hdrDtSize != 0 {
      start := pageSize + pageKernelSize + pageRamdiskSize + fakeSize;
      if start + impl.i10e.hdrDtSize > |data| {
        return LoadUndefined;
      }
      impl.i10e := impl.i10e.(dtImage := data[start..start + impl.i10e.hdrDtSize]);
    } else {
      impl.i10e := impl.i10e.(dtImage := []);
    }
    status := LoadOk;
  }

  /** The search restarts one byte behind each match; every flagged offset is collected. */
  method OldFindGzipOffset(data: bytes, startOffset: u32) returns (r: Found)
    requires |data| < U32_LIMIT
    ensures r == GzipOffset(data, startOffset)
  {
    hide MatchesAt, FirstGzip, EndsInGzip;
    var offsetsFlag8: seq<nat> := [];
    var offsetsFlag0: seq<nat> := [];
    if startOffset == 0 || startOffset > |data| {
      // The range handed to std::search begins past the end of the data
      return Beyond;
    }
    var next: nat := startOffset;
    while true
      invariant startOffset <= next <= |data|
      invariant EndsInGzip(data, startOffset) == EndsInGzip(data, next)
      invariant FirstGzip(data, startOffset, FLAG_NAME) == FirstOr(offsetsFlag8, FirstGzip(data, next, FLAG_NAME))
      invariant FirstGzip(data, startOffset, 0) == FirstOr(offsetsFlag0, FirstGzip(data, next, 0))
      invariant offsetsFlag8 != [] ==> offsetsFlag8[0] != 0
      decreases |data| - next
    {
      var cur, found := SearchGzip(data, next);
      SkipNonMatches(data, next, cur, FLAG_NAME);
      SkipNonMatches(data, next, cur, 0);
      NoTrailingGzip(data, next, cur, found);
      if !found {
        NoMoreGzip(data, FLAG_NAME);
        NoMoreGzip(data, 0);
        break;
      }
      if cur + 3 >= |data| {
        return Beyond;
      }
      GzipStep(data, cur, FLAG_NAME);
      GzipStep(data, cur, 0);
      if data[cur + 3] == FLAG_NAME {
        offsetsFlag8 := offsetsFlag8 + [cur];
      } else if data[cur + 3] == 0 {
        offsetsFlag0 := offsetsFlag0 + [cur];
      }
      next := cur + 1;
    }
    var gzipOffset: nat := 0;
    if offsetsFlag8 != [] {
      gzipOffset := offsetsFlag8[0];
    }
    if gzipOffset == 0 {
      if offsetsFlag0 == [] {
        return Found(0);
      }
      gzipOffset := offsetsFlag0[0];
    }
    r := Found(gzipOffset);
  }

  function FirstOr(offsets: seq<nat>, otherwise: Option<nat>): Option<nat> {
    if offsets != [] then Some(offsets[0]) else otherwise
  }

  lemma GzipStep(data: bytes, at: nat, flag: byte)
    requires at + 4 <= |data| && MatchesAt(data, at, GZIP_DEFLATE)
    ensures FirstGzip(data, at, flag) == if data[at + 3] == flag then Some(at) else FirstGzip(data, at + 1, flag)
  {
  }

  lemma NoMoreGzip(data: bytes, flag: byte)
    ensures FirstGzip(data, |data|, flag) == None
  {
  }

  lemma NoTrailingGzip(data: bytes, from: nat, at: nat, found: bool)
    requires from <= at <= |data|
    requires forall k :: from <= k < at && k + 3 <= |data| ==> !MatchesAt(data, k, GZIP_DEFLATE)
    requires found ==> at + 3 <= |data| && MatchesAt(data, at, GZIP_DEFLATE)
    requires !found ==> at == |data|
    ensures !found ==> !EndsInGzip(data, from)
    ensures found && at + 3 < |data| ==> EndsInGzip(data, from) == EndsInGzip(data, at + 1)
    ensures found && at + 3 == |data| ==> EndsInGzip(data, from)
  {
    hide MatchesAt;
  }

  /** std::search for the three magic bytes; `at` is the end of the data when there is no match. */
  method SearchGzip(data: bytes, from: nat) returns (at: nat, found: bool)
    requires from <= |data|
    ensures from <= at <= |data|
    ensures found ==> at + 3 <= |data| && MatchesAt(data, at, GZIP_DEFLATE)
    ensures !found ==> at == |data|
    ensures forall k :: from <= k < at && k + 3 <= |data| ==> !MatchesAt(data, k, GZIP_DEFLATE)
  {
    at := from;
    while at + 3 <= |data|
      invariant from <= at <= |data|
      invariant forall k :: from <= k < at && k + 3 <= |data| ==> !MatchesAt(data, k, GZIP_DEFLATE)
    {
      if MatchesAt(data, at, GZIP_DEFLATE) {
        return at, true;
      }
      at := at + 1;
    }
    return |data|, false;
  }

  /** Positions without the magic bytes do not change what FirstGzip finds. */
  lemma {:induction false} SkipNonMatches(data: bytes, from: nat, until: nat, flag: byte)
    requires from <= until <= |data|
    requires forall k :: from <= k < until && k + 3 <= |data| ==> !MatchesAt(data, k, GZIP_DEFLATE)
    ensures FirstGzip(data, from, flag) == FirstGzip(data, until, flag)
    decreases until - from
  {
    if from < until {
      SkipNonMatches(data, from + 1, until, flag);
    }
  }

  method OldFindRamdiskSize(data: bytes, ramdiskOffset: u32, pageSize: u32) returns (ramdiskSize: u32)
    requires |data| > OLD_FAKE_SIZE
    ensures ramdiskSize == OldRamdiskSize(data, ramdiskOffset, pageSize)
  {
    ramdiskSize := Wrap32(|data| - ramdiskOffset - OLD_FAKE_SIZE);
    var begin := |data| - OLD_FAKE_SIZE;
    if begin < pageSize {
      return 0xffff_ffff;
    }
    var i := begin;
    while i > begin - pageSize
      invariant begin - pageSize <= i <= begin
      invariant LastNonZero(data, begin, begin - pageSize) == LastNonZero(data, i, begin - pageSize)
    {
      if data[i] != 0 {
        return Wrap32(i - ramdiskOffset);
      }
      i := i - 1;
    }
  }

  method LoadOldImage(impl: Impl, data: bytes) returns (status: LoadStatus)
    requires LOKI_HEADER_END <= |data| < U32_LIMIT
    modifies impl`i10e
    ensures status == StatusOf(OldImage(old(impl.i10e), data))
    ensures status == LoadOk ==> impl.i10e == OldImage(old(impl.i10e), data).i10e
  {
    hide RamdiskAddress, GzipOffset, OldRamdiskSize, U32At;
    impl.i10e := impl.i10e.(tagsAddr := DEFAULT_BASE + DEFAULT_TAGS_OFFSET);
    var pageSize := impl.i10e.pageSize;
    if |data| < pageSize + 0x2c + 4 {
      return LoadFailed;
    }
    var kernelSize := U32At(data, pageSize + 0x2c);
    var gzip := OldFindGzipOffset(data, Wrap32(pageSize + kernelSize));
    if gzip == Beyond {
      return LoadUndefined;
    }
    if gzip.value == 0 {
      return LoadFailed;
    }
    var ramdiskSize := OldFindRamdiskSize(data, gzip.value, pageSize);
    var found := FindRamdiskAddress(data, U32At(data, LOKI_RAMDISK_ADDR), impl.i10e.kernelAddr);
    if found == Beyond {
      return LoadUndefined;
    }
    if found.value == 0 {
      return LoadFailed;
    }
    impl.i10e := impl.i10e.(hdrKernelSize := kernelSize, hdrRamdiskSize := ramdiskSize, ramdiskAddr := found.value);
    if pageSize + kernelSize > |data| || gzip.value + ramdiskSize > |data| {
      return LoadUndefined;
    }
    impl.i10e := impl.i10e.(kernelImage := data[pageSize..pageSize + kernelSize]);
    impl.i10e := impl.i10e.(ramdiskImage := data[gzip.value..gzip.value + ramdiskSize]);
    impl.i10e := impl.i10e.(secondImage := [], dtImage := []);
    status := LoadOk;
  }

  method LoadImage(impl: Impl, data: bytes) returns (status: LoadStatus)
    requires |data| < U32_LIMIT
    modifies impl`i10e
    ensures status == StatusOf(LoadedFrom(old(impl.i10e), data))
    ensures status == LoadOk ==> impl.i10e == LoadedFrom(old(impl.i10e), data).i10e
  {
    hide HeaderLoaded, NewImage, OldImage, U32At;
    var valid := IsValid(data);
    if valid != Valid {
      return LoadFailed;
    }
    var found, headerIndex := FindHeader(data, LOKI_RANGE);
    var ok := LoadHeader(impl, data, headerIndex);
    if !ok {
      HeaderLoadedOutcome(old(impl.i10e), data, headerIndex);
      return LoadFailed;
    }
    if |data| < LOKI_HEADER_END {
      return LoadUndefined;
    }
    if U32At(data, LOKI_KERNEL_SIZE) != 0 && U32At(data, LOKI_RAMDISK_SIZE) != 0 && U32At(data, LOKI_RAMDISK_ADDR) != 0 {
      status := LoadNewImage(impl, data);
    } else {
      status := LoadOldImage(impl, data);
    }
  }
}
