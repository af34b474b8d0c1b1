/** An Android image with a fixed signature appended. */
module BumpFormat {
  import opened Bytes
  import opened Intermediate
  import opened AndroidFormat

  const BUMP_MAGIC: bytes := [0x41, 0xa9, 0xe4, 0x67, 0x74, 0x4d, 0x1d, 0x1b,
                              0xa4, 0x29, 0xf2, 0xec, 0xea, 0x65, 0x52, 0x79]

  /**
   The end of the image whose header is h, found by walking over the four images;
   None when one of them does not fit. The page size in h need not be a valid one.
   */
  function EndOfImage(data: bytes, at: nat, h: Header): Option<u32>
    requires ValidHeader(h)
  {
    var p := h.words[PAGE_SIZE];
    var pos := Wrap32(Wrap32(at + HEADER_SIZE) + SkipPadding(HEADER_SIZE, p));
    if Wrap32(pos + h.words[KERNEL_SIZE]) > |data| then None
    else
      var pos1 := Advance(pos, h.words[KERNEL_SIZE], p);
      if Wrap32(pos1 + h.words[RAMDISK_SIZE]) > |data| then None
      else
        var pos2 := Advance(pos1, h.words[RAMDISK_SIZE], p);
        if Wrap32(pos2 + h.words[SECOND_SIZE]) > |data| then None
        else
          var pos3 := Advance(pos2, h.words[SECOND_SIZE], p);
          if Wrap32(pos3 + h.words[DT_SIZE]) > |data| then None
          else Some(Advance(pos3, h.words[DT_SIZE], p))
  }

  /** Whether the signature sits at the end of the image. */
  function SignatureAt(data: bytes, pos: u32): Verdict {
    if |data| < Wrap32(pos + |BUMP_MAGIC|) then Invalid
    else if |data| < pos + |BUMP_MAGIC| then Unknown
    else if MatchesAt(data, pos, BUMP_MAGIC) then Valid
    else Invalid
  }

  function Recognised(data: bytes): Verdict {
    match HeaderIndex(data, SEARCH_RANGE)
    case None => Invalid
    case Some(at) =>
      match EndOfImage(data, at, ReadHeader(data, at))
      case None => Invalid
      case Some(pos) => SignatureAt(data, pos)
  }

  function Created(f: I10e, sha1: Sha1): Option<bytes> {
    match AndroidFormat.Created(f, sha1)
    case None => None
    case Some(image) => Some(image + BUMP_MAGIC)
  }

  /** BumpPatcher::patchImage. */
  method PatchImage(data: ByteVector) returns (ok: bool)
    modifies data
    ensures ok && data.bytes == old(data.bytes) + BUMP_MAGIC
  {
    data.bytes := data.bytes + BUMP_MAGIC;
    ok := true;
  }

  method CreateImage(impl: Impl, sha1: Sha1, dataOut: ByteVector) returns (ok: bool)
    modifies dataOut
    ensures ok == Created(impl.i10e, sha1).Some?
    ensures dataOut.bytes == if ok then Created(impl.i10e, sha1).value else old(dataOut.bytes)
  {
    hide AndroidFormat.Created;
    var data := new ByteVector();
    ok := AndroidFormat.CreateImage(impl, sha1, data);
    if !ok {
      return false;
    }
    ok := PatchImage(data);
    if !ok {
      return false;
    }
    dataOut.bytes := data.bytes;
  }

  method IsValid(data: bytes) returns (v: Verdict)
    ensures v == Recognised(data)
  {
    hide SkipPadding, Advance, HeaderIndex, ReadHeader;
    var found, headerIndex := FindHeader(data, SEARCH_RANGE);
    if !found || |data| < headerIndex + HEADER_SIZE {
      return Invalid;
    }
    var hdr := ReadHeader(data, headerIndex);
    var pageSize := hdr.words[PAGE_SIZE];
    var pos: u32 := Wrap32(headerIndex + HEADER_SIZE);
    pos := Wrap32(pos + SkipPadding(HEADER_SIZE, pageSize));
    if Wrap32(pos + hdr.words[KERNEL_SIZE]) > |data| {
      return Invalid;
    }
    pos := Advance(pos, hdr.words[KERNEL_SIZE], pageSize);
    if Wrap32(pos + hdr.words[RAMDISK_SIZE]) > |data| {
      return Invalid;
    }
    pos := Advance(pos, hdr.words[RAMDISK_SIZE], pageSize);
    if Wrap32(pos + hdr.words[SECOND_SIZE]) > |data| {
      return Invalid;
    }
    pos := Advance(pos, hdr.words[SECOND_SIZE], pageSize);
    if Wrap32(pos + hdr.words[DT_SIZE]) > |data| {
      return Invalid;
    }
    pos := Advance(pos, hdr.words[DT_SIZE], pageSize);
    v := SignatureAt(data, pos);
  }

  /** The walk over an assembled image ends exactly where its bytes end, also behind a prefix. */
  lemma WalkBehind(h: Header, kernel: bytes, ramdisk: bytes, second: bytes, dt: bytes, pre: bytes, tail: bytes)
    requires ValidHeader(h) && ValidPageSize(h.words[PAGE_SIZE])
    requires |pre + (Assemble(h, kernel, ramdisk, second, dt) + tail)| < U32_LIMIT
    requires h.words[KERNEL_SIZE] == |kernel| && h.words[RAMDISK_SIZE] == |ramdisk|
    requires h.words[SECOND_SIZE] == |second| && h.words[DT_SIZE] == |dt|
    ensures EndOfImage(pre + (Assemble(h, kernel, ramdisk, second, dt) + tail), |pre|, h)
            == Some(|pre| + |Assemble(h, kernel, ramdisk, second, dt)|)
  {
    hide SkipPadding, CutImage, CutDeviceTree, Advance, Padded, Assemble, HeaderBytes;
    var p := h.words[PAGE_SIZE];
    HeaderPage(h, p);
    AssembleSegments(h, kernel, ramdisk, second, dt);
    var data := pre + (Assemble(h, kernel, ramdisk, second, dt) + tail);
    var page, k, r, s, d := Padded(HeaderBytes(h), p), Padded(kernel, p), Padded(ramdisk, p), Padded(second, p), Padded(dt, p);
    var s0 := pre + page;
    PartsBehind(pre, page, k, r, s, d, tail);
    CutPadded(data, s0, kernel, r + s + d + tail, p);
    CutPadded(data, s0 + k, ramdisk, s + d + tail, p);
    CutPadded(data, s0 + k + r, second, d + tail, p);
    CutPadded(data, s0 + k + r + s, dt, tail, p);
  }

  lemma WalkEndsAtTheEnd(h: Header, kernel: bytes, ramdisk: bytes, second: bytes, dt: bytes, tail: bytes)
    requires ValidHeader(h) && ValidPageSize(h.words[PAGE_SIZE])
    requires |Assemble(h, kernel, ramdisk, second, dt) + tail| < U32_LIMIT
    requires h.words[KERNEL_SIZE] == |kernel| && h.words[RAMDISK_SIZE] == |ramdisk|
    requires h.words[SECOND_SIZE] == |second| && h.words[DT_SIZE] == |dt|
    ensures EndOfImage(Assemble(h, kernel, ramdisk, second, dt) + tail, 0, h)
            == Some(|Assemble(h, kernel, ramdisk, second, dt)|)
  {
    hide EndOfImage, Assemble;
    var data := Assemble(h, kernel, ramdisk, second, dt) + tail;
    assert [] + data == data;
    WalkBehind(h, kernel, ramdisk, second, dt, [], tail);
  }

  /**
   The signature test on an assembled image followed by a tail, up to 512 bytes into a file: valid exactly when
   the tail begins with the signature. This is what separates Bump images from plain Android ones.
   */
  lemma RecognisedBehind(h: Header, kernel: bytes, ramdisk: bytes, second: bytes, dt: bytes, pre: bytes, tail: bytes)
    requires ValidHeader(h) && ValidPageSize(h.words[PAGE_SIZE]) && |pre| <= 512
    requires var data := pre + (Assemble(h, kernel, ramdisk, second, dt) + tail);
             |data| + 16 < U32_LIMIT && NoEarlierMagic(data, |pre|)
    requires h.words[KERNEL_SIZE] == |kernel| && h.words[RAMDISK_SIZE] == |ramdisk|
    requires h.words[SECOND_SIZE] == |second| && h.words[DT_SIZE] == |dt|
    ensures Recognised(pre + (Assemble(h, kernel, ramdisk, second, dt) + tail)) == if BUMP_MAGIC <= tail then Valid else Invalid
  {
    hide SkipPadding, EndOfImage, Padded, Assemble, HeaderBytes, HeaderIndex, ReadHeader, NoEarlierMagic;
    var p := h.words[PAGE_SIZE];
    var image := Assemble(h, kernel, ramdisk, second, dt);
    AssembleSegments(h, kernel, ramdisk, second, dt);
    var page, k, r, s, d := Padded(HeaderBytes(h), p), Padded(kernel, p), Padded(ramdisk, p), Padded(second, p), Padded(dt, p);
    PartsBehind(pre, page, k, r, s, d, tail);
    HeaderIsFound(pre, h, k + r + s + d + tail, SEARCH_RANGE);
    WalkBehind(h, kernel, ramdisk, second, dt, pre, tail);
    if |tail| >= |BUMP_MAGIC| {
      var n := |pre + image|;
      assert (pre + (image + tail))[n..n + |BUMP_MAGIC|] == tail[..|BUMP_MAGIC|];
    }
  }

  lemma RecognisedBySignature(h: Header, kernel: bytes, ramdisk: bytes, second: bytes, dt: bytes, tail: bytes)
    requires ValidHeader(h) && ValidPageSize(h.words[PAGE_SIZE])
    requires |Assemble(h, kernel, ramdisk, second, dt) + tail| + |BUMP_MAGIC| < U32_LIMIT
    requires h.words[KERNEL_SIZE] == |kernel| && h.words[RAMDISK_SIZE] == |ramdisk|
    requires h.words[SECOND_SIZE] == |second| && h.words[DT_SIZE] == |dt|
    ensures Recognised(Assemble(h, kernel, ramdisk, second, dt) + tail) == if BUMP_MAGIC <= tail then Valid else Invalid
  {
    hide Recognised, Assemble;
    var data := Assemble(h, kernel, ramdisk, second, dt) + tail;
    assert [] + data == data;
    RecognisedBehind(h, kernel, ramdisk, second, dt, [], tail);
  }

  /** The signature does not disturb loading: a created Bump image gives its fields back. */
  lemma RoundTrip(f: I10e, sha1: Sha1, base: I10e)
    requires ValidPageSize(f.pageSize) && SizesAgree(f)
    requires |Created(f, sha1).value| < U32_LIMIT
    ensures LoadedFrom(base, Created(f, sha1).value) == LoadedFrom(base, AndroidFormat.Created(f, sha1).value)
    ensures LoadedFrom(base, Created(f, sha1).value) == Loaded(Recovered(base, f, HeaderFor(f, sha1).id))
  {
    hide LoadedFrom, HeaderFor, Recovered, Assemble;
    AndroidFormat.RoundTrip(f, sha1, base, BUMP_MAGIC);
    AndroidFormat.RoundTrip(f, sha1, base, []);
    assert AndroidFormat.Created(f, sha1).value + [] == AndroidFormat.Created(f, sha1).value;
  }
}
