/** What stands at each offset of an MTK boot image, in the numbers of its layout. */
module MtkLayout {
  import opened Bytes
  import opened Intermediate
  import AndroidFormat
  import opened AndroidLayout
  import opened MtkFormat

  /** An image that passes for one behind an MTK header, whose size field says how long it is. */
  predicate Marked(image: bytes) {
    |image| >= 512 && image[..4] == [0x88, 0x16, 0x88, 0x58]
  }

  function SizeField(image: bytes): u32
    requires |image| >= 512
  {
    U32At(image, 4)
  }

  /** The header of a marked image as it is kept, without the size. */
  function KeptHeader(image: bytes): bytes
    requires |image| >= 512
  {
    image[..4] + [0, 0, 0, 0] + image[8..512]
  }

  lemma StripIs(image: bytes, exact: bool)
    ensures Strip(image, exact) ==
            (if !Marked(image) then Stripped(None, image)
             else if |image| < 512 + SizeField(image) || (exact && |image| != 512 + SizeField(image)) then SizeMismatch
             else Stripped(Some(KeptHeader(image)), image[512..]))
  {
    hide U32At;
    if |image| >= 512 {
      assert MatchesAt(image, 0, MTK_MAGIC) <==> image[..4] == [0x88, 0x16, 0x88, 0x58];
      ZeroSize(image);
    }
  }

  lemma ZeroSize(image: bytes)
    requires |image| >= 512
    ensures PutU32(image[..512], MTK_SIZE, 0) == KeptHeader(image)
  {
    assert U32Bytes(0) == [0, 0, 0, 0];
    assert image[..512][..4] == image[..4] && image[..512][8..] == image[8..512];
  }

  /**
   What loading makes of the two images: a kernel may be longer than its header says, a ramdisk may not, and
   neither may be shorter; the header goes to its own field and the rest stays as the image.
   */
  lemma HeadersComeOff(g: I10e)
    ensures var k, r := g.kernelImage, g.ramdiskImage;
            var tooShort := Marked(k) && |k| < 512 + SizeField(k);
            var mismatch := Marked(r) && |r| != 512 + SizeField(r);
            StrippedImages(g) ==
            (if tooShort || mismatch then Rejected
             else Loaded(g.(mtkKernelHdr := if Marked(k) then KeptHeader(k) else g.mtkKernelHdr,
                            kernelImage := if Marked(k) then k[512..] else k,
                            mtkRamdiskHdr := if Marked(r) then KeptHeader(r) else g.mtkRamdiskHdr,
                            ramdiskImage := if Marked(r) then r[512..] else r)))
  {
    hide Strip, KeptHeader, SizeField;
    StripIs(g.kernelImage, false);
    StripIs(g.ramdiskImage, true);
  }

  /** An image behind its header with its size at offset 4, or by itself. */
  function Behind(hdr: bytes, image: bytes): bytes {
    if |hdr| != 512 then image else hdr[..4] + U32Bytes(Wrap32(|image|)) + hdr[8..] + image
  }

  lemma WrappedIs(hdr: bytes, image: bytes)
    requires hdr == [] || |hdr| == 512
    ensures Wrapped(hdr, image) == Behind(hdr, image)
  {
    hide U32Bytes;
  }

  /** A created image: sizes with the headers, the hash over the images with them, and the pages. */
  lemma CreatedOffsets(f: I10e, sha1: AndroidFormat.Sha1)
    requires MtkFormat.Created(f, sha1).Some? && |MtkFormat.Created(f, sha1).value| < U32_LIMIT
    ensures f.mtkKernelHdr == [] || |f.mtkKernelHdr| == 512
    ensures f.mtkRamdiskHdr == [] || |f.mtkRamdiskHdr| == 512
    ensures ValidPageSize(f.pageSize)
    ensures var data := MtkFormat.Created(f, sha1).value;
            var k, r := Behind(f.mtkKernelHdr, f.kernelImage), Behind(f.mtkRamdiskHdr, f.ramdiskImage);
            var hashed := k + U32Bytes(Wrap32(|k|)) + r + U32Bytes(Wrap32(|r|)) + f.secondImage + U32Bytes(f.hdrSecondSize)
                          + (if f.dtImage == [] then [] else f.dtImage + U32Bytes(f.hdrDtSize));
            && HeaderAt(data, f, Wrap32(|k|), Wrap32(|r|), sha1(hashed))
            && ImagesAt(data, f.pageSize, k, r, f.secondImage, f.dtImage)
  {
    hide AndroidFormat.Assemble, AndroidFormat.HeaderBytes, U32Bytes, HeaderAt, ImagesAt, AndroidFormat.StringField, Wrapped, Behind, ValidPageSize;
    WrappedIs(f.mtkKernelHdr, f.kernelImage);
    WrappedIs(f.mtkRamdiskHdr, f.ramdiskImage);
    var k, r := Wrapped(f.mtkKernelHdr, f.kernelImage), Wrapped(f.mtkRamdiskHdr, f.ramdiskImage);
    var h := MtkHeaderFor(f, k, r, sha1);
    AssembledStands(h, k, r, f.secondImage, f.dtImage);
    var data := MtkFormat.Created(f, sha1).value;
    var digest := sha1(AndroidFormat.HashInput(k, Wrap32(|k|), r, Wrap32(|r|), f));
    HeaderOfStands(f, Wrap32(|k|), Wrap32(|r|), digest, data[608..]);
  }
}
