/** The in-memory boot image that every format loads into and creates from. */
module Intermediate {
  import opened Bytes

  /** BootImageIntermediate; strings are byte strings. */
  datatype I10e = I10e(
    kernelAddr: u32,
    ramdiskAddr: u32,
    secondAddr: u32,
    tagsAddr: u32,
    iplAddr: u32,
    rpmAddr: u32,
    appsblAddr: u32,
    pageSize: u32,
    boardName: bytes,
    cmdline: bytes,
    kernelImage: bytes,
    ramdiskImage: bytes,
    secondImage: bytes,
    dtImage: bytes,
    abootImage: bytes,
    mtkKernelHdr: bytes,
    mtkRamdiskHdr: bytes,
    iplImage: bytes,
    rpmImage: bytes,
    appsblImage: bytes,
    sonySinImage: bytes,
    sonySinHdr: bytes,
    hdrKernelSize: u32,
    hdrRamdiskSize: u32,
    hdrSecondSize: u32,
    hdrDtSize: u32,
    hdrUnused: u32,
    hdrId: bytes,
    hdrEntrypoint: u32)

  const HDR_ID_SIZE := 32

  function Fresh(): I10e {
    I10e(0, 0, 0, 0, 0, 0, 0, 0, [], [], [], [], [], [], [], [], [], [], [], [], [], [],
           0, 0, 0, 0, 0, Zeros(HDR_ID_SIZE), 0)
  }

  /** The size fields agree with the images, as the setters keep them. */
  predicate SizesAgree(f: I10e) {
    && f.hdrKernelSize == Wrap32(|f.kernelImage|)
    && f.hdrRamdiskSize == Wrap32(|f.ramdiskImage|)
    && f.hdrSecondSize == Wrap32(|f.secondImage|)
    && f.hdrDtSize == Wrap32(|f.dtImage|)
  }

  /** How a load ended. `OutOfBounds` marks a read past the input, which C++ leaves undefined. */
  datatype Load = Loaded(i10e: I10e) | Rejected | OutOfBounds

  datatype LoadStatus = LoadOk | LoadFailed | LoadUndefined

  function StatusOf(l: Load): LoadStatus {
    match l
    case Loaded(_) => LoadOk
    case Rejected => LoadFailed
    case OutOfBounds => LoadUndefined
  }

  /** The answer of a format test; `Unknown` again marks a read past the input. */
  datatype Verdict = Valid | Invalid | Unknown

  /** The formats a boot image can be loaded from and created as. */
  datatype Type = Android | Bump | Loki | Mtk | SonyElf

  /** The state behind a BootImage; the formats hold a pointer to its i10e member. */
  class Impl {
    var i10e: I10e
    var targetType: Type
    var sourceType: Type
    var failed: bool

    constructor ()
      ensures i10e == Fresh() && targetType == Android && !failed
    {
      i10e := Fresh();
      targetType := Android;
      sourceType := Android;
      failed := false;
    }
  }
}
