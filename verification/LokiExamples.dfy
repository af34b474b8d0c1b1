/** Loki images that do not come back as they were. */
module LokiExamples {
  import opened Bytes
  import opened Intermediate
  import opened AndroidFormat
  import opened LokiPatcher
  import LokiFormat
  import opened LokiPage
  import opened LokiRoundTrip

  /** A bootloader of the LG Viper as far as the patcher looks at it: the load address, and the signature check at 16. */
  function ViperAboot(): (r: bytes)
    ensures |r| == 0x2000
  {
    Zeros(12) + U32Bytes(VIPER - 16 + 0x28) + PATTERN1 + Zeros(0x1fe8)
  }

  lemma ViperAbootBytes()
    ensures var a := ViperAboot();
            && U32At(a, 12) == VIPER - 16 + 0x28 && MatchesAt(a, 16, PATTERN1)
            && (forall k :: 0 <= k < 16 ==> a[k] != 0xf0 && a[k] != 0x2d)
            && (forall k :: 24 <= k < 0x2000 ==> a[k] == 0)
  {
    hide U32At, U32Bytes;
    var a, word := ViperAboot(), U32Bytes(VIPER - 16 + 0x28);
    assert a[12..16] == word && a[16..24] == PATTERN1;
    U32RoundTrip(VIPER - 16 + 0x28);
    assert word == word[0..4];
    U32AtSlice(a, 12, word, 0);
    assert forall k :: 12 <= k < 16 ==> a[k] == word[k - 12];
    ViperWord();
  }

  lemma ViperWord()
    ensures U32Bytes(VIPER - 16 + 0x28) == [0x30, 0xfe, 0x10, 0x40]
  {
  }

  lemma ViperFirstPass()
    ensures FirstPass(ViperAboot(), 0, 0x1000) == Some(16)
  {
    hide U32At, ViperAboot, FirstPass;
    var a := ViperAboot();
    ViperAbootBytes();
    forall k | 0 <= k < 16 ensures !FirstPassMatch(a, k) {
      NoPatternAt(a, k);
    }
    assert FirstPassMatch(a, 16);
  }

  /** The bootloader is recognised. */
  lemma ViperIsFound()
    ensures TargetOf(ViperAboot()).Some? && TargetOf(ViperAboot()).value.checkSigs == VIPER
    ensures TargetOf(ViperAboot()).value in Targets()
    ensures AbootBase(ViperAboot()) == VIPER - 16
    ensures WholePages(|ViperAboot()|) == 0x2000 && Resize(ViperAboot(), 0x2000) == ViperAboot()
  {
    hide U32At, Targets, ViperAboot, FirstPass, FindTarget;
    var a := ViperAboot();
    ViperAbootBytes();
    ViperFirstPass();
    assert WholePages(0x2000) == 0x2000 && Resize(a, 0x2000) == a;
    assert FindCheckSigs(a) == VIPER;
    ViperInTable();
  }

  lemma NoPatternAt(a: bytes, k: nat)
    requires k + 8 <= |a| && a[k] != 0xf0 && a[k] != 0x2d
    ensures !FirstPassMatch(a, k)
  {
    assert a[k..k + 8][0] == a[k];
  }

  lemma ViperInTable()
    ensures FindTarget(Targets(), VIPER).Some?
  {
    hide Targets0, Targets1, Targets2, FindTarget;
    var t := Targets3();
    assert t[9] in t && t[9].checkSigs == VIPER;
    assert t[9] in Targets();
  }

  /** The same bootloader with the pattern of the second pass in it, too. */
  function ViperAbootWithBoth(): (r: bytes)
    ensures |r| == 0x2000
  {
    Zeros(12) + U32Bytes(VIPER - 16 + 0x28) + PATTERN1 + Zeros(0xe8) + PATTERN6 + Zeros(0x1ef8)
  }

  lemma BytesWithBoth()
    ensures var a := ViperAbootWithBoth();
            && U32At(a, 12) == VIPER - 16 + 0x28 && IsFirstSig(a, 16) && IsSecondSig(a, 0x100)
            && (forall k :: 0 <= k < 16 ==> a[k] != 0xf0 && a[k] != 0x2d)
  {
    hide U32At, U32Bytes;
    var a, word := ViperAbootWithBoth(), U32Bytes(VIPER - 16 + 0x28);
    assert a[12..16] == word && a[16..24] == PATTERN1 && a[0x100..0x108] == PATTERN6;
    U32RoundTrip(VIPER - 16 + 0x28);
    assert word == word[0..4];
    U32AtSlice(a, 12, word, 0);
    assert forall k :: 12 <= k < 16 ==> a[k] == word[k - 12];
    ViperWord();
  }

  lemma NoSigAt(a: bytes, k: nat)
    requires k + 8 <= |a| && a[k] != 0xf0 && a[k] != 0x2d
    ensures !IsFirstSig(a, k)
  {
    assert a[k..k + 8][0] == a[k];
  }

  /** The patterns of the first pass win although the other one gives an unknown address. */
  lemma FirstPatternWins()
    ensures TargetOf(ViperAbootWithBoth()).Some? && TargetOf(ViperAbootWithBoth()).value.checkSigs == VIPER
    ensures IsSecondSig(ViperAbootWithBoth(), 0x100) && AddressIn(ViperAbootWithBoth(), 0x100) != VIPER
  {
    hide U32At, Targets, FindTarget, ViperAbootWithBoth, IsFirstSig, IsSecondSig, TargetOf;
    var a := ViperAbootWithBoth();
    BytesWithBoth();
    forall k | 0 <= k < 16 ensures !IsFirstSig(a, k) {
      NoSigAt(a, k);
    }
    assert LeastFirstSig(a, 16) && AddressIn(a, 16) == VIPER;
    assert a + Zeros(0) == a;
    TargetIsNamed(a, VIPER);
    ViperIsListed();
  }

  lemma ViperIsListed()
    ensures exists t :: t in Targets() && t.checkSigs == VIPER
  {
    hide Targets0, Targets1, Targets2;
    var t := Targets3()[9];
    assert t in Targets3() && t.checkSigs == VIPER;
    assert t in Targets();
  }

  /** A kernel, a one-byte ramdisk and up to two more images for that bootloader. */
  function ViperImage(cmdline: bytes, kernel: bytes, second: bytes, dt: bytes): I10e {
    Fresh().(pageSize := 2048, ramdiskAddr := 1, cmdline := cmdline, kernelImage := kernel, ramdiskImage := [1], secondImage := second,
             dtImage := dt, abootImage := ViperAboot(), hdrKernelSize := Wrap32(|kernel|), hdrRamdiskSize := 1,
             hdrSecondSize := Wrap32(|second|), hdrDtSize := Wrap32(|dt|))
  }

  lemma ViperImageIsCreated(cmdline: bytes, kernel: bytes, second: bytes, dt: bytes, sha1: Sha1) returns (out: bytes)
    requires 1 <= |kernel| <= 2048 && |second| <= 1 && |dt| <= 1
    ensures var f := ViperImage(cmdline, kernel, second, dt);
            && Patchable(f) && LoadsAsNew(f) && LokiFormat.Created(f, sha1) == Patched(out)
            && |out| < U32_LIMIT
            && TargetOf(f.abootImage).Some? && TargetOf(f.abootImage).value.checkSigs == VIPER
    ensures var f := ViperImage(cmdline, kernel, second, dt);
            var code := BootloaderCode(f, TargetOf(f.abootImage).value);
            |code| == 2048 && code[0x200] == 0
  {
    hide U32At, Targets, ViperAboot, FirstPass, FindTarget, Align, SkipPadding, LokiFormat.Created, TargetOf, AbootBase,
         ValidPageSize, Padded, Joined, Overwrite, WrittenDeviceTree, HeaderFor, PatchedWords;
    var f := ViperImage(cmdline, kernel, second, dt);
    assert ValidPageSize(2048) by { SmallPages(); }
    ViperIsFound();
    ViperAbootBytes();
    AlignIsPadding(|kernel|, 2048);
    PaddedIsPageAligned(kernel, 2048);
    OnePage(|kernel|);
    OnePage(1);
    AlignIsPadding(1, 2048);
    var tgt := TargetOf(f.abootImage).value;
    ViperTarget(tgt);
    CreatedExactly(f, sha1);
    out := LokiFormat.Created(f, sha1).image;
    var d, t, code := PatchedLayout(f, sha1, out);
    PaddedIsPageAligned([1], 2048);
    OutputSize(d[..2048], Padded(kernel, 2048), Padded([1], 2048), code, SigOffset(tgt), Shellcode(tgt.hdr, f.ramdiskAddr), WrittenDeviceTree(f));
  }

  /** Up to a page, an image takes one page. */
  lemma OnePage(n: nat)
    requires 1 <= n <= 2048
    ensures ValidPageSize(2048) && n + SkipPadding(n, 2048) == 2048
  {
    hide SkipPadding;
    SkipPaddingReachesBoundary(n, 2048);
  }

  lemma SmallPages()
    ensures ValidPageSize(2048)
  {
  }

  lemma ViperTarget(t: LokiTarget)
    requires t.checkSigs == VIPER && t in Targets()
    ensures FakeSize(t, 2048) == 2048 && SigOffset(t) == 8
  {
    hide Targets;
    GuessIsRightButForViper(t, 2048);
  }

  lemma OutputSize(page: bytes, k: bytes, r: bytes, code: bytes, at: nat, patch: bytes, dt: bytes)
    requires at + |patch| <= |code|
    ensures |Joined(page, k, r, Overwrite(code, at, patch), dt)| == |page| + |k| + |r| + |code| + |dt|
  {
  }

  /** A device tree of one byte comes back as a zero from the bootloader code. */
  lemma ViperLoses(sha1: Sha1) returns (out: bytes)
    ensures var f := ViperImage([], [1], [], [1]);
            && LokiFormat.Created(f, sha1) == Patched(out) && |out| < U32_LIMIT
            && LokiFormat.LoadedFrom(Fresh(), out) != Loaded(Recovered(Fresh(), f, HeaderFor(f, sha1).id))
  {
    hide U32At, Targets, ViperAboot, Align, SkipPadding, LokiFormat.Created, TargetOf, LokiFormat.LoadedFrom, HeaderFor,
         Patchable, LoadsAsNew, BootloaderCode, Recovered, FirstCopy, Fresh;
    out := ViperImageIsCreated([], [1], [], [1], sha1);
    var f := ViperImage([], [1], [], [1]);
    var code := BootloaderCode(f, TargetOf(f.abootImage).value);
    assert (code[0x200..] + [1])[..1][0] == code[0x200];
    RoundTripExactly(f, sha1, Fresh(), out);
  }

  /** A second bootloader image is accepted and lost. */
  lemma SecondImageLoses(sha1: Sha1) returns (out: bytes)
    ensures var f := ViperImage([], [1], [1], []);
            && LokiFormat.Created(f, sha1) == Patched(out) && |out| < U32_LIMIT
            && LokiFormat.LoadedFrom(Fresh(), out) != Loaded(Recovered(Fresh(), f, HeaderFor(f, sha1).id))
  {
    hide U32At, Targets, ViperAboot, Align, SkipPadding, LokiFormat.Created, TargetOf, LokiFormat.LoadedFrom, HeaderFor,
         Patchable, LoadsAsNew, BootloaderCode, Recovered, FirstCopy, Fresh, ViperReadsDeviceTree;
    out := ViperImageIsCreated([], [1], [1], [], sha1);
    RoundTripExactly(ViperImage([], [1], [1], []), sha1, Fresh(), out);
  }

  /** A kernel that holds a copy of the shellcode's code, followed by zeros. */
  function KernelWithShellcode(): (r: bytes)
    ensures |r| == 64 && r[..PREFIX_SIZE] == ShellcodePrefix() && U32At(r, 60) == 0
  {
    ShellcodePrefix() + Zeros(8)
  }

  /** The loader takes the kernel for the shellcode, finds a zero for the ramdisk address and refuses the image. */
  lemma ShellcodeInKernelLoses(sha1: Sha1) returns (out: bytes)
    ensures var f := ViperImage([], KernelWithShellcode(), [], []);
            && LokiFormat.Created(f, sha1) == Patched(out) && |out| < U32_LIMIT
            && LokiFormat.LoadedFrom(Fresh(), out) == Rejected
  {
    hide U32At, Targets, ViperAboot, Align, SkipPadding, LokiFormat.Created, TargetOf, LokiFormat.LoadedFrom, HeaderFor,
         Patchable, LoadsAsNew, BootloaderCode, Recovered, KernelWithShellcode, WordFound, ShellcodePrefix;
    out := ViperImageIsCreated([], KernelWithShellcode(), [], [], sha1);
    var f := ViperImage([], KernelWithShellcode(), [], []);
    RamdiskAddressSurvives(f, sha1, Fresh(), out);
    KernelWordFound(f, sha1, TargetOf(f.abootImage).value);
    DeviceTreeRead(f, sha1, Fresh(), out);
  }

  // ---------------------------------------------------------------------------
  // The seam between command line and hash
  // ---------------------------------------------------------------------------

  /** A command line that fills its field and ends like the shellcode's code up to its zero byte. */
  function SeamCmdline(): (r: bytes)
    ensures |r| == 511 && 0 !in r && r[459..] == ShellcodePrefix()[..52]
  {
    PrefixHasOneZero();
    seq(459, _ => 0x78) + ShellcodePrefix()[..52]
  }

  lemma PrefixHasOneZero()
    ensures 0 !in ShellcodePrefix()[..52]
  {
    hide ShellcodePrefix;
    forall i | 0 <= i < 52 ensures ShellcodePrefix()[..52][i] != 0 {
      PrefixBytes(i);
    }
  }

  /** A hash whose digests go on with the rest of that code and are zero behind it. */
  function SeamHash(s: bytes): Digest {
    ShellcodePrefix()[53..] + Zeros(17)
  }

  lemma SeamIsThere(f: I10e)
    requires f.cmdline == SeamCmdline()
    ensures SeamCopy(HeaderFor(f, SeamHash)) && U32At(HeaderFor(f, SeamHash).id, 7) == 0
  {
    hide ShellcodePrefix, WordsBytes, SeamCmdline, StringField;
    var h := HeaderFor(f, SeamHash);
    var prefix := ShellcodePrefix();
    FieldIsWhole(f.cmdline);
    PrefixBytes(52);
    var b := HeaderBytes(h);
    assert b[64..576] == h.cmdline && b[576..608] == h.id;
    assert b[523..575] == b[64..576][459..511] == f.cmdline[459..] == prefix[..52];
    assert b[575] == b[64..576][511] == 0;
    assert b[576..579] == b[576..608][..3] == prefix[53..];
    assert b[523..579] == b[523..575] + [b[575]] + b[576..579];
    assert prefix == prefix[..52] + [prefix[52]] + prefix[53..];
  }

  lemma FieldIsWhole(s: bytes)
    requires |s| == 511 && 0 !in s
    ensures StringField(s, BOOT_ARGS_SIZE) == s + [0]
  {
    hide CString;
    TruncatedIsIdentity(s, BOOT_ARGS_SIZE);
    assert s[..511] == s;
  }

  /** With such a hash, the loader takes command line and hash for the shellcode. */
  lemma SeamLoses() returns (out: bytes)
    ensures var f := ViperImage(SeamCmdline(), [1], [], []);
            && LokiFormat.Created(f, SeamHash) == Patched(out) && |out| < U32_LIMIT
            && LokiFormat.LoadedFrom(Fresh(), out) == Rejected
  {
    hide U32At, Targets, ViperAboot, Align, SkipPadding, LokiFormat.Created, TargetOf, LokiFormat.LoadedFrom, HeaderFor,
         Patchable, LoadsAsNew, BootloaderCode, Recovered, SeamCmdline, ShellcodePrefix, SeamCopy, SeamHash;
    out := ViperImageIsCreated(SeamCmdline(), [1], [], [], SeamHash);
    var f := ViperImage(SeamCmdline(), [1], [], []);
    SeamIsThere(f);
    DeviceTreeRead(f, SeamHash, Fresh(), out);
  }
}
