/** The header page of a patched image holds no copy of the shellcode, but for one seam between command line and hash. */
module LokiPage {
  import opened Bytes
  import opened Intermediate
  import opened AndroidFormat
  import opened LokiPatcher

  // ---------------------------------------------------------------------------
  // The bytes of a patched page
  // ---------------------------------------------------------------------------

  /** The longest build name of the table. */
  const BUILD_LIMIT := 44

  predicate AllZero(s: bytes, from: nat, until: nat) {
    forall i :: from <= i < until && i < |s| ==> s[i] == 0
  }

  /** Zeros around the Loki header and inside it. */
  predicate QuietBytes(d: bytes, p: nat) {
    && AllZero(d, HEADER_SIZE, LOKI_HEADER)
    && AllZero(d, LOKI_RECOVERY, LOKI_BUILD)
    && AllZero(d, LOKI_BUILD + BUILD_LIMIT, LOKI_KERNEL_SIZE)
    && AllZero(d, LOKI_HEADER_END, p)
  }

  lemma ShortBuilds0(t: LokiTarget)
    requires t in Targets0()
    ensures |t.build| <= BUILD_LIMIT
  {
  }

  lemma ShortBuilds1(t: LokiTarget)
    requires t in Targets1()
    ensures |t.build| <= BUILD_LIMIT
  {
  }

  lemma ShortBuilds2(t: LokiTarget)
    requires t in Targets2()
    ensures |t.build| <= BUILD_LIMIT
  {
  }

  lemma ShortBuilds3(t: LokiTarget)
    requires t in Targets3()
    ensures |t.build| <= BUILD_LIMIT
  {
  }

  lemma ShortBuilds(t: LokiTarget)
    requires t in Targets()
    ensures |t.build| <= BUILD_LIMIT
  {
    hide Targets0, Targets1, Targets2, Targets3;
    if t in Targets0() {
      ShortBuilds0(t);
    } else if t in Targets1() {
      ShortBuilds1(t);
    } else if t in Targets2() {
      ShortBuilds2(t);
    } else {
      ShortBuilds3(t);
    }
  }

  lemma ByteOfOverwrite(s: bytes, at: nat, patch: bytes, i: nat)
    requires at + |patch| <= |s| && i < |s|
    ensures Overwrite(s, at, patch)[i] == if at <= i < at + |patch| then patch[i - at] else s[i]
  {
  }

  /** Where the Loki header does not write, the page stays; the rest of the build field and the recovery word are zero. */
  lemma QuietLokiHeader(data: bytes, tgt: LokiTarget, i: nat)
    requires |data| >= LOKI_HEADER_END && i < |data| && |tgt.build| <= BUILD_LIMIT
    ensures var d := WithLokiHeader(data, tgt)[i];
            && (i < LOKI_HEADER || LOKI_HEADER_END <= i || i == LOKI_KERNEL_SIZE - 1 ==> d == data[i])
            && (LOKI_RECOVERY <= i < LOKI_BUILD || LOKI_BUILD + BUILD_LIMIT <= i < LOKI_KERNEL_SIZE - 1 ==> d == 0)
  {
    hide ReadHeader, Overwrite, U32Bytes, Resize, BuildBytes, Align, Wrap32;
    var h := ReadHeader(data, 0);
    var build := Resize(BuildBytes(tgt.build), BUILD_SIZE - 1);
    var a := Overwrite(data, LOKI_HEADER, LOKI_MAGIC);
    var b := PutU32(a, LOKI_RECOVERY, 0);
    var c := Overwrite(b, LOKI_BUILD, build);
    var d := PutU32(c, LOKI_KERNEL_SIZE, h.words[KERNEL_SIZE]);
    var e := PutU32(d, LOKI_RAMDISK_SIZE, h.words[RAMDISK_SIZE]);
    var w := Wrap32(h.words[KERNEL_ADDR] + Align(h.words[KERNEL_SIZE], h.words[PAGE_SIZE]));
    ByteOfOverwrite(data, LOKI_HEADER, LOKI_MAGIC, i);
    ByteOfOverwrite(a, LOKI_RECOVERY, U32Bytes(0), i);
    ByteOfOverwrite(b, LOKI_BUILD, build, i);
    ByteOfOverwrite(c, LOKI_KERNEL_SIZE, U32Bytes(h.words[KERNEL_SIZE]), i);
    ByteOfOverwrite(d, LOKI_RAMDISK_SIZE, U32Bytes(h.words[RAMDISK_SIZE]), i);
    ByteOfOverwrite(e, LOKI_RAMDISK_ADDR, U32Bytes(w), i);
    ZeroWord();
    if LOKI_BUILD + BUILD_LIMIT <= i < LOKI_KERNEL_SIZE - 1 {
      BuildTail(tgt.build, i - LOKI_BUILD);
    }
  }

  lemma ZeroWord()
    ensures U32Bytes(0) == [0, 0, 0, 0]
  {
  }

  lemma BuildTail(build: string, i: nat)
    requires |build| <= BUILD_LIMIT <= i < BUILD_SIZE - 1
    ensures Resize(BuildBytes(build), BUILD_SIZE - 1)[i] == 0
  {
  }

  /** Redirecting the header words changes the Android header only. */
  lemma RedirectedByte(data: bytes, h: Header, tgt: LokiTarget, i: nat)
    requires |data| >= LOKI_HEADER_END && ValidHeader(h) && HEADER_SIZE <= i < |data|
    ensures WithFakeSizes(data, h, tgt)[i] == data[i]
  {
    hide Overwrite, U32Bytes, Align, Wrap32;
    var x := Wrap32(Align(h.words[KERNEL_SIZE], h.words[PAGE_SIZE]) + h.words[RAMDISK_SIZE]);
    var y: u32 := tgt.checkSigs - SigOffset(tgt);
    var z := if tgt.lg then h.words[PAGE_SIZE] else 0;
    var a := PutU32(data, WordAt(KERNEL_SIZE), x);
    var b := PutU32(a, WordAt(RAMDISK_ADDR), y);
    ByteOfOverwrite(data, WordAt(KERNEL_SIZE), U32Bytes(x), i);
    ByteOfOverwrite(a, WordAt(RAMDISK_ADDR), U32Bytes(y), i);
    ByteOfOverwrite(b, WordAt(RAMDISK_SIZE), U32Bytes(z), i);
  }

  lemma QuietByte(data: bytes, tgt: LokiTarget, i: nat)
    requires |data| >= LOKI_HEADER_END && HEADER_SIZE <= i < |data| && |tgt.build| <= BUILD_LIMIT && data[i] == 0
    requires i < LOKI_HEADER || LOKI_RECOVERY <= i < LOKI_BUILD || LOKI_BUILD + BUILD_LIMIT <= i < LOKI_KERNEL_SIZE || LOKI_HEADER_END <= i
    ensures PatchedHeader(data, tgt)[i] == 0
  {
    hide WithLokiHeader, WithFakeSizes, ReadHeader;
    QuietLokiHeader(data, tgt, i);
    RedirectedByte(WithLokiHeader(data, tgt), ReadHeader(data, 0), tgt, i);
  }

  /** The patch writes no more than it has to into the zeros behind the Android header. */
  lemma QuietPage(data: bytes, tgt: LokiTarget, p: nat)
    requires |data| >= LOKI_HEADER_END && LOKI_HEADER_END <= p && tgt in Targets() && AllZero(data, HEADER_SIZE, p)
    ensures QuietBytes(PatchedHeader(data, tgt), p)
  {
    hide Targets, PatchedHeader;
    ShortBuilds(tgt);
    var d := PatchedHeader(data, tgt);
    forall i | HEADER_SIZE <= i < p && i < |d|
            && (i < LOKI_HEADER || LOKI_RECOVERY <= i < LOKI_BUILD || LOKI_BUILD + BUILD_LIMIT <= i < LOKI_KERNEL_SIZE || LOKI_HEADER_END <= i)
      ensures d[i] == 0
    {
      QuietByte(data, tgt, i);
    }
  }

  /** What a created image keeps of its header in its first page, and what the patch makes of the rest. */
  predicate IsPatchedPage(out: bytes, h: Header, p: nat)
    requires ValidHeader(h)
  {
    && ValidPageSize(p) && p <= |out|
    && out[36] == 0
    && out[48..64] == h.name && out[64..576] == h.cmdline && out[576..608] == h.id
    && out[LOKI_HEADER..LOKI_HEADER + 4] == LOKI_MAGIC
    && QuietBytes(out, p)
  }

  lemma PageIsPatched(d: bytes, h: Header, tgt: LokiTarget, p: nat)
    requires ValidHeader(h) && ValidPageSize(p) && p <= |d| && h.words[PAGE_SIZE] == p
    requires PatchedWords(d, h, tgt) && QuietBytes(d, p)
    ensures IsPatchedPage(d, h, p)
  {
    hide QuietBytes, PatchedWords, U32At;
    FieldsKept(d, h, tgt);
    PageSizeByte(d, 36);
  }

  lemma FieldsKept(d: bytes, h: Header, tgt: LokiTarget)
    requires |d| >= LOKI_HEADER_END && ValidHeader(h) && PatchedWords(d, h, tgt)
    ensures U32At(d, 36) == h.words[PAGE_SIZE]
    ensures d[48..64] == h.name && d[64..576] == h.cmdline && d[576..608] == h.id
    ensures d[LOKI_HEADER..LOKI_HEADER + 4] == LOKI_MAGIC
  {
    hide U32At, SigOffset, Align;
    var g := ReadHeader(d, 0);
    assert g.words[PAGE_SIZE] == U32At(d, 36);
  }

  lemma PageSizeByte(d: bytes, at: nat)
    requires at + 4 <= |d| && ValidPageSize(U32At(d, at))
    ensures d[at] == 0
  {
    DigitsOfWord(d[at], d[at + 1], d[at + 2], d[at + 3]);
  }

  lemma PageKept(d: bytes, h: Header, p: nat, rest: bytes)
    requires ValidHeader(h) && IsPatchedPage(d, h, p)
    ensures IsPatchedPage(d[..p] + rest, h, p)
  {
    var out := d[..p] + rest;
    assert forall i :: 0 <= i < p ==> out[i] == d[i];
    SliceOfPage(d, p, rest);
  }

  // ---------------------------------------------------------------------------
  // Copies of the shellcode
  // ---------------------------------------------------------------------------

  /** The only place in the page where the shellcode's zero byte can meet the end of the command line. */
  const SEAM := 523

  /** The command line fills its field with the shellcode's start, and the hash goes on with its end. */
  predicate SeamCopy(h: Header)
    requires ValidHeader(h)
  {
    MatchesAt(HeaderBytes(h), SEAM, ShellcodePrefix())
  }

  lemma PrefixBytes(i: nat)
    requires i < PREFIX_SIZE
    ensures ShellcodePrefix()[i] == 0 <==> i == 52
    ensures ShellcodePrefix()[0] == 0xfe
  {
  }

  lemma CopyBytes(out: bytes, k: nat, i: nat)
    requires k + PREFIX_SIZE <= |out| && MatchesAt(out, k, ShellcodePrefix()) && k <= i < k + PREFIX_SIZE
    ensures out[i] == 0 <==> i == k + 52
    ensures out[k] == 0xfe
  {
    hide ShellcodePrefix;
    PrefixBytes(i - k);
    var cut := out[k..k + PREFIX_SIZE];
    assert out[i] == cut[i - k] && out[k] == cut[0];
  }

  /** A string field is zero from its first NUL on, and its last byte always is one. */
  lemma FieldTail(s: bytes, size: nat, i: nat, j: nat)
    requires i <= j < size && (StringField(s, size)[i] == 0 || j == size - 1)
    ensures StringField(s, size)[j] == 0
  {
  }

  lemma FieldBytes(out: bytes, h: Header, p: nat, i: nat)
    requires ValidHeader(h) && IsPatchedPage(out, h, p)
    ensures 48 <= i < 64 ==> out[i] == h.name[i - 48]
    ensures 64 <= i < 576 ==> out[i] == h.cmdline[i - 64]
    ensures 576 <= i < 608 ==> out[i] == h.id[i - 576]
    ensures LOKI_HEADER <= i < LOKI_HEADER + 4 ==> out[i] == LOKI_MAGIC[i - LOKI_HEADER]
  {
    hide QuietBytes;
    if 48 <= i < 64 {
      assert out[i] == out[48..64][i - 48];
    } else if 64 <= i < 576 {
      assert out[i] == out[64..576][i - 64];
    } else if 576 <= i < 608 {
      assert out[i] == out[576..608][i - 576];
    } else if LOKI_HEADER <= i < LOKI_HEADER + 4 {
      assert out[i] == out[LOKI_HEADER..LOKI_HEADER + 4][i - LOKI_HEADER];
    }
  }

  lemma NoCopyBeforeFields(out: bytes, h: Header, p: nat, k: nat, name: bytes)
    requires ValidHeader(h) && IsPatchedPage(out, h, p) && h.name == StringField(name, BOOT_NAME_SIZE)
    requires k < 64
    ensures !MatchesAt(out, k, ShellcodePrefix())
  {
    hide MatchesAt, QuietBytes, StringField;
    FieldTail(name, BOOT_NAME_SIZE, 15, 15);
    FieldBytes(out, h, p, 63);
    if MatchesAt(out, k, ShellcodePrefix()) {
      CopyBytes(out, k, if k <= 36 then 36 else 63);
      assert false;
    }
  }

  /** Between command line and hash there is one place for a copy. */
  lemma NoCopyInFields(out: bytes, h: Header, p: nat, k: nat, cmdline: bytes)
    requires ValidHeader(h) && IsPatchedPage(out, h, p) && h.cmdline == StringField(cmdline, BOOT_ARGS_SIZE)
    requires 64 <= k < 608
    ensures MatchesAt(out, k, ShellcodePrefix()) ==> k == SEAM
  {
    hide MatchesAt, StringField;
    if MatchesAt(out, k, ShellcodePrefix()) {
      if k < 520 {
        CopyBytes(out, k, k + 52);
        CopyBytes(out, k, k + 53);
        FieldBytes(out, h, p, k + 52);
        FieldBytes(out, h, p, k + 53);
        FieldTail(cmdline, BOOT_ARGS_SIZE, k + 52 - 64, k + 53 - 64);
        assert false;
      } else if k < 576 {
        FieldTail(cmdline, BOOT_ARGS_SIZE, 511, 511);
        FieldBytes(out, h, p, 575);
        CopyBytes(out, k, 575);
      } else {
        CopyBytes(out, k, 608);
        assert false;
      }
    }
  }

  lemma NoCopyBehindHeader(out: bytes, h: Header, p: nat, k: nat)
    requires ValidHeader(h) && IsPatchedPage(out, h, p)
    requires HEADER_SIZE <= k < p && k + PREFIX_SIZE <= |out|
    ensures !MatchesAt(out, k, ShellcodePrefix())
  {
    hide MatchesAt;
    FieldBytes(out, h, p, k);
    if MatchesAt(out, k, ShellcodePrefix()) {
      if LOKI_BUILD <= k < LOKI_BUILD + BUILD_LIMIT {
        CopyBytes(out, k, k + BUILD_LIMIT);
      } else if LOKI_KERNEL_SIZE <= k < LOKI_HEADER_END {
        CopyBytes(out, k, k + 12);
      } else {
        CopyBytes(out, k, k);
      }
      assert false;
    }
  }

  lemma SeamIsCopy(out: bytes, h: Header, p: nat)
    requires ValidHeader(h) && IsPatchedPage(out, h, p)
    ensures MatchesAt(out, SEAM, ShellcodePrefix()) <==> SeamCopy(h)
    ensures U32At(out, SEAM + 60) == U32At(h.id, 7)
  {
    hide U32At, QuietBytes, ShellcodePrefix, WordsBytes;
    var b := HeaderBytes(h);
    assert b[64..576] == h.cmdline && b[576..608] == h.id;
    assert out[523..576] == out[64..576][459..] == b[64..576][459..] == b[523..576];
    assert out[576..579] == out[576..608][..3] == b[576..608][..3] == b[576..579];
    assert out[523..579] == out[523..576] + out[576..579] && b[523..579] == b[523..576] + b[576..579];
    assert out[583..587] == out[576..608][7..11];
    U32AtSlice(out, SEAM + 60, h.id, 7);
  }

  lemma SeamNeedsLongCmdline(h: Header, cmdline: bytes)
    requires ValidHeader(h) && SeamCopy(h) && h.cmdline == StringField(cmdline, BOOT_ARGS_SIZE)
    ensures |cmdline| >= BOOT_ARGS_SIZE - 1
  {
    hide ShellcodePrefix, WordsBytes, MatchesAt;
    var b := HeaderBytes(h);
    assert b[64..576] == h.cmdline;
    CopyBytes(b, SEAM, 574);
    assert b[574] == b[64..576][510];
  }

  /** No copy of the shellcode starts in the header page, except at the seam. */
  lemma CopiesInPage(out: bytes, h: Header, p: nat, name: bytes, cmdline: bytes, k: nat)
    requires ValidHeader(h) && IsPatchedPage(out, h, p) && k < p && k + PREFIX_SIZE <= |out|
    requires h.name == StringField(name, BOOT_NAME_SIZE) && h.cmdline == StringField(cmdline, BOOT_ARGS_SIZE)
    ensures MatchesAt(out, k, ShellcodePrefix()) <==> k == SEAM && SeamCopy(h)
  {
    hide MatchesAt, IsPatchedPage, SeamCopy;
    SeamIsCopy(out, h, p);
    if k < 64 {
      NoCopyBeforeFields(out, h, p, k, name);
    } else if k < HEADER_SIZE {
      NoCopyInFields(out, h, p, k, cmdline);
    } else {
      NoCopyBehindHeader(out, h, p, k);
    }
  }
}
