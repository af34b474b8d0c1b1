/** ROM switching: images are read into memory, checked against the recorded checksums and only then flashed. */
module Switcher {
  import opened Bytes
  import opened Strings
  import opened PropertyFile

  // ---------------------------------------------------------------------------
  // Digests
  // ---------------------------------------------------------------------------

  /** A SHA-512 digest; the hash itself stays a parameter. */
  type Digest = d: bytes | |d| == 64 witness Zeros(64)

  type Sha512 = bytes -> Digest

  function HexDigit(n: nat): char
    requires n < 16
  {
    "0123456789abcdef"[n]
  }

  function HexString(data: bytes): (r: string)
    ensures |r| == 2 * |data|
  {
    if data == [] then "" else [HexDigit(data[0] / 16), HexDigit(data[0] % 16)] + HexString(data[1..])
  }

  lemma HexDigitInjective(m: nat, n: nat)
    requires m < 16 && n < 16 && HexDigit(m) == HexDigit(n)
    ensures m == n
  {
  }

  /** Different digests have different texts. */
  lemma {:induction false} HexStringInjective(a: bytes, b: bytes)
    requires HexString(a) == HexString(b)
    ensures a == b
  {
    hide HexDigit;
    if a != [] && b != [] {
      var s, t := HexString(a), HexString(b);
      assert s[0] == t[0] && s[1] == t[1] && s[2..] == HexString(a[1..]) && t[2..] == HexString(b[1..]);
      HexDigitInjective(a[0] / 16, b[0] / 16);
      HexDigitInjective(a[0] % 16, b[0] % 16);
      HexStringInjective(a[1..], b[1..]);
      assert a == [a[0]] + a[1..] && b == [b[0]] + b[1..];
    }
  }

  /** Each byte is written with its high digit first, in lower case. */
  lemma {:induction false} HexDigits(data: bytes, i: nat)
    requires i < |data|
    ensures var s, digits := HexString(data), "0123456789abcdef";
            |digits| == 16 && s[2 * i] == digits[data[i] / 16] && s[2 * i + 1] == digits[data[i] % 16]
  {
    if i > 0 {
      HexDigits(data[1..], i - 1);
    }
  }

  function Checksum(sha: Sha512, data: bytes): (r: string)
    ensures |r| == 128
  {
    HexString(sha(data))
  }

  // ---------------------------------------------------------------------------
  // Paths and keys
  // ---------------------------------------------------------------------------

  const MULTIBOOT_DIR := "/data/media/0/MultiBoot"

  function ImagePath(id: string, name: string): string {
    MULTIBOOT_DIR + "/" + id + "/" + name
  }

  function Key(id: string, image: string): string {
    id + "/" + image
  }

  /** What follows the last slash. */
  function BaseName(path: string): (r: string)
    ensures '/' !in r
  {
    if '/' in path then BaseName(path[1..]) else path
  }

  lemma {:induction false} BaseNameOf(dir: string, name: string)
    requires '/' !in name
    ensures BaseName(dir + "/" + name) == name
  {
    var path := dir + "/" + name;
    assert path[|dir|] == '/';
    if dir == "" {
      assert path[1..] == name;
    } else {
      BaseNameOf(dir[1..], name);
      assert path[1..] == dir[1..] + "/" + name;
    }
  }

  /** A ROM and an image name have a key of their own. */
  lemma KeyInjective(id: string, image: string, id': string, image': string)
    requires '/' !in image && '/' !in image'
    ensures Key(id, image) == Key(id', image') <==> id == id' && image == image'
  {
    BaseNameOf(id, image);
    BaseNameOf(id', image');
    if Key(id, image) == Key(id', image') {
      assert id == Key(id, image)[..|Key(id, image)| - |image| - 1];
    }
  }

  lemma ImagePathInjective(id: string, id': string, name: string)
    ensures ImagePath(id, name) == ImagePath(id', name) <==> id == id'
  {
    var a, b := ImagePath(id, name), ImagePath(id', name);
    var n := |MULTIBOOT_DIR| + 1;
    assert id == a[n..|a| - |name| - 1] && id' == b[n..|b| - |name| - 1];
  }

  // ---------------------------------------------------------------------------
  // Recorded checksums
  // ---------------------------------------------------------------------------

  datatype GetResult = Found(hash: string) | NotFound | Malformed

  function ChecksumsGet(props: Properties, id: string, image: string): GetResult {
    var key := Key(id, image);
    if key !in props then NotFound
    else
      var value := props[key];
      var algo := Before(':', value);
      if |algo| == |value| then Malformed
      else if algo != "sha512" then Malformed
      else Found(value[|algo| + 1..])
  }

  function Record(hash: string): string {
    "sha512:" + hash
  }

  /** What a lookup answers, by what the table holds for "id/image": nothing, a digest behind "sha512:", or anything else. */
  lemma AnswersExactly(props: Properties, id: string, image: string)
    ensures var key, r := id + "/" + image, ChecksumsGet(props, id, image);
            && (r == NotFound <==> key !in props)
            && (forall hash :: r == Found(hash) <==> key in props && props[key] == "sha512:" + hash)
            && (r == Malformed <==> key in props && !("sha512:" <= props[key]))
  {
    forall hash ensures ChecksumsGet(props, id, image) == Found(hash)
                   <==> id + "/" + image in props && props[id + "/" + image] == "sha512:" + hash
    {
      FoundExactly(props, id, image, hash);
    }
    var key := id + "/" + image;
    if key in props && "sha512:" <= props[key] {
      FoundExactly(props, id, image, props[key][7..]);
      assert props[key] == "sha512:" + props[key][7..];
    }
  }

  /** The line of a checksum file by which an image is known. */
  lemma FileSays(id: string, image: string, hash: string)
    requires CleanKey(id + "/" + image) && CleanValue(hash)
    ensures ChecksumsGet(Parse(id + "/" + image + "=" + "sha512:" + hash + "\n"), id, image) == Found(hash)
  {
    hide ParseLine;
    var key, value := id + "/" + image, "sha512:" + hash;
    LineRoundTrip(key, value);
    FirstLine(key + "=" + value, "", map[]);
    assert id + "/" + image + "=" + "sha512:" + hash + "\n" == key + "=" + value + "\n" + "";
    FoundExactly(Parse(key + "=" + value + "\n" + ""), id, image, hash);
  }

  class PropertyTable {
    var props: Properties

    constructor (props: Properties)
      ensures this.props == props
    {
      this.props := props;
    }
  }

  method ChecksumsUpdate(table: PropertyTable, id: string, image: string, hash: string)
    modifies table
    ensures table.props == old(table.props)[Key(id, image) := Record(hash)]
  {
    var key := id + "/" + image;
    table.props := table.props[key := "sha512:"];
    table.props := table.props[key := table.props[key] + hash];
  }

  /** A checksum is found exactly when the table holds a record that spells it out. */
  lemma FoundExactly(props: Properties, id: string, image: string, hash: string)
    ensures ChecksumsGet(props, id, image) == Found(hash)
       <==> Key(id, image) in props && props[Key(id, image)] == Record(hash)
  {
    var key := Key(id, image);
    if key in props {
      var value := props[key];
      var algo := Before(':', value);
      if value == Record(hash) {
        BeforeConcat(':', "sha512", hash);
        assert value == "sha512" + [':'] + hash;
        assert value[7..] == hash;
      }
      if |algo| < |value| {
        assert value == algo + [':'] + value[|algo| + 1..];
      }
    }
  }

  /** An update is found again and leaves every other record alone. */
  lemma GetAfterUpdate(props: Properties, id: string, image: string, hash: string, id': string, image': string)
    requires '/' !in image && '/' !in image'
    ensures ChecksumsGet(props[Key(id, image) := Record(hash)], id', image')
         == if id == id' && image == image' then Found(hash) else ChecksumsGet(props, id', image')
  {
    KeyInjective(id, image, id', image');
    FoundExactly(props[Key(id, image) := Record(hash)], id, image, hash);
  }

  // ---------------------------------------------------------------------------
  // The images to flash
  // ---------------------------------------------------------------------------

  /** An image file, where it goes, and what was found out about it. */
  datatype Flashable = Flashable(image: string, blockDev: string, expectedHash: string, hash: string, data: bytes)

  function Unchecked(image: string, blockDev: string): Flashable {
    Flashable(image, blockDev, "", "", [])
  }

  /** The first search directory that has the partition; eMMC names are looked for under /dev/block first. */
  function FindBlockDev(dirs: seq<string>, partition: string, nodes: set<string>): (r: Option<string>)
    ensures r.Some? ==> r.value in nodes
  {
    if StartsWith(partition, "mmcblk") && "/dev/block/" + partition in nodes then Some("/dev/block/" + partition)
    else SearchDirs(dirs, partition, nodes)
  }

  function SearchDirs(dirs: seq<string>, partition: string, nodes: set<string>): (r: Option<string>)
    ensures r.Some? ==> r.value in nodes && exists k :: 0 <= k < |dirs| && r.value == dirs[k] + "/" + partition
    ensures r.None? ==> forall k :: 0 <= k < |dirs| ==> dirs[k] + "/" + partition !in nodes
  {
    if dirs == [] then None
    else if dirs[0] + "/" + partition in nodes then Some(dirs[0] + "/" + partition)
    else
      var rest := SearchDirs(dirs[1..], partition, nodes);
      assert forall k :: 0 <= k < |dirs[1..]| ==> dirs[1..][k] == dirs[k + 1];
      rest
  }

  /** Only modem images are flashed besides the boot image. */
  function ExtraImage(id: string, name: string, dirs: seq<string>, nodes: set<string>): Option<Flashable> {
    if name == ".img" || !EndsWith(name, ".img") || StartsWith(name, "boot.img") then None
    else
      var partition := name[..|name| - 4];
      if partition != "mdm" && partition != "modem" then None
      else
        match FindBlockDev(dirs, partition, nodes)
        case None => None
        case Some("") => None
        case Some(dev) => Some(Unchecked(ImagePath(id, name), dev))
  }

  function ExtraImages(id: string, names: seq<string>, dirs: seq<string>, nodes: set<string>): seq<Flashable> {
    if names == [] then []
    else
      match ExtraImage(id, names[0], dirs, nodes)
      case None => ExtraImages(id, names[1..], dirs, nodes)
      case Some(f) => [f] + ExtraImages(id, names[1..], dirs, nodes)
  }

  method AddExtraImages(id: string, names: seq<string>, dirs: seq<string>, nodes: set<string>, flashables: seq<Flashable>)
    returns (r: seq<Flashable>)
    ensures r == flashables + ExtraImages(id, names, dirs, nodes)
  {
    hide ExtraImage;
    r := flashables;
    var i := 0;
    while i < |names|
      invariant 0 <= i <= |names|
      invariant r + ExtraImages(id, names[i..], dirs, nodes) == flashables + ExtraImages(id, names, dirs, nodes)
    {
      assert names[i..][0] == names[i] && names[i..][1..] == names[i + 1..];
      var extra := ExtraImage(id, names[i], dirs, nodes);
      if extra.Some? {
        r := r + [extra.value];
      }
      i := i + 1;
    }
  }

  /** What is flashed besides the boot image: modem images with a device, in the order of the listing. */
  lemma {:induction false} ExtraImagesAreModems(id: string, names: seq<string>, dirs: seq<string>, nodes: set<string>)
    ensures forall f :: f in ExtraImages(id, names, dirs, nodes) ==>
              f.image in {ImagePath(id, "mdm.img"), ImagePath(id, "modem.img")} && f.blockDev in nodes
  {
    hide ExtraImage, ImagePath;
    if names != [] {
      ExtraImagesAreModems(id, names[1..], dirs, nodes);
      ExtraImageIsModem(id, names[0], dirs, nodes);
    }
  }

  lemma ExtraImageIsModem(id: string, name: string, dirs: seq<string>, nodes: set<string>)
    ensures match ExtraImage(id, name, dirs, nodes)
            case None => true
            case Some(f) => f.image in {ImagePath(id, "mdm.img"), ImagePath(id, "modem.img")} && f.blockDev in nodes
  {
    hide FindBlockDev, ImagePath;
    if EndsWith(name, ".img") {
      var partition := name[..|name| - 4];
      assert name == partition + ".img";
      assert "mdm" + ".img" == "mdm.img" && "modem" + ".img" == "modem.img";
    }
  }

  /** A partition is in the k-th search directory and in no earlier one. */
  predicate FirstDir(dirs: seq<string>, partition: string, nodes: set<string>, k: nat) {
    && k < |dirs| && dirs[k] + "/" + partition in nodes
    && forall j :: 0 <= j < k ==> dirs[j] + "/" + partition !in nodes
  }

  lemma {:induction false} FirstDirIsFound(dirs: seq<string>, partition: string, nodes: set<string>, k: nat)
    requires FirstDir(dirs, partition, nodes, k)
    ensures SearchDirs(dirs, partition, nodes) == Some(dirs[k] + "/" + partition)
    decreases k
  {
    if k > 0 {
      assert dirs[0] + "/" + partition !in nodes;
      assert forall j :: 0 <= j < |dirs[1..]| ==> dirs[1..][j] == dirs[j + 1];
      FirstDirIsFound(dirs[1..], partition, nodes, k - 1);
    }
  }

  /** Which names of the listing are flashed, and where to: modem images, to the device of their own name in the first directory that has one. */
  lemma ExtraImageExactly(id: string, p: string, dirs: seq<string>, nodes: set<string>)
    requires p in {"mdm", "modem"}
    ensures forall k: nat :: FirstDir(dirs, p, nodes, k) ==>
              ExtraImage(id, p + ".img", dirs, nodes)
              == Some(Flashable("/data/media/0/MultiBoot" + "/" + id + "/" + (p + ".img"), dirs[k] + "/" + p, "", "", []))
    ensures (forall k: nat :: !FirstDir(dirs, p, nodes, k)) ==> ExtraImage(id, p + ".img", dirs, nodes) == None
  {
    hide SearchDirs, FirstDir;
    ModemNames(p);
    if SearchDirs(dirs, p, nodes).Some? {
      var n := SomeFirstDir(dirs, p, nodes);
    }
    forall k: nat | FirstDir(dirs, p, nodes, k)
      ensures k < |dirs| && SearchDirs(dirs, p, nodes) == Some(dirs[k] + "/" + p)
    {
      FirstDirIsFound(dirs, p, nodes, k);
      DirIsListed(dirs, p, nodes, k);
    }
  }

  lemma DirIsListed(dirs: seq<string>, partition: string, nodes: set<string>, k: nat)
    requires FirstDir(dirs, partition, nodes, k)
    ensures k < |dirs|
  {
  }

  lemma ModemNames(p: string)
    requires p in {"mdm", "modem"}
    ensures var name := p + ".img";
            name != ".img" && EndsWith(name, ".img") && !StartsWith(name, "boot.img") && name[..|name| - 4] == p
    ensures !StartsWith(p, "mmcblk")
  {
    var name := p + ".img";
    assert name[|name| - 4..] == ".img" && name[0] == 'm';
  }

  lemma OtherNamesAreSkipped(id: string, name: string, dirs: seq<string>, nodes: set<string>)
    requires name !in {"mdm.img", "modem.img"}
    ensures ExtraImage(id, name, dirs, nodes) == None
  {
    hide FindBlockDev;
    if EndsWith(name, ".img") {
      var partition := name[..|name| - 4];
      assert name == partition + ".img";
      assert "mdm" + ".img" == "mdm.img" && "modem" + ".img" == "modem.img";
    }
  }

  lemma {:induction false} SomeFirstDir(dirs: seq<string>, partition: string, nodes: set<string>) returns (k: nat)
    requires SearchDirs(dirs, partition, nodes).Some?
    ensures FirstDir(dirs, partition, nodes, k)
  {
    if dirs[0] + "/" + partition in nodes {
      k := 0;
    } else {
      var j := SomeFirstDir(dirs[1..], partition, nodes);
      k := j + 1;
      forall i | 0 <= i < k ensures dirs[i] + "/" + partition !in nodes {
        if i > 0 {
          assert dirs[i] == dirs[1..][i - 1];
        }
      }
    }
  }

  /** The listing is gone through name by name. */
  lemma {:induction false} ExtraImagesOfConcat(id: string, a: seq<string>, b: seq<string>, dirs: seq<string>, nodes: set<string>)
    ensures ExtraImages(id, a + b, dirs, nodes) == ExtraImages(id, a, dirs, nodes) + ExtraImages(id, b, dirs, nodes)
  {
    hide ExtraImage;
    if a == [] {
      assert a + b == b;
    } else {
      ExtraImagesOfConcat(id, a[1..], b, dirs, nodes);
      assert (a + b)[0] == a[0] && (a + b)[1..] == a[1..] + b;
    }
  }

  /** A modem image that is listed and has a device is flashed, in its turn. */
  lemma ListedModemIsFlashed(id: string, names: seq<string>, i: nat, p: string, dirs: seq<string>, nodes: set<string>, k: nat)
    requires i < |names| && p in {"mdm", "modem"} && names[i] == p + ".img" && k < |dirs| && FirstDir(dirs, p, nodes, k)
    ensures ExtraImages(id, names, dirs, nodes)
         == ExtraImages(id, names[..i], dirs, nodes)
            + [Flashable("/data/media/0/MultiBoot" + "/" + id + "/" + (p + ".img"), dirs[k] + "/" + p, "", "", [])]
            + ExtraImages(id, names[i + 1..], dirs, nodes)
  {
    hide ExtraImage, ExtraImages, FirstDir;
    ExtraImageExactly(id, p, dirs, nodes);
    OneName(id, names[i], dirs, nodes);
    OneOfNames(id, names, i, dirs, nodes);
  }

  lemma OneOfNames(id: string, names: seq<string>, i: nat, dirs: seq<string>, nodes: set<string>)
    requires i < |names|
    ensures ExtraImages(id, names, dirs, nodes) == ExtraImages(id, names[..i], dirs, nodes)
            + ExtraImages(id, [names[i]], dirs, nodes) + ExtraImages(id, names[i + 1..], dirs, nodes)
  {
    hide ExtraImages;
    var rest := [names[i]] + names[i + 1..];
    assert names == names[..i] + rest;
    ExtraImagesOfConcat(id, names[..i], rest, dirs, nodes);
    ExtraImagesOfConcat(id, [names[i]], names[i + 1..], dirs, nodes);
  }

  lemma OneName(id: string, name: string, dirs: seq<string>, nodes: set<string>)
    ensures ExtraImages(id, [name], dirs, nodes)
         == if ExtraImage(id, name, dirs, nodes).None? then [] else [ExtraImage(id, name, dirs, nodes).value]
  {
    hide ExtraImage;
    assert [name][1..] == [];
  }

  // ---------------------------------------------------------------------------
  // Checking
  // ---------------------------------------------------------------------------

  datatype SwitchResult = Succeeded | Failed | ChecksumNotFound | ChecksumInvalid

  /** The table as it is when one image is looked up: a forced switch has put its record there just before. */
  function TableFor(props: Properties, id: string, image: string, hash: string, force: bool): Properties {
    if force then props[Key(id, image) := Record(hash)] else props
  }

  datatype Check = Unreadable | Invalid | Passed(f: Flashable, props: Properties)

  /** One image: its content as it was read, its hash, and what the table has for it. */
  function CheckImage(sha: Sha512, props: Properties, id: string, f: Flashable, read: Option<bytes>, force: bool): Check {
    match read
    case None => Unreadable
    case Some(data) =>
      var hash := Checksum(sha, data);
      var name := BaseName(f.image);
      var props' := TableFor(props, id, name, hash, force);
      match ChecksumsGet(props', id, name)
      case Malformed => Invalid
      case Found(expected) => if expected != hash then Invalid else Passed(f.(expectedHash := expected, hash := hash, data := data), props')
      case NotFound => Passed(f.(hash := hash, data := data), props')
  }

  function ReadAt(contents: seq<Option<bytes>>, i: nat): Option<bytes> {
    if i < |contents| then contents[i] else None
  }

  datatype Checked = Stopped(result: SwitchResult) | AllPassed(images: seq<Flashable>, props: Properties)

  /** Images from the i-th on; the first unreadable or invalid one ends the switch. */
  function CheckImages(sha: Sha512, props: Properties, id: string, fs: seq<Flashable>, i: nat, contents: seq<Option<bytes>>, force: bool): (r: Checked)
    requires i <= |fs|
    ensures r.AllPassed? ==> |r.images| == |fs| - i
    decreases |fs| - i
  {
    if i == |fs| then AllPassed([], props)
    else
      match CheckImage(sha, props, id, fs[i], ReadAt(contents, i), force)
      case Unreadable => Stopped(Failed)
      case Invalid => Stopped(ChecksumInvalid)
      case Passed(f, props') =>
        match CheckImages(sha, props', id, fs, i + 1, contents, force)
        case Stopped(result) => Stopped(result)
        case AllPassed(rest, props'') => AllPassed([f] + rest, props'')
  }

  predicate MissesRecord(images: seq<Flashable>) {
    exists k :: 0 <= k < |images| && images[k].expectedHash == ""
  }

  /** The verification loop of switch_rom; the flashables are filled in and the table is updated as it goes. */
  method VerifyImages(sha: Sha512, table: PropertyTable, id: string, flashables: seq<Flashable>, contents: seq<Option<bytes>>, force: bool)
    returns (failure: Option<SwitchResult>, checked: seq<Flashable>)
    modifies table
    ensures match CheckImages(sha, old(table.props), id, flashables, 0, contents, force)
            case Stopped(result) => failure == Some(result)
            case AllPassed(images, props) => failure == None && checked == images && table.props == props
  {
    hide ChecksumsGet, Checksum, BaseName;
    checked := [];
    ghost var props := table.props;
    for i := 0 to |flashables|
      invariant |checked| == i
      invariant CheckImages(sha, props, id, flashables, 0, contents, force)
             == Resumed(checked, CheckImages(sha, table.props, id, flashables, i, contents, force))
    {
      ghost var before, props0 := checked, table.props;
      var f := flashables[i];
      var read := ReadAt(contents, i);
      if read.None? {
        return Some(Failed), checked;
      }
      f := f.(data := read.value, hash := Checksum(sha, read.value));
      if force {
        ChecksumsUpdate(table, id, BaseName(f.image), f.hash);
      }
      var got := ChecksumsGet(table.props, id, BaseName(f.image));
      if got.Malformed? {
        return Some(ChecksumInvalid), checked;
      }
      if got.Found? {
        f := f.(expectedHash := got.hash);
        if f.expectedHash != f.hash {
          return Some(ChecksumInvalid), checked;
        }
      }
      assert CheckImage(sha, props0, id, flashables[i], read, force) == Passed(f, table.props);
      checked := checked + [f];
      ResumedStep(before, f, CheckImages(sha, table.props, id, flashables, i + 1, contents, force));
    }
    assert checked + [] == checked;
    failure := None;
  }

  ghost function Resumed(done: seq<Flashable>, rest: Checked): Checked {
    match rest
    case Stopped(result) => Stopped(result)
    case AllPassed(images, props) => AllPassed(done + images, props)
  }

  lemma ResumedStep(done: seq<Flashable>, f: Flashable, rest: Checked)
    ensures Resumed(done + [f], rest)
         == Resumed(done, match rest case Stopped(result) => Stopped(result) case AllPassed(images, props) => AllPassed([f] + images, props))
  {
    match rest {
      case Stopped(_) =>
      case AllPassed(images, _) => assert done + [f] + images == done + ([f] + images);
    }
  }

  method FindMissingRecord(images: seq<Flashable>) returns (missing: bool)
    ensures missing == MissesRecord(images)
  {
    for i := 0 to |images|
      invariant forall k :: 0 <= k < i ==> images[k].expectedHash != ""
    {
      if images[i].expectedHash == "" {
        return true;
      }
    }
    missing := false;
  }

  // ---------------------------------------------------------------------------
  // Flashing
  // ---------------------------------------------------------------------------

  /** What the system made of one write: all of it, or only so many bytes. */
  datatype Write = Done | Broken(written: nat)

  function WriteAt(writes: seq<Write>, i: nat): Write {
    if i < |writes| then writes[i] else Broken(0)
  }

  function Min(a: nat, b: nat): nat {
    if a <= b then a else b
  }

  /** A block device keeps its size: the first bytes are replaced, the rest stays. */
  function Overwritten(device: bytes, data: bytes, w: Write): (r: bytes)
    ensures |r| == |device|
  {
    var n := Min(|device|, match w case Done => |data| case Broken(k) => Min(k, |data|));
    data[..n] + device[n..]
  }

  function Written(devices: map<string, bytes>, dev: string, data: bytes, w: Write): map<string, bytes> {
    if dev in devices then devices[dev := Overwritten(devices[dev], data, w)] else devices
  }

  /** Every image from the i-th on is written until a write fails. */
  function FlashImages(devices: map<string, bytes>, images: seq<Flashable>, i: nat, writes: seq<Write>): (map<string, bytes>, bool)
    requires i <= |images|
    decreases |images| - i
  {
    if i == |images| then (devices, true)
    else
      var devices' := Written(devices, images[i].blockDev, images[i].data, WriteAt(writes, i));
      if images[i].blockDev !in devices || WriteAt(writes, i).Broken? then (devices', false)
      else FlashImages(devices', images, i + 1, writes)
  }

  // ---------------------------------------------------------------------------
  // The machine
  // ---------------------------------------------------------------------------

  /** One write to a block device: for which ROM and image, what, and the record the table had when the switch began. */
  datatype Flash = Flash(id: string, name: string, dev: string, data: bytes, write: Write, forced: bool, record: GetResult)

  /** Image files, block devices, the checksum file (None while it does not exist) and the writes so far. */
  datatype State = State(files: map<string, bytes>, devices: map<string, bytes>, table: Option<string>, flashes: seq<Flash>)

  function TableOf(s: State): Properties {
    match s.table case None => map[] case Some(text) => Parse(text)
  }

  /** What the system made of writing the checksum file: the order the table was walked in, or what a failure left. */
  datatype TableWrite = TableWrite(ok: bool, order: seq<string>, left: Option<string>)

  predicate IsStored(props: Properties, w: TableWrite) {
    w.ok && Enumerates(w.order, props)
  }

  function StoredTable(props: Properties, w: TableWrite): Option<string> {
    if IsStored(props, w) then Some(Print(w.order, props)) else w.left
  }

  /** One call of switch_rom with everything the outside contributes to it: the directory listing, what reading each
      image returned at that moment, and how each write went. */
  datatype Switch = Switch(
    id: string, boot: string, ready: bool, names: seq<string>, dirs: seq<string>, nodes: set<string>,
    contents: seq<Option<bytes>>, writes: seq<Write>, force: bool, table: TableWrite)

  function ImagesOf(e: Switch): seq<Flashable> {
    [Unchecked(ImagePath(e.id, "boot.img"), e.boot)] + ExtraImages(e.id, e.names, e.dirs, e.nodes)
  }

  function CheckedImages(sha: Sha512, table: Properties, e: Switch): Checked {
    CheckImages(sha, table, e.id, ImagesOf(e), 0, e.contents, e.force)
  }

  function ResultOf(sha: Sha512, s: State, e: Switch): SwitchResult {
    if !e.ready then Failed
    else
      match CheckedImages(sha, TableOf(s), e)
      case Stopped(result) => result
      case AllPassed(images, _) =>
        if MissesRecord(images) then ChecksumNotFound
        else if FlashImages(s.devices, images, 0, e.writes).1 then Succeeded
        else Failed
  }

  function FlashOf(e: Switch, table: Properties, f: Flashable, w: Write): Flash {
    Flash(e.id, BaseName(f.image), f.blockDev, f.data, w, e.force, ChecksumsGet(table, e.id, BaseName(f.image)))
  }

  /** The writes from the i-th image on; the first one that fails is the last. */
  function FlashesFrom(table: Properties, devices: map<string, bytes>, e: Switch, images: seq<Flashable>, i: nat): (r: seq<Flash>)
    requires i <= |images|
    ensures |r| <= |images| - i
    decreases |images| - i
  {
    if i == |images| then []
    else
      var f := images[i];
      var devices' := Written(devices, f.blockDev, f.data, WriteAt(e.writes, i));
      [FlashOf(e, table, f, WriteAt(e.writes, i))]
      + if f.blockDev !in devices || WriteAt(e.writes, i).Broken? then [] else FlashesFrom(table, devices', e, images, i + 1)
  }

  function AfterSwitch(sha: Sha512, s: State, e: Switch): State {
    if !e.ready then s
    else
      match CheckedImages(sha, TableOf(s), e)
      case Stopped(_) => s
      case AllPassed(images, props) =>
        if MissesRecord(images) then s
        else
          var (devices, ok) := FlashImages(s.devices, images, 0, e.writes);
          State(s.files, devices, if ok && e.force then StoredTable(props, e.table) else s.table, s.flashes + FlashesFrom(TableOf(s), s.devices, e, images, 0))
  }

  /** One call of set_kernel: how reading the device and writing the two files went. */
  datatype SetKernel = SetKernel(id: string, boot: string, ready: bool, readable: bool, file: FileWrite, table: TableWrite)

  datatype FileWrite = Complete | Cut(left: Option<bytes>)

  /** Reading an empty device fails like an unreadable one. */
  function DeviceContent(s: State, e: SetKernel): Option<bytes> {
    if e.ready && e.readable && e.boot in s.devices && s.devices[e.boot] != [] then Some(s.devices[e.boot]) else None
  }

  function WithFile(files: map<string, bytes>, path: string, content: Option<bytes>): map<string, bytes> {
    match content
    case None => files - {path}
    case Some(data) => files[path := data]
  }

  function SavedTable(sha: Sha512, s: State, e: SetKernel, data: bytes): Properties {
    TableOf(s)[Key(e.id, "boot.img") := Record(Checksum(sha, data))]
  }

  function AfterSave(sha: Sha512, s: State, e: SetKernel): (State, bool) {
    match DeviceContent(s, e)
    case None => (s, false)
    case Some(data) =>
      var path := ImagePath(e.id, "boot.img");
      match e.file
      case Cut(left) => (s.(files := WithFile(s.files, path, left)), false)
      case Complete => (s.(files := s.files[path := data], table := StoredTable(SavedTable(sha, s, e, data), e.table)), true)
  }

  class Machine {
    var files: map<string, bytes>
    var devices: map<string, bytes>
    var table: Option<string>
    ghost var flashes: seq<Flash>

    ghost function Now(): State
      reads this
    {
      State(files, devices, table, flashes)
    }

    constructor (files: map<string, bytes>, devices: map<string, bytes>, table: Option<string>)
      ensures Now() == State(files, devices, table, [])
    {
      this.files := files;
      this.devices := devices;
      this.table := table;
      this.flashes := [];
    }

    method ChecksumsRead() returns (t: PropertyTable)
      ensures fresh(t) && t.props == TableOf(Now())
    {
      t := new PropertyTable(match table case None => map[] case Some(text) => Parse(text));
    }

    method ChecksumsWrite(props: Properties, w: TableWrite)
      modifies this`table
      ensures table == StoredTable(props, w)
    {
      table := w.left;
      if IsStored(props, w) {
        table := Some(Print(w.order, props));
      }
    }

    method SwitchRom(sha: Sha512, e: Switch) returns (result: SwitchResult)
      modifies this
      ensures result == ResultOf(sha, old(Now()), e)
      ensures Now() == AfterSwitch(sha, old(Now()), e)
    {
      hide CheckImages, FlashImages, ChecksumsGet, Parse, StoredTable, MissesRecord, ExtraImages, ImagePath;
      if !e.ready {
        return Failed;
      }
      var flashables := [Unchecked(ImagePath(e.id, "boot.img"), e.boot)];
      flashables := AddExtraImages(e.id, e.names, e.dirs, e.nodes, flashables);
      var props := ChecksumsRead();
      var failure, images := VerifyImages(sha, props, e.id, flashables, e.contents, e.force);
      if failure.Some? {
        return failure.value;
      }
      var missing := FindMissingRecord(images);
      if missing {
        return ChecksumNotFound;
      }
      ghost var s := Now();
      var ok := WriteImages(images, e.writes);
      flashes := s.flashes + FlashesFrom(TableOf(s), s.devices, e, images, 0);
      if !ok {
        return Failed;
      }
      if e.force {
        ChecksumsWrite(props.props, e.table);
      }
      result := Succeeded;
    }

    method WriteImages(images: seq<Flashable>, writes: seq<Write>) returns (ok: bool)
      modifies this`devices
      ensures (devices, ok) == FlashImages(old(devices), images, 0, writes)
    {
      var i := 0;
      while i < |images|
        invariant 0 <= i <= |images|
        invariant FlashImages(devices, images, i, writes) == FlashImages(old(devices), images, 0, writes)
      {
        var known := images[i].blockDev in devices;
        devices := Written(devices, images[i].blockDev, images[i].data, WriteAt(writes, i));
        if !known || WriteAt(writes, i).Broken? {
          return false;
        }
        i := i + 1;
      }
      ok := true;
    }

    method SetKernel(sha: Sha512, e: SetKernel) returns (ok: bool)
      modifies this
      ensures (Now(), ok) == AfterSave(sha, old(Now()), e)
    {
      hide Parse, StoredTable, ImagePath;
      var path := ImagePath(e.id, "boot.img");
      if !e.ready || !e.readable || e.boot !in devices || devices[e.boot] == [] {
        return false;
      }
      var data := devices[e.boot];
      var hash := Checksum(sha, data);
      var props := ChecksumsRead();
      ChecksumsUpdate(props, e.id, "boot.img", hash);
      if e.file.Cut? {
        files := WithFile(files, path, e.file.left);
        return false;
      }
      files := files[path := data];
      ChecksumsWrite(props.props, e.table);
      ok := true;
    }
  }
}
