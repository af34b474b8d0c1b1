/** A saved kernel comes back: set_kernel, then anything that leaves it alone, then switch_rom. */
module KernelRestore {
  import opened Bytes
  import opened PropertyFile
  import opened Switcher
  import opened SwitcherRuns

  // ---------------------------------------------------------------------------
  // The checksum file keeps what is written to it
  // ---------------------------------------------------------------------------

  lemma {:induction false} HexStringIsClean(data: bytes)
    ensures CleanValue(HexString(data))
  {
    if data != [] {
      HexStringIsClean(data[1..]);
    }
  }

  lemma RecordIsClean(sha: Sha512, data: bytes)
    ensures CleanValue(Record(Checksum(sha, data)))
  {
    HexStringIsClean(sha(data));
  }

  const IMAGE_NAMES: set<string> := {"boot.img", "mdm.img", "modem.img"}

  lemma KeyIsClean(id: string, name: string)
    requires CleanKey(id) && name in IMAGE_NAMES
    ensures CleanKey(Key(id, name)) && '/' !in name
  {
  }

  lemma TableIsClean(s: State)
    ensures Clean(TableOf(s))
  {
    hide Parse;
    if s.table.Some? {
      ParsedIsClean(s.table.value);
    }
  }

  lemma StoredIsRead(s: State, props: Properties, w: TableWrite)
    requires Clean(props) && IsStored(props, w) && s.table == StoredTable(props, w)
    ensures TableOf(s) == props
  {
    hide Parse, Print, Clean, Enumerates;
    PropertiesRoundTrip(w.order, props);
  }

  lemma RecordedIsClean(sha: Sha512, props: Properties, id: string, name: string, data: bytes)
    requires Clean(props) && CleanKey(id) && name in IMAGE_NAMES
    ensures Clean(props[Key(id, name) := Record(Checksum(sha, data))])
  {
    hide CleanKey, CleanValue, Key, Record;
    KeyIsClean(id, name);
    RecordIsClean(sha, data);
  }

  // ---------------------------------------------------------------------------
  // Forced switches keep the records they do not rewrite
  // ---------------------------------------------------------------------------

  lemma ImageNames(e: Switch)
    ensures forall f :: f in ImagesOf(e) ==> BaseName(f.image) in IMAGE_NAMES
    ensures forall k :: 1 <= k < |ImagesOf(e)| ==> BaseName(ImagesOf(e)[k].image) != "boot.img"
    ensures BaseName(ImagesOf(e)[0].image) == "boot.img"
  {
    hide ExtraImages, BaseName;
    var dir := MULTIBOOT_DIR + "/" + e.id;
    BaseNameOf(dir, "boot.img");
    BaseNameOf(dir, "mdm.img");
    BaseNameOf(dir, "modem.img");
    ExtraImagesAreModems(e.id, e.names, e.dirs, e.nodes);
    var extras := ExtraImages(e.id, e.names, e.dirs, e.nodes);
    forall k | 1 <= k < |ImagesOf(e)| ensures ImagesOf(e)[k] in extras {
      assert ImagesOf(e)[k] == extras[k - 1];
    }
  }

  lemma {:induction false} ForcedKeepsRecord(sha: Sha512, props: Properties, id: string, fs: seq<Flashable>, i: nat,
                                             contents: seq<Option<bytes>>, id': string, name: string, data: bytes)
    requires i <= |fs| && '/' !in name && Clean(props) && CleanKey(id)
    requires ChecksumsGet(props, id', name) == Found(Checksum(sha, data))
    requires forall k :: i <= k < |fs| ==> BaseName(fs[k].image) in IMAGE_NAMES
    requires forall k :: i <= k < |fs| && id == id' && BaseName(fs[k].image) == name ==> ReadAt(contents, k) in {None, Some(data)}
    ensures match CheckImages(sha, props, id, fs, i, contents, true)
            case Stopped(_) => true
            case AllPassed(_, props') => Clean(props') && ChecksumsGet(props', id', name) == Found(Checksum(sha, data))
    decreases |fs| - i
  {
    hide ChecksumsGet, Checksum, BaseName, Clean, CleanKey, Record, Key;
    if i < |fs| && ReadAt(contents, i).Some? {
      var image, hash := BaseName(fs[i].image), Checksum(sha, ReadAt(contents, i).value);
      var props' := props[Key(id, image) := Record(hash)];
      KeyIsClean(id, image);
      RecordedIsClean(sha, props, id, image, ReadAt(contents, i).value);
      GetAfterUpdate(props, id, image, hash, id', name);
      ForcedKeepsRecord(sha, props', id, fs, i + 1, contents, id', name, data);
    }
  }

  // ---------------------------------------------------------------------------
  // Runs that leave a saved kernel alone
  // ---------------------------------------------------------------------------

  /** The image file of the ROM is the saved kernel, the table has its checksum, and the device has its size. */
  predicate Kept(sha: Sha512, s: State, id: string, boot: string, data: bytes) {
    var path := ImagePath(id, "boot.img");
    && path in s.files && s.files[path] == data
    && ChecksumsGet(TableOf(s), id, "boot.img") == Found(Checksum(sha, data))
    && boot in s.devices && |s.devices[boot]| == |data|
  }

  /** Every image was read as its file is in this state. */
  predicate ReadsFiles(s: State, e: Switch) {
    forall k :: 0 <= k < |ImagesOf(e)| ==>
      var path := ImagesOf(e)[k].image;
      ReadAt(e.contents, k) == if path in s.files && s.files[path] != [] then Some(s.files[path]) else None
  }

  predicate WritesTable(sha: Sha512, s: State, e: Switch) {
    e.force && ResultOf(sha, s, e) == Succeeded
  }

  /** The table a successful forced switch writes. */
  function FinalTable(sha: Sha512, s: State, e: Switch): Properties {
    match CheckedImages(sha, TableOf(s), e)
    case Stopped(_) => TableOf(s)
    case AllPassed(_, props) => props
  }

  /** An event that does not touch the saved kernel of a ROM; checksum files are written completely, under clean ROM ids. */
  predicate LeavesAlone(sha: Sha512, s: State, e: Event, id: string) {
    match e
    case Edit(path, _) => path != ImagePath(id, "boot.img")
    case Save(k) =>
      && k.id != id && CleanKey(k.id)
      && (DeviceContent(s, k).Some? && k.file.Complete? ==> IsStored(SavedTable(sha, s, k, DeviceContent(s, k).value), k.table))
    case SwitchTo(w) =>
      WritesTable(sha, s, w) ==>
        && CleanKey(w.id) && (w.id == id ==> ReadsFiles(s, w))
        && IsStored(FinalTable(sha, s, w), w.table)
  }

  predicate Undisturbed(sha: Sha512, s: State, es: seq<Event>, id: string)
    decreases |es|
  {
    es == [] || (LeavesAlone(sha, s, es[0], id) && Undisturbed(sha, Step(sha, s, es[0]), es[1..], id))
  }

  lemma SaveLeavesKept(sha: Sha512, s: State, k: SetKernel, id: string, boot: string, data: bytes)
    requires Kept(sha, s, id, boot, data) && LeavesAlone(sha, s, Save(k), id)
    ensures Kept(sha, AfterSave(sha, s, k).0, id, boot, data)
  {
    hide ImagePath, Parse, ChecksumsGet, Checksum, StoredTable, IsStored, Clean, Record, Key, CleanKey;
    ImagePathInjective(id, k.id, "boot.img");
    if DeviceContent(s, k).Some? && k.file.Complete? {
      var content := DeviceContent(s, k).value;
      TableIsClean(s);
      RecordedIsClean(sha, TableOf(s), k.id, "boot.img", content);
      StoredIsRead(AfterSave(sha, s, k).0, SavedTable(sha, s, k, content), k.table);
      KeyIsClean(k.id, "boot.img");
      GetAfterUpdate(TableOf(s), k.id, "boot.img", Checksum(sha, content), id, "boot.img");
    }
  }

  lemma {:induction false} FlashingKeepsSizes(devices: map<string, bytes>, images: seq<Flashable>, i: nat, writes: seq<Write>, boot: string)
    requires i <= |images|
    ensures var devices' := FlashImages(devices, images, i, writes).0;
            boot in devices ==> boot in devices' && |devices'[boot]| == |devices[boot]|
    decreases |images| - i
  {
    hide Overwritten;
    if i < |images| {
      FlashingKeepsSizes(Written(devices, images[i].blockDev, images[i].data, WriteAt(writes, i)), images, i + 1, writes, boot);
    }
  }

  lemma SwitchLeavesKept(sha: Sha512, s: State, w: Switch, id: string, boot: string, data: bytes)
    requires Kept(sha, s, id, boot, data) && LeavesAlone(sha, s, SwitchTo(w), id)
    ensures Kept(sha, AfterSwitch(sha, s, w), id, boot, data)
  {
    hide ImagePath, Parse, ChecksumsGet, Checksum, StoredTable, IsStored, CheckImages, FlashImages, FlashesFrom, ImagesOf, MissesRecord, Clean, CleanKey, BaseName;
    var s' := AfterSwitch(sha, s, w);
    if w.ready && CheckedImages(sha, TableOf(s), w).AllPassed? {
      FlashingKeepsSizes(s.devices, CheckedImages(sha, TableOf(s), w).images, 0, w.writes, boot);
      if WritesTable(sha, s, w) {
        ForcedSwitchKeepsTable(sha, s, w, id, data);
        StoredIsRead(s', CheckedImages(sha, TableOf(s), w).props, w.table);
      }
    }
  }

  lemma ForcedSwitchKeepsTable(sha: Sha512, s: State, w: Switch, id: string, data: bytes)
    requires w.force && CleanKey(w.id) && CheckedImages(sha, TableOf(s), w).AllPassed?
    requires var path := ImagePath(id, "boot.img"); path in s.files && s.files[path] == data
    requires w.id == id ==> ReadsFiles(s, w)
    requires ChecksumsGet(TableOf(s), id, "boot.img") == Found(Checksum(sha, data))
    ensures var props := CheckedImages(sha, TableOf(s), w).props;
            Clean(props) && ChecksumsGet(props, id, "boot.img") == Found(Checksum(sha, data))
  {
    hide Parse, ChecksumsGet, Checksum, CheckImages, ExtraImages, Clean, CleanKey, BaseName, ImagePath;
    ImageNames(w);
    TableIsClean(s);
    var fs := ImagesOf(w);
    KeyIsClean(w.id, "boot.img");
    forall k | 0 <= k < |fs| && w.id == id && BaseName(fs[k].image) == "boot.img"
      ensures ReadAt(w.contents, k) in {None, Some(data)}
    {
      assert k == 0 && fs[0].image == ImagePath(id, "boot.img");
    }
    ForcedKeepsRecord(sha, TableOf(s), w.id, fs, 0, w.contents, id, "boot.img", data);
  }

  lemma EditLeavesKept(sha: Sha512, s: State, path: string, content: Option<bytes>, id: string, boot: string, data: bytes)
    requires Kept(sha, s, id, boot, data) && path != ImagePath(id, "boot.img")
    ensures Kept(sha, s.(files := WithFile(s.files, path, content)), id, boot, data)
  {
    hide ImagePath, Parse, ChecksumsGet, Checksum;
  }

  lemma {:induction false} RunLeavesKept(sha: Sha512, s: State, es: seq<Event>, id: string, boot: string, data: bytes)
    requires Kept(sha, s, id, boot, data) && Undisturbed(sha, s, es, id)
    ensures Kept(sha, Run(sha, s, es), id, boot, data)
    decreases |es|
  {
    hide Kept, ImagePath, AfterSave, AfterSwitch;
    if es != [] {
      match es[0] {
        case Edit(path, content) => EditLeavesKept(sha, s, path, content, id, boot, data);
        case Save(k) => SaveLeavesKept(sha, s, k, id, boot, data);
        case SwitchTo(w) => SwitchLeavesKept(sha, s, w, id, boot, data);
      }
      RunLeavesKept(sha, Step(sha, s, es[0]), es[1..], id, boot, data);
    }
  }

  // ---------------------------------------------------------------------------
  // Saving and switching
  // ---------------------------------------------------------------------------

  lemma SavedIsKept(sha: Sha512, s: State, k: SetKernel)
    requires AfterSave(sha, s, k).1 && CleanKey(k.id)
    requires IsStored(SavedTable(sha, s, k, s.devices[k.boot]), k.table)
    ensures Kept(sha, AfterSave(sha, s, k).0, k.id, k.boot, s.devices[k.boot])
  {
    hide ImagePath, Parse, ChecksumsGet, Checksum, StoredTable, IsStored, Clean, Record, Key, CleanKey;
    var content := s.devices[k.boot];
    TableIsClean(s);
    RecordedIsClean(sha, TableOf(s), k.id, "boot.img", content);
    StoredIsRead(AfterSave(sha, s, k).0, SavedTable(sha, s, k, content), k.table);
    KeyIsClean(k.id, "boot.img");
    GetAfterUpdate(TableOf(s), k.id, "boot.img", Checksum(sha, content), k.id, "boot.img");
  }

  /** A switch of just the boot image. */
  predicate OnlyBoot(e: Switch) {
    |ImagesOf(e)| == 1
  }

  lemma CheckOfBoot(sha: Sha512, s: State, e: Switch, content: bytes)
    requires OnlyBoot(e) && ReadAt(e.contents, 0) == Some(content) && !e.force
    ensures var record := ChecksumsGet(TableOf(s), e.id, "boot.img");
            && (InvalidAgainst(sha, record, content) ==> CheckedImages(sha, TableOf(s), e) == Stopped(ChecksumInvalid))
            && (record == Found(Checksum(sha, content)) ==>
                  CheckedImages(sha, TableOf(s), e)
                  == AllPassed([Flashable(ImagePath(e.id, "boot.img"), e.boot, Checksum(sha, content), Checksum(sha, content), content)], TableOf(s)))
  {
    hide ChecksumsGet, Checksum, BaseName, Parse, ExtraImages;
    BaseNameOf(MULTIBOOT_DIR + "/" + e.id, "boot.img");
    var fs, props := ImagesOf(e), TableOf(s);
    assert BaseName(fs[0].image) == "boot.img";
    assert CheckImages(sha, props, e.id, fs, 1, e.contents, false) == AllPassed([], props);
  }

  lemma KeptIsRestored(sha: Sha512, s: State, e: Switch, data: bytes)
    requires Kept(sha, s, e.id, e.boot, data) && data != []
    requires e.ready && !e.force && OnlyBoot(e) && ReadsFiles(s, e) && WriteAt(e.writes, 0) == Done
    ensures ResultOf(sha, s, e) == Succeeded
    ensures AfterSwitch(sha, s, e).devices == s.devices[e.boot := data]
  {
    hide ChecksumsGet, Checksum, BaseName, Parse, ExtraImages, CheckImages, ImagePath, FlashesFrom;
    assert ImagesOf(e)[0].image == ImagePath(e.id, "boot.img");
    CheckOfBoot(sha, s, e, data);
    var images := CheckedImages(sha, TableOf(s), e).images;
    assert Overwritten(s.devices[e.boot], data, Done) == data;
    assert FlashImages(s.devices, images, 0, e.writes) == FlashImages(s.devices[e.boot := data], images, 1, e.writes);
  }

  /** What set_kernel saved, switch_rom brings back, whatever else happened to other ROMs and files in between. */
  lemma SavedKernelComesBack(sha: Sha512, s: State, k: SetKernel, es: seq<Event>, e: Switch)
    requires AfterSave(sha, s, k).1 && CleanKey(k.id)
    requires IsStored(SavedTable(sha, s, k, s.devices[k.boot]), k.table)
    requires Undisturbed(sha, AfterSave(sha, s, k).0, es, k.id)
    requires e.id == k.id && e.boot == k.boot && e.ready && !e.force && OnlyBoot(e) && WriteAt(e.writes, 0) == Done
    requires ReadsFiles(Run(sha, AfterSave(sha, s, k).0, es), e)
    ensures var before := Run(sha, AfterSave(sha, s, k).0, es);
            && ResultOf(sha, before, e) == Succeeded
            && AfterSwitch(sha, before, e).devices == before.devices[k.boot := s.devices[k.boot]]
  {
    hide Kept, ReadsFiles, OnlyBoot, AfterSwitch, IsStored, CleanKey, ResultOf;
    var data := s.devices[k.boot];
    SavedIsKept(sha, s, k);
    RunLeavesKept(sha, AfterSave(sha, s, k).0, es, k.id, k.boot, data);
    KeptIsRestored(sha, Run(sha, AfterSave(sha, s, k).0, es), e, data);
  }

  /** If the image file was exchanged for one with another digest, the switch is refused and nothing is written. */
  lemma ExchangedKernelIsRefused(sha: Sha512, s: State, e: Switch, data: bytes, content: bytes)
    requires Kept(sha, s, e.id, e.boot, data)
    requires e.ready && !e.force && OnlyBoot(e) && ReadAt(e.contents, 0) == Some(content) && sha(content) != sha(data)
    ensures ResultOf(sha, s, e) == ChecksumInvalid && AfterSwitch(sha, s, e) == s
  {
    hide ChecksumsGet, BaseName, Parse, ExtraImages, CheckImages, ImagePath, FlashImages, FlashesFrom;
    if Checksum(sha, content) == Checksum(sha, data) {
      HexStringInjective(sha(content), sha(data));
      assert false;
    }
    CheckOfBoot(sha, s, e, content);
  }

  // ---------------------------------------------------------------------------
  // Saving
  // ---------------------------------------------------------------------------

  /**
   When a save succeeds and what it does: the device's content goes to the image file of the ROM and its checksum
   into the table; a save that fails leaves the table, and all other files stay in any case, as do the devices.
   */
  lemma SaveExactly(sha: Sha512, s: State, k: SetKernel)
    ensures var (s', ok) := AfterSave(sha, s, k);
            var path := "/data/media/0/MultiBoot" + "/" + k.id + "/" + "boot.img";
            && s'.devices == s.devices && s'.flashes == s.flashes
            && (ok <==> k.ready && k.readable && k.boot in s.devices && s.devices[k.boot] != [] && k.file.Complete?)
            && (ok ==> s'.files == s.files[path := s.devices[k.boot]])
            && (!ok ==> s'.table == s.table && s'.files - {path} == s.files - {path})
            && (!ok && !(k.ready && k.readable && k.boot in s.devices && s.devices[k.boot] != []) ==> s' == s)
  {
    hide StoredTable, Checksum;
    var path := ImagePath(k.id, "boot.img");
    if DeviceContent(s, k).Some? && k.file.Cut? {
      assert WithFile(s.files, path, k.file.left) - {path} == s.files - {path};
    }
  }

  /** The record a successful save leaves, and the ones it leaves alone. */
  lemma SaveRecords(sha: Sha512, s: State, k: SetKernel, id: string, name: string)
    requires AfterSave(sha, s, k).1 && CleanKey(k.id) && '/' !in name
    requires IsStored(SavedTable(sha, s, k, s.devices[k.boot]), k.table)
    ensures ChecksumsGet(TableOf(AfterSave(sha, s, k).0), id, name)
         == if id == k.id && name == "boot.img" then Found(HexString(sha(s.devices[k.boot]))) else ChecksumsGet(TableOf(s), id, name)
  {
    hide ImagePath, Parse, ChecksumsGet, StoredTable, IsStored, Clean, Record, Key, CleanKey, HexString;
    var content := s.devices[k.boot];
    TableIsClean(s);
    RecordedIsClean(sha, TableOf(s), k.id, "boot.img", content);
    StoredIsRead(AfterSave(sha, s, k).0, SavedTable(sha, s, k, content), k.table);
    KeyIsClean(k.id, "boot.img");
    GetAfterUpdate(TableOf(s), k.id, "boot.img", Checksum(sha, content), id, name);
  }
}
