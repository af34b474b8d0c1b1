/** What a forced switch is for: it records the checksums that later switches check. */
module ForcedSwitch {
  import opened Bytes
  import opened PropertyFile
  import opened Switcher
  import opened SwitcherRuns
  import opened KernelRestore

  // ---------------------------------------------------------------------------
  // The records
  // ---------------------------------------------------------------------------

  /** The checksum of what was read for the last image of that name, from the i-th image on. */
  function LastChecksum(sha: Sha512, fs: seq<Flashable>, i: nat, contents: seq<Option<bytes>>, name: string): Option<string>
    requires i <= |fs|
    decreases |fs| - i
  {
    if i == |fs| then None
    else if LastChecksum(sha, fs, i + 1, contents, name).Some? then LastChecksum(sha, fs, i + 1, contents, name)
    else if BaseName(fs[i].image) == name && ReadAt(contents, i).Some? then Some(HexString(sha(ReadAt(contents, i).value)))
    else None
  }

  lemma {:induction false} LastChecksumAt(sha: Sha512, fs: seq<Flashable>, i: nat, contents: seq<Option<bytes>>, name: string, k: nat)
    requires i <= k < |fs| && BaseName(fs[k].image) == name && ReadAt(contents, k).Some?
    requires forall j :: k < j < |fs| ==> BaseName(fs[j].image) != name
    ensures LastChecksum(sha, fs, i, contents, name) == Some(HexString(sha(ReadAt(contents, k).value)))
    decreases k - i
  {
    hide BaseName;
    if i < k {
      LastChecksumAt(sha, fs, i + 1, contents, name, k);
    } else {
      NoLaterChecksum(sha, fs, k + 1, contents, name);
    }
  }

  lemma {:induction false} NoLaterChecksum(sha: Sha512, fs: seq<Flashable>, i: nat, contents: seq<Option<bytes>>, name: string)
    requires i <= |fs| && forall j :: i <= j < |fs| ==> BaseName(fs[j].image) != name
    ensures LastChecksum(sha, fs, i, contents, name) == None
    decreases |fs| - i
  {
    hide BaseName;
    if i < |fs| {
      NoLaterChecksum(sha, fs, i + 1, contents, name);
    }
  }

  /** A forced check reads every image, records what it read, and leaves every other record. */
  lemma {:induction false} ForcedRecords(sha: Sha512, props: Properties, id: string, fs: seq<Flashable>, i: nat,
                                         contents: seq<Option<bytes>>, id': string, name: string)
    requires i <= |fs| && '/' !in name && Clean(props) && CleanKey(id)
    requires forall k :: i <= k < |fs| ==> BaseName(fs[k].image) in IMAGE_NAMES
    requires CheckImages(sha, props, id, fs, i, contents, true).AllPassed?
    ensures forall k :: i <= k < |fs| ==> ReadAt(contents, k).Some?
    ensures var props' := CheckImages(sha, props, id, fs, i, contents, true).props;
            var last := LastChecksum(sha, fs, i, contents, name);
            && Clean(props')
            && ChecksumsGet(props', id', name) == if id' == id && last.Some? then Found(last.value) else ChecksumsGet(props, id', name)
    decreases |fs| - i
  {
    hide ChecksumsGet, BaseName, Clean, CleanKey, Record, Key, HexString;
    if i < |fs| {
      var image, hash := BaseName(fs[i].image), Checksum(sha, ReadAt(contents, i).value);
      var props' := props[Key(id, image) := Record(hash)];
      KeyIsClean(id, image);
      RecordedIsClean(sha, props, id, image, ReadAt(contents, i).value);
      GetAfterUpdate(props, id, image, hash, id', name);
      ForcedRecords(sha, props', id, fs, i + 1, contents, id', name);
    }
  }

  lemma SuccessIsChecked(sha: Sha512, s: State, e: Switch)
    requires ResultOf(sha, s, e) == Succeeded
    ensures e.ready && CheckedImages(sha, TableOf(s), e).AllPassed?
  {
    hide Parse, CheckImages, ImagesOf, MissesRecord, FlashImages;
    if e.force {
      ForcedImages(sha, TableOf(s), e.id, ImagesOf(e), 0, e.contents);
    } else {
      StoppedExactly(sha, TableOf(s), e.id, ImagesOf(e), 0, e.contents);
    }
  }

  /** After a successful forced switch whose checksum file was written, each image has the checksum of what was read, and no other record changed. */
  lemma ForcedSwitchRecords(sha: Sha512, s: State, e: Switch, id': string, name: string)
    requires e.force && ResultOf(sha, s, e) == Succeeded && CleanKey(e.id) && '/' !in name
    requires IsStored(FinalTable(sha, s, e), e.table)
    ensures forall k :: 0 <= k < |ImagesOf(e)| ==> ReadAt(e.contents, k).Some?
    ensures var last := LastChecksum(sha, ImagesOf(e), 0, e.contents, name);
            ChecksumsGet(TableOf(AfterSwitch(sha, s, e)), id', name)
            == if id' == e.id && last.Some? then Found(last.value) else ChecksumsGet(TableOf(s), id', name)
  {
    hide Parse, ChecksumsGet, CheckImages, ImagesOf, MissesRecord, FlashImages, FlashesFrom, Clean, CleanKey, BaseName, LastChecksum, IsStored;
    ImageNames(e);
    TableIsClean(s);
    SuccessIsChecked(sha, s, e);
    ForcedRecords(sha, TableOf(s), e.id, ImagesOf(e), 0, e.contents, id', name);
    StoredIsRead(AfterSwitch(sha, s, e), FinalTable(sha, s, e), e.table);
  }

  // ---------------------------------------------------------------------------
  // Runs that leave the records of a ROM alone
  // ---------------------------------------------------------------------------

  /** Image files may change and other ROMs may be saved and switched to; checksum files are written completely. */
  predicate SparesRecords(sha: Sha512, s: State, e: Event, id: string) {
    match e
    case Edit(_, _) => true
    case Save(k) =>
      && k.id != id && CleanKey(k.id)
      && (DeviceContent(s, k).Some? && k.file.Complete? ==> IsStored(SavedTable(sha, s, k, DeviceContent(s, k).value), k.table))
    case SwitchTo(w) =>
      WritesTable(sha, s, w) ==> w.id != id && CleanKey(w.id) && IsStored(FinalTable(sha, s, w), w.table)
  }

  predicate Spared(sha: Sha512, s: State, es: seq<Event>, id: string)
    decreases |es|
  {
    es == [] || (SparesRecords(sha, s, es[0], id) && Spared(sha, Step(sha, s, es[0]), es[1..], id))
  }

  lemma SavesSpare(sha: Sha512, s: State, k: SetKernel, id: string, name: string)
    requires SparesRecords(sha, s, Save(k), id) && '/' !in name
    ensures ChecksumsGet(TableOf(AfterSave(sha, s, k).0), id, name) == ChecksumsGet(TableOf(s), id, name)
  {
    hide ImagePath, Parse, ChecksumsGet, Checksum, StoredTable, IsStored, Clean, Record, Key, CleanKey;
    if DeviceContent(s, k).Some? && k.file.Complete? {
      var content := DeviceContent(s, k).value;
      TableIsClean(s);
      RecordedIsClean(sha, TableOf(s), k.id, "boot.img", content);
      StoredIsRead(AfterSave(sha, s, k).0, SavedTable(sha, s, k, content), k.table);
      KeyIsClean(k.id, "boot.img");
      GetAfterUpdate(TableOf(s), k.id, "boot.img", Checksum(sha, content), id, name);
    }
  }

  lemma SwitchesSpare(sha: Sha512, s: State, w: Switch, id: string, name: string)
    requires SparesRecords(sha, s, SwitchTo(w), id) && '/' !in name
    ensures ChecksumsGet(TableOf(AfterSwitch(sha, s, w)), id, name) == ChecksumsGet(TableOf(s), id, name)
  {
    hide ImagePath, Parse, ChecksumsGet, Checksum, CheckImages, FlashImages, FlashesFrom, ImagesOf, MissesRecord, Clean, CleanKey, BaseName, IsStored;
    if WritesTable(sha, s, w) {
      ForcedSwitchRecords(sha, s, w, id, name);
    }
  }

  lemma {:induction false} FlashingKeepsDevices(devices: map<string, bytes>, images: seq<Flashable>, i: nat, writes: seq<Write>)
    requires i <= |images|
    ensures FlashImages(devices, images, i, writes).0.Keys == devices.Keys
    decreases |images| - i
  {
    hide Overwritten;
    if i < |images| {
      FlashingKeepsDevices(Written(devices, images[i].blockDev, images[i].data, WriteAt(writes, i)), images, i + 1, writes);
    }
  }

  lemma StepSpares(sha: Sha512, s: State, e: Event, id: string, name: string)
    requires SparesRecords(sha, s, e, id) && '/' !in name
    ensures ChecksumsGet(TableOf(Step(sha, s, e)), id, name) == ChecksumsGet(TableOf(s), id, name)
    ensures Step(sha, s, e).devices.Keys == s.devices.Keys
  {
    hide ImagePath, Parse, ChecksumsGet, Checksum, CheckImages, FlashImages, FlashesFrom, ImagesOf, MissesRecord, CleanKey, BaseName, StoredTable, SparesRecords;
    match e {
      case Edit(_, _) =>
      case Save(k) => SavesSpare(sha, s, k, id, name);
      case SwitchTo(w) =>
        SwitchesSpare(sha, s, w, id, name);
        if w.ready && CheckedImages(sha, TableOf(s), w).AllPassed? {
          FlashingKeepsDevices(s.devices, CheckedImages(sha, TableOf(s), w).images, 0, w.writes);
        }
    }
  }

  lemma {:induction false} RunSpares(sha: Sha512, s: State, es: seq<Event>, id: string, name: string)
    requires Spared(sha, s, es, id) && '/' !in name
    ensures ChecksumsGet(TableOf(Run(sha, s, es)), id, name) == ChecksumsGet(TableOf(s), id, name)
    ensures Run(sha, s, es).devices.Keys == s.devices.Keys
    decreases |es|
  {
    hide Step, SparesRecords, ChecksumsGet, TableOf;
    if es != [] {
      StepSpares(sha, s, es[0], id, name);
      RunSpares(sha, Step(sha, s, es[0]), es[1..], id, name);
    }
  }

  // ---------------------------------------------------------------------------
  // Forced, then unforced
  // ---------------------------------------------------------------------------

  /** Every image is readable and meets its record. */
  predicate AllMeet(sha: Sha512, props: Properties, e: Switch) {
    forall k :: 0 <= k < |ImagesOf(e)| ==>
      ReadAt(e.contents, k).Some?
      && ChecksumsGet(props, e.id, BaseName(ImagesOf(e)[k].image)) == Found(HexString(sha(ReadAt(e.contents, k).value)))
  }

  lemma AllMeetPass(sha: Sha512, s: State, e: Switch)
    requires !e.force && AllMeet(sha, TableOf(s), e)
    ensures var c := CheckedImages(sha, TableOf(s), e);
            && c.AllPassed? && |c.images| == |ImagesOf(e)| && !MissesRecord(c.images)
            && forall k :: 0 <= k < |c.images| ==> c.images[k].blockDev == ImagesOf(e)[k].blockDev
  {
    hide CheckImages, ImagesOf, Parse, ChecksumsGet, BaseName, HexString;
    var fs, props := ImagesOf(e), TableOf(s);
    ImagesAreFresh(e);
    StoppedExactly(sha, props, e.id, fs, 0, e.contents);
    assert forall k :: 0 <= k < |fs| ==> !IsInvalid(sha, props, e.id, fs[k], ReadAt(e.contents, k));
    PassedImages(sha, props, e.id, fs, 0, e.contents);
    var images := CheckedImages(sha, props, e).images;
    forall k | 0 <= k < |images| ensures images[k].expectedHash != "" && images[k].blockDev == fs[k].blockDev {
      assert images[k].blockDev == fs[0 + k].blockDev;
      assert RecordFor(props, e.id, fs[0 + k]).Found?;
    }
  }

  lemma {:induction false} CompleteWritesFlash(devices: map<string, bytes>, images: seq<Flashable>, i: nat, writes: seq<Write>)
    requires i <= |images| && forall k :: i <= k < |images| ==> images[k].blockDev in devices && WriteAt(writes, k) == Done
    ensures FlashImages(devices, images, i, writes).1
    decreases |images| - i
  {
    hide Overwritten;
    if i < |images| {
      CompleteWritesFlash(Written(devices, images[i].blockDev, images[i].data, Done), images, i + 1, writes);
    }
  }

  lemma {:induction false} FlashedDevicesExist(devices: map<string, bytes>, images: seq<Flashable>, i: nat, writes: seq<Write>)
    requires i <= |images| && FlashImages(devices, images, i, writes).1
    ensures forall k :: i <= k < |images| ==> images[k].blockDev in devices
    decreases |images| - i
  {
    hide Overwritten;
    if i < |images| {
      FlashedDevicesExist(Written(devices, images[i].blockDev, images[i].data, WriteAt(writes, i)), images, i + 1, writes);
    }
  }

  lemma {:induction false} CheckedDevices(sha: Sha512, props: Properties, id: string, fs: seq<Flashable>, i: nat, contents: seq<Option<bytes>>, force: bool)
    requires i <= |fs| && CheckImages(sha, props, id, fs, i, contents, force).AllPassed?
    ensures var images := CheckImages(sha, props, id, fs, i, contents, force).images;
            forall k :: 0 <= k < |images| ==> images[k].blockDev == fs[i + k].blockDev
    decreases |fs| - i
  {
    hide ChecksumsGet, Checksum, BaseName;
    if i < |fs| {
      var name := BaseName(fs[i].image);
      var props' := CheckImage(sha, props, id, fs[i], ReadAt(contents, i), force).props;
      CheckedDevices(sha, props', id, fs, i + 1, contents, force);
      var images := CheckImages(sha, props, id, fs, i, contents, force).images;
      var rest := CheckImages(sha, props', id, fs, i + 1, contents, force).images;
      assert images[1..] == rest;
      forall k | 1 <= k < |images| ensures images[k] == rest[k - 1] && i + k == i + 1 + (k - 1) {
        assert images[k] == images[1..][k - 1];
      }
    }
  }

  /** The two switches look for the same images and read the same, and no image name is listed twice. */
  predicate SameImages(e: Switch, later: Switch) {
    && later.id == e.id && ImagesOf(later) == ImagesOf(e)
    && (forall k :: 0 <= k < |ImagesOf(e)| ==> ReadAt(later.contents, k) == ReadAt(e.contents, k))
    && (forall i, j :: 0 <= i < j < |ImagesOf(e)| ==> BaseName(ImagesOf(e)[i].image) != BaseName(ImagesOf(e)[j].image))
  }

  /**
   A forced switch makes images known: once it has succeeded and written its checksum file, an unforced switch to
   the same images succeeds, whatever happened to other ROMs in between, if its writes are complete.
   */
  lemma ForcedThenUnforced(sha: Sha512, s: State, e: Switch, es: seq<Event>, later: Switch)
    requires e.force && ResultOf(sha, s, e) == Succeeded && CleanKey(e.id) && IsStored(FinalTable(sha, s, e), e.table)
    requires Spared(sha, AfterSwitch(sha, s, e), es, e.id)
    requires SameImages(e, later) && later.ready && !later.force
    requires forall k :: 0 <= k < |ImagesOf(later)| ==> WriteAt(later.writes, k) == Done
    ensures ResultOf(sha, Run(sha, AfterSwitch(sha, s, e), es), later) == Succeeded
  {
    hide Parse, ChecksumsGet, CheckImages, ImagesOf, MissesRecord, FlashImages, CleanKey, BaseName, LastChecksum, IsStored, Spared, AfterSwitch,
         ResultOf, Run, HexString;
    var after := AfterSwitch(sha, s, e);
    var s2 := Run(sha, after, es);
    var fs := ImagesOf(e);
    ImageNames(e);
    forall k | 0 <= k < |fs|
      ensures ReadAt(e.contents, k).Some?
              && ChecksumsGet(TableOf(s2), e.id, BaseName(fs[k].image)) == Found(HexString(sha(ReadAt(e.contents, k).value)))
    {
      var name := BaseName(fs[k].image);
      ForcedSwitchRecords(sha, s, e, e.id, name);
      LastChecksumAt(sha, fs, 0, e.contents, name, k);
      RunSpares(sha, after, es, e.id, name);
    }
    RunSpares(sha, after, es, e.id, "boot.img");
    DevicesAreThere(sha, s, e);
    AllMeetPass(sha, s2, later);
    UnforcedSucceeds(sha, s2, later);
  }

  lemma DevicesAreThere(sha: Sha512, s: State, e: Switch)
    requires ResultOf(sha, s, e) == Succeeded
    ensures forall k :: 0 <= k < |ImagesOf(e)| ==> ImagesOf(e)[k].blockDev in AfterSwitch(sha, s, e).devices
  {
    hide Parse, CheckImages, ImagesOf, MissesRecord, FlashesFrom, StoredTable;
    SuccessIsChecked(sha, s, e);
    var images := CheckedImages(sha, TableOf(s), e).images;
    CheckedDevices(sha, TableOf(s), e.id, ImagesOf(e), 0, e.contents, e.force);
    FlashedDevicesExist(s.devices, images, 0, e.writes);
    FlashingKeepsDevices(s.devices, images, 0, e.writes);
    forall k | 0 <= k < |ImagesOf(e)| ensures ImagesOf(e)[k].blockDev in AfterSwitch(sha, s, e).devices {
      assert images[k].blockDev == ImagesOf(e)[0 + k].blockDev;
    }
  }

  lemma UnforcedSucceeds(sha: Sha512, s: State, e: Switch)
    requires e.ready && !e.force && CheckedImages(sha, TableOf(s), e).AllPassed?
    requires var images := CheckedImages(sha, TableOf(s), e).images;
             !MissesRecord(images)
             && forall k :: 0 <= k < |images| ==> images[k].blockDev in s.devices && WriteAt(e.writes, k) == Done
    ensures ResultOf(sha, s, e) == Succeeded
  {
    hide Parse, CheckImages, ImagesOf, MissesRecord, FlashImages;
    CompleteWritesFlash(s.devices, CheckedImages(sha, TableOf(s), e).images, 0, e.writes);
  }
}
