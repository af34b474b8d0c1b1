/** Whole runs of kernel saves, ROM switches and outside edits of image files. */
module SwitcherRuns {
  import opened Bytes
  import opened PropertyFile
  import opened Switcher

  /** Anybody can change image files at any time; only the two operations touch devices and the checksum file. */
  datatype Event = Edit(path: string, content: Option<bytes>) | Save(save: SetKernel) | SwitchTo(switch: Switch)

  function Step(sha: Sha512, s: State, e: Event): State {
    match e
    case Edit(path, content) => s.(files := WithFile(s.files, path, content))
    case Save(save) => AfterSave(sha, s, save).0
    case SwitchTo(switch) => AfterSwitch(sha, s, switch)
  }

  function Run(sha: Sha512, s: State, es: seq<Event>): State
    decreases |es|
  {
    if es == [] then s else Run(sha, Step(sha, s, es[0]), es[1..])
  }

  // ---------------------------------------------------------------------------
  // What a check establishes
  // ---------------------------------------------------------------------------

  function RecordFor(props: Properties, id: string, f: Flashable): GetResult {
    ChecksumsGet(props, id, BaseName(f.image))
  }

  /** A record that the content does not meet. */
  predicate InvalidAgainst(sha: Sha512, record: GetResult, data: bytes) {
    record.Malformed? || (record.Found? && record.hash != Checksum(sha, data))
  }

  predicate IsInvalid(sha: Sha512, props: Properties, id: string, f: Flashable, content: Option<bytes>) {
    content.Some? && InvalidAgainst(sha, RecordFor(props, id, f), content.value)
  }

  predicate Fresh(fs: seq<Flashable>) {
    forall k :: 0 <= k < |fs| ==> fs[k].expectedHash == ""
  }

  /** Images that pass unforced hold what was read, and what was read meets the record if there is one. */
  lemma {:induction false} PassedImages(sha: Sha512, props: Properties, id: string, fs: seq<Flashable>, i: nat, contents: seq<Option<bytes>>)
    requires i <= |fs| && Fresh(fs) && CheckImages(sha, props, id, fs, i, contents, false).AllPassed?
    ensures var images := CheckImages(sha, props, id, fs, i, contents, false).images;
            forall k :: 0 <= k < |images| ==>
              && images[k].image == fs[i + k].image && images[k].blockDev == fs[i + k].blockDev
              && ReadAt(contents, i + k) == Some(images[k].data)
              && (images[k].expectedHash == "" ==> RecordFor(props, id, fs[i + k]).NotFound?)
              && (images[k].expectedHash != "" ==> RecordFor(props, id, fs[i + k]) == Found(Checksum(sha, images[k].data)))
    decreases |fs| - i
  {
    hide ChecksumsGet, Checksum, BaseName;
    if i < |fs| {
      PassedImages(sha, props, id, fs, i + 1, contents);
      var images := CheckImages(sha, props, id, fs, i, contents, false).images;
      var rest := CheckImages(sha, props, id, fs, i + 1, contents, false).images;
      assert images[1..] == rest;
      forall k | 1 <= k < |images| ensures images[k] == rest[k - 1] && i + k == i + 1 + (k - 1) {
        assert images[k] == images[1..][k - 1];
      }
    }
  }

  /** A forced switch records every image first, so none of them can be invalid or without a record. */
  lemma {:induction false} ForcedImages(sha: Sha512, props: Properties, id: string, fs: seq<Flashable>, i: nat, contents: seq<Option<bytes>>)
    requires i <= |fs|
    ensures match CheckImages(sha, props, id, fs, i, contents, true)
            case Stopped(result) => result == Failed
            case AllPassed(images, _) => !MissesRecord(images)
    decreases |fs| - i
  {
    hide ChecksumsGet, Checksum, BaseName;
    if i < |fs| && ReadAt(contents, i).Some? {
      var name := BaseName(fs[i].image);
      var hash := Checksum(sha, ReadAt(contents, i).value);
      var props' := props[Key(id, name) := Record(hash)];
      FoundExactly(props', id, name, hash);
      ForcedImages(sha, props', id, fs, i + 1, contents);
      assert hash != "";
    }
  }

  /** The loop stops at the first image that is unreadable or invalid, whichever comes first. */
  lemma {:induction false} StoppedExactly(sha: Sha512, props: Properties, id: string, fs: seq<Flashable>, i: nat, contents: seq<Option<bytes>>)
    requires i <= |fs|
    ensures var c := CheckImages(sha, props, id, fs, i, contents, false);
            && (c == Stopped(ChecksumInvalid) <==>
                  exists k :: i <= k < |fs| && IsInvalid(sha, props, id, fs[k], ReadAt(contents, k))
                              && forall j :: i <= j < k ==> ReadAt(contents, j).Some?)
            && (c.AllPassed? <==>
                  forall k :: i <= k < |fs| ==> ReadAt(contents, k).Some? && !IsInvalid(sha, props, id, fs[k], ReadAt(contents, k)))
            && (c.Stopped? ==> c.result in {ChecksumInvalid, Failed})
    decreases |fs| - i
  {
    hide ChecksumsGet, Checksum, BaseName;
    if i < |fs| {
      StoppedExactly(sha, props, id, fs, i + 1, contents);
    }
  }

  lemma ImagesAreFresh(e: Switch)
    ensures Fresh(ImagesOf(e))
  {
    ExtraImagesAreFresh(e.id, e.names, e.dirs, e.nodes);
  }

  lemma {:induction false} ExtraImagesAreFresh(id: string, names: seq<string>, dirs: seq<string>, nodes: set<string>)
    ensures Fresh(ExtraImages(id, names, dirs, nodes))
  {
    hide FindBlockDev, ImagePath;
    if names != [] {
      ExtraImagesAreFresh(id, names[1..], dirs, nodes);
    }
  }

  // ---------------------------------------------------------------------------
  // The outcome of a switch
  // ---------------------------------------------------------------------------

  predicate HasInvalid(sha: Sha512, s: State, e: Switch) {
    exists k :: 0 <= k < |ImagesOf(e)| && IsInvalid(sha, TableOf(s), e.id, ImagesOf(e)[k], ReadAt(e.contents, k))
                && forall j :: 0 <= j < k ==> ReadAt(e.contents, j).Some?
  }

  predicate AllReadable(e: Switch) {
    forall k :: 0 <= k < |ImagesOf(e)| ==> ReadAt(e.contents, k).Some?
  }

  predicate HasMissing(s: State, e: Switch) {
    exists k :: 0 <= k < |ImagesOf(e)| && RecordFor(TableOf(s), e.id, ImagesOf(e)[k]).NotFound?
  }

  /** The outcome of an unforced switch: a mismatch wins over a missing record, an unreadable image over what follows it. */
  lemma OutcomeExactly(sha: Sha512, s: State, e: Switch)
    requires e.ready && !e.force
    ensures ResultOf(sha, s, e) == ChecksumInvalid <==> HasInvalid(sha, s, e)
    ensures ResultOf(sha, s, e) == ChecksumNotFound <==> AllReadable(e) && !HasInvalid(sha, s, e) && HasMissing(s, e)
    ensures !AllReadable(e) && !HasInvalid(sha, s, e) ==> ResultOf(sha, s, e) == Failed
  {
    hide CheckImages, FlashImages, ImagesOf, Parse, IsInvalid, RecordFor;
    var fs, props := ImagesOf(e), TableOf(s);
    ImagesAreFresh(e);
    StoppedExactly(sha, props, e.id, fs, 0, e.contents);
    if CheckedImages(sha, props, e).AllPassed? {
      MissingExactly(sha, s, e);
    }
  }

  lemma MissingExactly(sha: Sha512, s: State, e: Switch)
    requires !e.force && CheckedImages(sha, TableOf(s), e).AllPassed?
    ensures MissesRecord(CheckedImages(sha, TableOf(s), e).images) <==> HasMissing(s, e)
  {
    hide CheckImages, ImagesOf, Parse, RecordFor;
    var fs, props := ImagesOf(e), TableOf(s);
    var images := CheckedImages(sha, props, e).images;
    ImagesAreFresh(e);
    PassedImages(sha, props, e.id, fs, 0, e.contents);
    forall k | 0 <= k < |images|
      ensures images[k].expectedHash == "" <==> RecordFor(props, e.id, fs[k]).NotFound?
    {
      assert images[k].image == fs[0 + k].image;
    }
  }

  lemma ForcedIsNeverRefused(sha: Sha512, s: State, e: Switch)
    requires e.force
    ensures ResultOf(sha, s, e) in {Succeeded, Failed}
  {
    hide CheckImages, FlashImages, ImagesOf, Parse;
    ForcedImages(sha, TableOf(s), e.id, ImagesOf(e), 0, e.contents);
  }

  /** A refused switch leaves no trace. */
  lemma RefusedTouchesNothing(sha: Sha512, s: State, e: Switch)
    requires ResultOf(sha, s, e) in {ChecksumInvalid, ChecksumNotFound}
    ensures AfterSwitch(sha, s, e) == s
  {
    hide CheckImages, FlashImages, ImagesOf, Parse, MissesRecord;
  }

  // ---------------------------------------------------------------------------
  // Every flash is checked
  // ---------------------------------------------------------------------------

  /** The written bytes are the ones whose digest the record spelled out. */
  predicate Verified(sha: Sha512, f: Flash) {
    f.record == Found(Checksum(sha, f.data))
  }

  predicate FlashesVerified(sha: Sha512, flashes: seq<Flash>) {
    forall k :: 0 <= k < |flashes| && !flashes[k].forced ==> Verified(sha, flashes[k])
  }

  /** The k-th write is that of the k-th image. */
  lemma {:induction false} FlashAt(table: Properties, devices: map<string, bytes>, e: Switch, images: seq<Flashable>, i: nat, k: nat)
    requires i <= |images| && k < |FlashesFrom(table, devices, e, images, i)|
    ensures FlashesFrom(table, devices, e, images, i)[k] == FlashOf(e, table, images[i + k], WriteAt(e.writes, i + k))
    decreases k
  {
    hide FlashOf, Written;
    if k > 0 {
      var f, w := images[i], WriteAt(e.writes, i);
      FlashAt(table, Written(devices, f.blockDev, f.data, w), e, images, i + 1, k - 1);
    }
  }

  /** Unforced, the switch writes exactly the bytes that were read, image by image, and each meets its record. */
  lemma SwitchFlashesVerified(sha: Sha512, s: State, e: Switch)
    requires !e.force
    ensures var added := AfterSwitch(sha, s, e).flashes[|s.flashes|..];
            && FlashesVerified(sha, added)
            && |added| <= |ImagesOf(e)|
            && forall k :: 0 <= k < |added| ==>
                 && added[k].dev == ImagesOf(e)[k].blockDev
                 && added[k].name == BaseName(ImagesOf(e)[k].image)
                 && ReadAt(e.contents, k) == Some(added[k].data)
  {
    hide CheckImages, FlashImages, ImagesOf, Parse, Written, BaseName, ChecksumsGet, Checksum;
    var fs, props := ImagesOf(e), TableOf(s);
    ImagesAreFresh(e);
    if e.ready && CheckedImages(sha, props, e).AllPassed? {
      PassedImages(sha, props, e.id, fs, 0, e.contents);
      var images := CheckedImages(sha, props, e).images;
      var added := FlashesFrom(props, s.devices, e, images, 0);
      forall k | 0 <= k < |added| && !MissesRecord(images)
        ensures Verified(sha, added[k]) && added[k].dev == fs[k].blockDev && added[k].name == BaseName(fs[k].image)
        ensures ReadAt(e.contents, k) == Some(added[k].data)
      {
        FlashAt(props, s.devices, e, images, 0, k);
        assert images[k].expectedHash != "" && images[k].image == fs[0 + k].image;
      }
    }
  }

  lemma ForcedFlashesAreMarked(sha: Sha512, s: State, e: Switch)
    requires e.force
    ensures var added := AfterSwitch(sha, s, e).flashes[|s.flashes|..];
            forall k :: 0 <= k < |added| ==> added[k].forced
  {
    hide CheckImages, FlashImages, ImagesOf, Parse, MissesRecord, FlashesFrom;
    if e.ready && CheckedImages(sha, TableOf(s), e).AllPassed? {
      var images := CheckedImages(sha, TableOf(s), e).images;
      var added := FlashesFrom(TableOf(s), s.devices, e, images, 0);
      forall k | 0 <= k < |added| ensures added[k].forced {
        FlashAt(TableOf(s), s.devices, e, images, 0, k);
      }
    }
  }

  lemma StepFlashes(sha: Sha512, s: State, e: Event)
    ensures s.flashes <= Step(sha, s, e).flashes
    ensures FlashesVerified(sha, Step(sha, s, e).flashes[|s.flashes|..])
  {
    hide CheckImages, FlashImages, FlashesFrom, ImagesOf, Parse, MissesRecord, Checksum, ChecksumsGet, BaseName, ImagePath;
    match e {
      case Edit(_, _) =>
      case Save(save) =>
      case SwitchTo(switch) =>
        if switch.force {
          ForcedFlashesAreMarked(sha, s, switch);
        } else {
          SwitchFlashesVerified(sha, s, switch);
        }
    }
  }

  /** In any run, every unforced flash wrote bytes that met the recorded checksum of that ROM and image. */
  lemma {:induction false} EveryFlashIsVerified(sha: Sha512, s: State, es: seq<Event>)
    ensures s.flashes <= Run(sha, s, es).flashes
    ensures FlashesVerified(sha, Run(sha, s, es).flashes[|s.flashes|..])
    decreases |es|
  {
    hide Step, Verified;
    if es != [] {
      var s' := Step(sha, s, es[0]);
      StepFlashes(sha, s, es[0]);
      EveryFlashIsVerified(sha, s', es[1..]);
      var all := Run(sha, s, es).flashes;
      assert all[|s.flashes|..] == s'.flashes[|s.flashes|..] + all[|s'.flashes|..];
    } else {
      assert s.flashes[|s.flashes|..] == [];
    }
  }

  // ---------------------------------------------------------------------------
  // Nothing else writes to devices
  // ---------------------------------------------------------------------------

  function Replay(devices: map<string, bytes>, flashes: seq<Flash>): map<string, bytes>
    decreases |flashes|
  {
    if flashes == [] then devices
    else Replay(Written(devices, flashes[0].dev, flashes[0].data, flashes[0].write), flashes[1..])
  }

  lemma {:induction false} ReplayConcat(devices: map<string, bytes>, a: seq<Flash>, b: seq<Flash>)
    ensures Replay(devices, a + b) == Replay(Replay(devices, a), b)
    decreases |a|
  {
    hide Written;
    if a == [] {
      assert a + b == b;
    } else {
      ReplayConcat(Written(devices, a[0].dev, a[0].data, a[0].write), a[1..], b);
      assert (a + b)[1..] == a[1..] + b;
    }
  }

  lemma {:induction false} FlashingIsReplay(table: Properties, devices: map<string, bytes>, e: Switch, images: seq<Flashable>, i: nat)
    requires i <= |images|
    ensures FlashImages(devices, images, i, e.writes).0 == Replay(devices, FlashesFrom(table, devices, e, images, i))
    decreases |images| - i
  {
    hide Written;
    if i < |images| {
      var f, w := images[i], WriteAt(e.writes, i);
      var devices' := Written(devices, f.blockDev, f.data, w);
      var flashes := FlashesFrom(table, devices, e, images, i);
      FlashingIsReplay(table, devices', e, images, i + 1);
      if f.blockDev in devices && w.Done? {
        assert flashes[1..] == FlashesFrom(table, devices', e, images, i + 1);
      } else {
        assert flashes[1..] == [];
      }
    }
  }

  lemma StepIsReplay(sha: Sha512, s: State, e: Event)
    ensures s.flashes <= Step(sha, s, e).flashes
    ensures Step(sha, s, e).devices == Replay(s.devices, Step(sha, s, e).flashes[|s.flashes|..])
  {
    hide CheckImages, FlashImages, ImagesOf, Parse, Written, MissesRecord;
    var added := Step(sha, s, e).flashes[|s.flashes|..];
    if e.SwitchTo? && e.switch.ready && CheckedImages(sha, TableOf(s), e.switch).AllPassed? {
      FlashingIsReplay(TableOf(s), s.devices, e.switch, CheckedImages(sha, TableOf(s), e.switch).images, 0);
    }
  }

  /** In any run, the devices hold what the recorded writes left in them: nothing else changes them. */
  lemma {:induction false} DevicesFollowFlashes(sha: Sha512, s: State, es: seq<Event>)
    ensures s.flashes <= Run(sha, s, es).flashes
    ensures Run(sha, s, es).devices == Replay(s.devices, Run(sha, s, es).flashes[|s.flashes|..])
    decreases |es|
  {
    hide Step, Written;
    if es != [] {
      var s' := Step(sha, s, es[0]);
      StepIsReplay(sha, s, es[0]);
      DevicesFollowFlashes(sha, s', es[1..]);
      var all := Run(sha, s, es).flashes;
      var now, later := s'.flashes[|s.flashes|..], all[|s'.flashes|..];
      assert all[|s.flashes|..] == now + later;
      ReplayConcat(s.devices, now, later);
    } else {
      assert s.flashes[|s.flashes|..] == [];
    }
  }
}
