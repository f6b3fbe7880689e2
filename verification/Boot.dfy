/** The loader: which slot it boots, how it repairs the boot state, and the version floor. */
module Boot {
  import opened Bytes
  import opened Wrappers
  import opened UpdateFormat

  datatype FileName = State0 | State1 | Kernel(slot: SystemSlot) | Signed(slot: SystemSlot)

  type Image = map<FileName, seq<byte>>

  /** Whether a kernel matches its manifest: size, hash, key, signature, layout and staging. */
  type Verdict = (seq<byte>, Manifest) -> bool

  /** What is handed to the kernel: the slot, its release, the generation of the boot state
      it is recorded under, and whether the loader had to recover. */
  datatype Booted = Booted(slot: SystemSlot, version: u64, kernel: seq<byte>, generation: u64, recovery: bool)

  function StateIn(image: Image, f: FileName): Option<BootState>
  {
    if f in image && DecodeBootState(image[f]).Ok? then Some(DecodeBootState(image[f]).value) else None
  }

  /** The newer of two readings; the first one wins a tie. */
  function Newer(a: Option<BootState>, b: Option<BootState>): Option<BootState>
  {
    if a.None? || (b.Some? && b.value.generation > a.value.generation) then b else a
  }

  function Latest(image: Image): Option<BootState>
  {
    Newer(StateIn(image, State0), StateIn(image, State1))
  }

  /** Odd generations live in the first file, even ones in the second. */
  function StateFile(generation: nat): FileName
  {
    if generation % 2 == 1 then State0 else State1
  }

  /** The version of the release in a slot, if it passes every check but the floor. */
  function Release(authentic: Verdict, image: Image, slot: SystemSlot): (r: Option<u64>)
    ensures r.Some? ==> r.value > 0 && Kernel(slot) in image
  {
    if Kernel(slot) !in image || Signed(slot) !in image then None
    else
      var m := DecodeManifest(image[Signed(slot)]);
      if m.Err? || !authentic(image[Kernel(slot)], m.value) then None else Some(m.value.version)
  }

  // ----- What a boot does when nothing fails underneath it

  /** Loading a slot: the accepted release, if any, and the floor afterwards. */
  function Attempt(release: Option<u64>, floor: nat): (Option<u64>, nat)
  {
    if release.None? || release.value < floor then (None, floor) else (release, release.value)
  }

  /** The boot state after a fallback, one generation on while there is one. */
  function NextGeneration(g: u64): u64
  {
    if g + 1 < U64_LIMIT then g + 1 else g
  }

  function BootActive(authentic: Verdict, image: Image, floor: nat, s: BootState): (Option<Booted>, nat)
  {
    var (first, floor1) := Attempt(Release(authentic, image, s.active), floor);
    if first == Some(s.version) then
      (Some(Booted(s.active, s.version, image[Kernel(s.active)], s.generation, false)), floor1)
    else
      var other := Other(s.active);
      var (second, floor2) := Attempt(Release(authentic, image, other), floor1);
      if second.None? then (None, floor2)
      else (Some(Booted(other, second.value, image[Kernel(other)], NextGeneration(s.generation), true)), floor2)
  }

  /** Which of two loaded slots is taken: the newer release, and slot A for equal ones. */
  function Pick(a: Option<u64>, b: Option<u64>): Option<(SystemSlot, u64)>
  {
    if b.Some? && (a.None? || b.value > a.value) then Some((B, b.value))
    else if a.Some? then Some((A, a.value))
    else None
  }

  /** Without a boot state both slots are loaded and the newer release is taken. */
  function BootScan(authentic: Verdict, image: Image, floor: nat): (Option<Booted>, nat)
  {
    var (a, floor1) := Attempt(Release(authentic, image, A), floor);
    var (b, floor2) := Attempt(Release(authentic, image, B), floor1);
    var pick := Pick(a, b);
    if pick.None? then (None, floor2)
    else (Some(Booted(pick.value.0, pick.value.1, image[Kernel(pick.value.0)], 2, true)), floor2)
  }

  function BootOutcome(authentic: Verdict, image: Image, floor: nat): (Option<Booted>, nat)
  {
    if Latest(image).Some? then BootActive(authentic, image, floor, Latest(image).value)
    else BootScan(authentic, image, floor)
  }

  /** Both boot states written afresh for one slot. */
  function Repaired(image: Image, slot: SystemSlot, version: u64): Image
  {
    image[State0 := BootBytes(BootState(1, slot, version))][State1 := BootBytes(BootState(2, slot, version))]
  }

  /** A boot state one generation on, for the slot that worked. */
  function Persisted(image: Image, s: BootState, slot: SystemSlot, version: u64): Image
    requires s.generation + 1 < U64_LIMIT
  {
    image[StateFile(s.generation + 1) := BootBytes(BootState(s.generation + 1, slot, version))]
  }

  /** The disk after a boot: a recovery leaves a new boot state, a direct boot leaves it alone. */
  function AfterBoot(authentic: Verdict, image: Image, floor: nat): Image
  {
    var r := BootOutcome(authentic, image, floor).0;
    if r.None? || !r.value.recovery then image
    else if Latest(image).None? then Repaired(image, r.value.slot, r.value.version)
    else if Latest(image).value.generation + 1 < U64_LIMIT then
      Persisted(image, Latest(image).value, r.value.slot, r.value.version)
    else image
  }

  /** The newest boot state names a slot whose release is the one it promises and which
      the floor admits. */
  predicate Bootable(authentic: Verdict, image: Image, floor: nat)
  {
    && Latest(image).Some?
    && Release(authentic, image, Latest(image).value.active) == Some(Latest(image).value.version)
    && floor <= Latest(image).value.version
  }

  /** In addition the newest state sits in the file its generation belongs to. */
  predicate Healthy(authentic: Verdict, image: Image, floor: nat)
  {
    Bootable(authentic, image, floor) && StateIn(image, StateFile(Latest(image).value.generation)) == Latest(image)
  }

  /** A boot is direct, without recovery, exactly when the image is bootable. */
  lemma DirectBoot(authentic: Verdict, image: Image, floor: nat)
    ensures var (r, after) := BootOutcome(authentic, image, floor);
      (r.Some? && !r.value.recovery) <==> Bootable(authentic, image, floor)
    ensures Bootable(authentic, image, floor) ==>
      var s := Latest(image).value;
      && BootOutcome(authentic, image, floor) ==
         (Some(Booted(s.active, s.version, image[Kernel(s.active)], s.generation, false)), s.version)
      && AfterBoot(authentic, image, floor) == image
  {
    hide Latest, Release;
  }

  /** Whether a boot succeeds at all, in terms of the two slots and the floor. A release that
      does not match its boot state raises the floor before it is turned down, so it can
      shut out the other slot. */
  lemma BootSucceedsIff(authentic: Verdict, image: Image, floor: nat)
    ensures var (r, _) := BootOutcome(authentic, image, floor);
      var a, b := Release(authentic, image, A), Release(authentic, image, B);
      Latest(image).None? ==>
        (r.Some? <==> (a.Some? && a.value >= floor) || (b.Some? && b.value >= floor))
    ensures var (r, _) := BootOutcome(authentic, image, floor);
      Latest(image).Some? ==>
        var s := Latest(image).value;
        var active, other := Release(authentic, image, s.active), Release(authentic, image, Other(s.active));
        r.Some? <==>
          Bootable(authentic, image, floor)
          || (other.Some? && other.value >= floor
              && (active.None? || active.value < floor || other.value >= active.value))
  {
    hide Latest, Release;
  }

  /** The newest boot state is one of the two files' and no older than either; the first file
      wins a tie. There is none exactly if neither file holds one. */
  lemma LatestIsNewest(image: Image)
    ensures var a, b, r := StateIn(image, State0), StateIn(image, State1), Latest(image);
      && (r.None? <==> a.None? && b.None?)
      && (r.Some? ==> r == a || r == b)
      && (a.Some? ==> r.Some? && a.value.generation <= r.value.generation)
      && (b.Some? ==> r.Some? && b.value.generation <= r.value.generation)
      && (a.Some? && r.value.generation == a.value.generation ==> r == a)
  {
  }

  /** Without a boot state the newest release that the floor admits is booted, and that of
      slot A if both are equally new. The boot states are written afresh for it. */
  lemma ScanTakesNewest(authentic: Verdict, image: Image, floor: nat)
    requires Latest(image).None?
    ensures var (r, after) := BootOutcome(authentic, image, floor);
      var a, b := Release(authentic, image, A), Release(authentic, image, B);
      var goodA, goodB := a.Some? && a.value >= floor, b.Some? && b.value >= floor;
      && (r.Some? <==> goodA || goodB)
      && (goodA && (goodB ==> a.value >= b.value) ==>
            r == Some(Booted(A, a.value, image[Kernel(A)], 2, true)) && after == a.value)
      && (goodB && (goodA ==> b.value > a.value) ==>
            r == Some(Booted(B, b.value, image[Kernel(B)], 2, true)) && after == b.value)
      && (r.None? ==> after == floor)
  {
    hide Latest, Release;
  }

  /** With a boot state the loader takes its slot if that holds the release it promises, and
      the other slot otherwise; nothing else is ever booted. */
  lemma ActiveOrOther(authentic: Verdict, image: Image, floor: nat)
    requires Latest(image).Some?
    ensures var (r, after) := BootOutcome(authentic, image, floor);
      var s := Latest(image).value;
      var other := Release(authentic, image, Other(s.active));
      && (r.Some? ==> r.value.slot == if Bootable(authentic, image, floor) then s.active else Other(s.active))
      && (r.Some? && !Bootable(authentic, image, floor) ==>
            other == Some(r.value.version) && r.value.generation == NextGeneration(s.generation) && r.value.recovery)
  {
    hide Latest, Release;
  }

  /** A release depends only on the files of its slot. */
  lemma SlotsUntouched(authentic: Verdict, before: Image, after: Image, slot: SystemSlot)
    requires SameExcept(before, after, {State0, State1})
    ensures Release(authentic, after, slot) == Release(authentic, before, slot)
  {
    assert Kernel(slot) in before <==> Kernel(slot) in after;
    assert Signed(slot) in before <==> Signed(slot) in after;
  }

  lemma RepairedIsLatest(image: Image, slot: SystemSlot, version: u64)
    requires version > 0
    ensures Latest(Repaired(image, slot, version)) == Some(BootState(2, slot, version))
    ensures StateIn(Repaired(image, slot, version), State1) == Some(BootState(2, slot, version))
  {
    hide DecodeBootState, BootBytes;
    BootStateRoundTrip(BootState(1, slot, version));
    BootStateRoundTrip(BootState(2, slot, version));
  }

  lemma PersistedIsLatest(image: Image, s: BootState, slot: SystemSlot, version: u64)
    requires Latest(image) == Some(s) && s.generation + 1 < U64_LIMIT && version > 0
    ensures Latest(Persisted(image, s, slot, version)) == Some(BootState(s.generation + 1, slot, version))
    ensures StateIn(Persisted(image, s, slot, version), StateFile(s.generation + 1)) ==
      Some(BootState(s.generation + 1, slot, version))
  {
    hide DecodeBootState, BootBytes;
    BootStateRoundTrip(BootState(s.generation + 1, slot, version));
  }

  /** A successful boot takes a checked release, which is the floor from then on. */
  lemma BootedIsRelease(authentic: Verdict, image: Image, floor: nat)
    ensures var (r, after) := BootOutcome(authentic, image, floor);
      r.Some? ==>
        && Release(authentic, image, r.value.slot) == Some(r.value.version) && after == r.value.version
        && r.value.kernel == image[Kernel(r.value.slot)]
        && r.value.generation ==
           if Latest(image).None? then 2
           else if r.value.recovery then NextGeneration(Latest(image).value.generation)
           else Latest(image).value.generation
  {
    hide Latest, Release;
  }

  lemma AfterBootSlots(authentic: Verdict, image: Image, floor: nat)
    ensures SameExcept(image, AfterBoot(authentic, image, floor), {State0, State1})
  {
    hide BootOutcome, Latest, BootBytes;
  }

  /** The boot state has the very last generation, so a fallback cannot be recorded. */
  predicate Exhausted(image: Image)
  {
    Latest(image).Some? && Latest(image).value.generation + 1 == U64_LIMIT
  }

  /** A boot that fell back and could not record it does the same again. */
  lemma FallsBackAgain(authentic: Verdict, image: Image, floor: nat)
    requires Exhausted(image)
    ensures var (r, after) := BootOutcome(authentic, image, floor);
      r.Some? && r.value.recovery ==>
        && !Bootable(authentic, image, after)
        && BootOutcome(authentic, image, after) == (r, after)
  {
    hide Latest, Release;
  }

  /** After a boot that succeeded, by whatever path, the next boot takes the same slot. It
      does so directly, except exactly after a fallback at the very last generation. */
  lemma NextBootIsDirect(authentic: Verdict, image: Image, floor: nat)
    ensures var (r, after) := BootOutcome(authentic, image, floor);
      r.Some? ==>
        var next := AfterBoot(authentic, image, floor);
        var again := r.value.recovery && Exhausted(image);
        && BootOutcome(authentic, next, after) == (Some(r.value.(recovery := again)), after)
        && (Bootable(authentic, next, after) <==> !again)
        && (r.value.recovery && !again ==> Healthy(authentic, next, after))
  {
    hide Latest, Release, StateIn, BootOutcome;
    var (r, after) := BootOutcome(authentic, image, floor);
    if r.Some? {
      var next := AfterBoot(authentic, image, floor);
      AfterBootSlots(authentic, image, floor);
      BootedIsRelease(authentic, image, floor);
      SlotsUntouched(authentic, image, next, r.value.slot);
      DirectBoot(authentic, image, floor);
      if r.value.recovery && Exhausted(image) {
        FallsBackAgain(authentic, image, floor);
        return;
      }
      if r.value.recovery && Latest(image).None? {
        RepairedIsLatest(image, r.value.slot, r.value.version);
      } else if r.value.recovery {
        PersistedIsLatest(image, Latest(image).value, r.value.slot, r.value.version);
      }
      DirectBoot(authentic, next, after);
      assert next[Kernel(r.value.slot)] == image[Kernel(r.value.slot)];
    }
  }

  // ----- One boot on a platform where anything may fail

  /** The two images agree on every file outside `names`. */
  ghost predicate SameExcept(before: Image, after: Image, names: set<FileName>)
  {
    forall f :: f !in names ==> (f in before <==> f in after) && (f in before ==> before[f] == after[f])
  }

  /** A write that did not complete: only file `f` may have changed. A boot state is left as
      it was, or in pieces that do not pass its check. */
  ghost predicate Torn(before: Image, f: FileName, after: Image)
  {
    && SameExcept(before, after, {f})
    && (f.State0? || f.State1? ==> StateIn(after, f) == None || StateIn(after, f) == StateIn(before, f))
  }

  /** A boot state was written, in full or not. */
  ghost predicate MayWrite(before: Image, f: FileName, s: BootState, after: Image)
  {
    after == before[f := BootBytes(s)] || Torn(before, f, after)
  }

  /** Any of the two files may be unreadable. */
  ghost predicate MayRead(image: Image, s: Option<BootState>)
  {
    s.None? || s == StateIn(image, State0) || s == StateIn(image, State1)
  }

  /** A slot may fail to load at any point: before the floor is looked at, or after it was
      raised, when the trust root cannot be updated. */
  ghost predicate MayLoad(authentic: Verdict, image: Image, slot: SystemSlot, floor: nat, r: Option<u64>, after: nat)
  {
    || (r.None? && after == floor)
    || (Release(authentic, image, slot) == Some(after) && floor <= after && (r.None? || r == Some(after)))
  }

  ghost predicate MayRepair(before: Image, slot: SystemSlot, version: u64, ok: bool, after: Image)
  {
    if ok then after == Repaired(before, slot, version)
    else exists middle ::
           MayWrite(before, State0, BootState(1, slot, version), middle)
           && (after == middle || MayWrite(middle, State1, BootState(2, slot, version), after))
  }

  ghost predicate MayPersist(before: Image, s: BootState, slot: SystemSlot, version: u64, ok: bool, after: Image)
  {
    if s.generation + 1 >= U64_LIMIT then !ok && after == before
    else if ok then after == Persisted(before, s, slot, version)
    else MayWrite(before, StateFile(s.generation + 1), BootState(s.generation + 1, slot, version), after)
  }

  /** A boot that found no boot state. */
  ghost predicate ScanPath(authentic: Verdict, before: (Image, nat), booted: Option<Booted>, after: (Image, nat),
                           first: Option<u64>, middle: nat, second: Option<u64>, repaired: bool)
  {
    && MayLoad(authentic, before.0, A, before.1, first, middle)
    && MayLoad(authentic, before.0, B, middle, second, after.1)
    && var pick := Pick(first, second);
       if pick.None? then booted.None? && after.0 == before.0
       else
         var (slot, version) := pick.value;
         && booted == Some(Booted(slot, version, before.0[Kernel(slot)], if repaired then 2 else 0, true))
         && MayRepair(before.0, slot, version, repaired, after.0)
  }

  /** A boot that found the boot state `s`. */
  ghost predicate ActivePath(authentic: Verdict, before: (Image, nat), booted: Option<Booted>, after: (Image, nat),
                             s: BootState, first: Option<u64>, middle: nat, second: Option<u64>, persisted: bool)
  {
    && MayLoad(authentic, before.0, s.active, before.1, first, middle)
    && if first == Some(s.version) then
         && booted == Some(Booted(s.active, s.version, before.0[Kernel(s.active)], s.generation, false))
         && after == (before.0, middle)
       else
         && MayLoad(authentic, before.0, Other(s.active), middle, second, after.1)
         && if second.None? then booted.None? && after.0 == before.0
            else
              var generation := if persisted then NextGeneration(s.generation) else s.generation;
              var slot := Other(s.active);
              && booted == Some(Booted(slot, second.value, before.0[Kernel(slot)], generation, true))
              && MayPersist(before.0, s, slot, second.value, persisted, after.0)
  }

  /** One boot, whatever the image holds and whatever reads, writes and updates of the trust
      root fail. */
  ghost predicate MayBoot(authentic: Verdict, before: (Image, nat), booted: Option<Booted>, after: (Image, nat))
  {
    || (exists first, middle, second, repaired ::
          ScanPath(authentic, before, booted, after, first, middle, second, repaired))
    || (exists s, first, middle, second, persisted ::
          MayRead(before.0, Some(s))
          && ActivePath(authentic, before, booted, after, s, first, middle, second, persisted))
  }

  // ----- The version floor

  /** The floor never falls, and a booted release lies between its old and its new value. */
  ghost predicate FloorStep(before: nat, booted: Option<nat>, after: nat)
  {
    before <= after && (booted.Some? ==> before <= booted.value <= after)
  }

  function VersionOf(r: Option<Booted>): Option<nat>
  {
    if r.Some? then Some(r.value.version) else None
  }

  /** Every boot moves the floor up at most, never past what it booted from below, and boots
      only a release of the image that passed every check. */
  lemma BootKeepsFloor(authentic: Verdict, before: (Image, nat), booted: Option<Booted>, after: (Image, nat))
    requires MayBoot(authentic, before, booted, after)
    ensures FloorStep(before.1, VersionOf(booted), after.1)
    ensures booted.Some? ==> Release(authentic, before.0, booted.value.slot) == Some(booted.value.version)
    ensures booted.Some? ==> booted.value.kernel == before.0[Kernel(booted.value.slot)]
    ensures SameExcept(before.0, after.0, {State0, State1})
  {
    hide Release, StateIn, BootBytes;
  }

  /** Boots one after the other: the floor is kept between them, and between two boots the
      image and even the trusted keys may become anything. */
  ghost predicate BootHistory(verdicts: seq<Verdict>, starts: seq<(Image, nat)>, booted: seq<Option<Booted>>,
                              ends: seq<(Image, nat)>)
  {
    && |verdicts| == |starts| == |booted| == |ends|
    && (forall i :: 0 <= i < |starts| ==> MayBoot(verdicts[i], starts[i], booted[i], ends[i]))
    && (forall i :: 0 < i < |starts| ==> starts[i].1 == ends[i - 1].1)
  }

  lemma {:induction false} FloorsRise(verdicts: seq<Verdict>, starts: seq<(Image, nat)>, booted: seq<Option<Booted>>,
                                      ends: seq<(Image, nat)>, i: nat, j: nat)
    requires BootHistory(verdicts, starts, booted, ends) && i < j < |starts|
    ensures ends[i].1 <= starts[j].1
    decreases j
  {
    hide MayBoot;
    if i + 1 < j {
      FloorsRise(verdicts, starts, booted, ends, i, j - 1);
      BootKeepsFloor(verdicts[j - 1], starts[j - 1], booted[j - 1], ends[j - 1]);
    }
  }

  /** Over any sequence of boots, with anything on the disk and anything failing, the booted
      versions never go down, and none is below a floor that was ever reached before. */
  lemma VersionsNeverFall(verdicts: seq<Verdict>, starts: seq<(Image, nat)>, booted: seq<Option<Booted>>,
                          ends: seq<(Image, nat)>, i: nat, j: nat)
    requires BootHistory(verdicts, starts, booted, ends) && i < j < |booted| && booted[j].Some?
    ensures booted[i].Some? ==> booted[i].value.version <= booted[j].value.version
    ensures ends[i].1 <= booted[j].value.version
  {
    hide MayBoot, Release;
    FloorsRise(verdicts, starts, booted, ends, i, j);
    BootKeepsFloor(verdicts[i], starts[i], booted[i], ends[i]);
    BootKeepsFloor(verdicts[j], starts[j], booted[j], ends[j]);
  }

  lemma PickLoaded(authentic: Verdict, image: Image, floor: nat, a: Option<u64>, middle: nat, b: Option<u64>,
                   after: nat)
    requires MayLoad(authentic, image, A, floor, a, middle) && MayLoad(authentic, image, B, middle, b, after)
    ensures var pick := Pick(a, b);
      pick.Some? ==> pick.value.1 > 0 && Kernel(pick.value.0) in image
  {
    hide DecodeManifest;
  }

  lemma RepairIs(before: Image, after: Image, r: Option<Booted>, repaired: bool)
    requires repaired && r.Some? ==> MayRepair(before, r.value.slot, r.value.version, true, after)
    ensures repaired && r.Some? ==> after == Repaired(before, r.value.slot, r.value.version)
  {
  }

  // ----- The loader itself

  /** Firmware and disk as the loader and the updater see them. Unless declared to work, any
      read and any write may fail; a failed write may leave its file in pieces. */
  class Platform {
    var image: Image
    var floor: nat
    const authentic: Verdict
    const readsWork: bool
    const writesWork: bool

    constructor (image: Image, floor: nat, authentic: Verdict, readsWork: bool, writesWork: bool)
      ensures this.image == image && this.floor == floor && this.authentic == authentic
      ensures this.readsWork == readsWork && this.writesWork == writesWork
    {
      this.image := image;
      this.floor := floor;
      this.authentic := authentic;
      this.readsWork := readsWork;
      this.writesWork := writesWork;
    }

    ghost predicate Reliable()
    {
      readsWork && writesWork
    }

    method Read(f: FileName) returns (bytes: Option<seq<byte>>)
      ensures bytes.Some? ==> f in image && bytes.value == image[f]
      ensures readsWork && f in image ==> bytes.Some?
    {
      var fails: bool := *;
      if f !in image || (fails && !readsWork) {
        return None;
      }
      return Some(image[f]);
    }

    method Write(f: FileName, bytes: seq<byte>) returns (ok: bool)
      modifies this`image
      ensures ok ==> image == old(image)[f := bytes]
      ensures !ok ==> Torn(old(image), f, image)
      ensures writesWork ==> ok
    {
      var fails: bool := *;
      if writesWork || !fails {
        image := image[f := bytes];
        return true;
      }
      var started: bool := *;
      if started {
        var junk: seq<byte> := *;
        if DecodeBootState(junk).Ok? {
          image := image - {f};
        } else {
          image := image[f := junk];
        }
      }
      return false;
    }

    method ReadFloor() returns (minimum: Option<nat>)
      ensures minimum.Some? ==> minimum.value == floor
      ensures readsWork ==> minimum.Some?
    {
      var fails: bool := *;
      return if fails && !readsWork then None else Some(floor);
    }

    method SetFloor(candidate: nat) returns (ok: bool)
      modifies this`floor
      ensures floor == if ok then candidate else old(floor)
      ensures writesWork ==> ok
    {
      var fails: bool := *;
      if fails && !writesWork {
        return false;
      }
      floor := candidate;
      return true;
    }

    /** Rejects a release below the floor and raises the floor to one above it; a floor that
        cannot be read or raised rejects every release it would have to be read or raised for. */
    method EnforceReleaseVersion(candidate: nat) returns (ok: bool)
      modifies this`floor
      ensures ok ==> old(floor) <= candidate && floor == candidate
      ensures !ok ==> floor == old(floor)
      ensures Reliable() ==> (ok <==> old(floor) <= candidate)
    {
      var minimum := ReadFloor();
      if minimum.None? || candidate < minimum.value {
        return false;
      }
      ok := true;
      if candidate > minimum.value {
        ok := SetFloor(candidate);
      }
    }

    /** Loads a slot: files, manifest, verification, floor and trust root, in this order. */
    method LoadSystemSlot(slot: SystemSlot) returns (r: Option<u64>)
      modifies this`floor
      ensures MayLoad(authentic, image, slot, old(floor), r, floor)
      ensures Reliable() ==> (r, floor) == Attempt(Release(authentic, image, slot), old(floor))
    {
      hide DecodeManifest;
      var kernel := Read(Kernel(slot));
      if kernel.None? {
        return None;
      }
      var bytes := Read(Signed(slot));
      if bytes.None? {
        return None;
      }
      var manifest := DecodeManifest(bytes.value);
      if manifest.Err? || !authentic(kernel.value, manifest.value) {
        return None;
      }
      var admitted := EnforceReleaseVersion(manifest.value.version);
      if !admitted {
        return None;
      }
      var trustRootFails: bool := *;
      if trustRootFails && !writesWork {
        return None;
      }
      return Some(manifest.value.version);
    }

    method LoadBootState() returns (selected: Option<BootState>)
      ensures MayRead(image, selected)
      ensures readsWork ==> selected == Latest(image)
    {
      hide DecodeBootState;
      selected := None;
      ghost var read: seq<Option<BootState>> := [];
      var paths := [State0, State1];
      for i := 0 to 2
        invariant |read| == i
        invariant forall k :: 0 <= k < i ==> read[k] == None || read[k] == StateIn(image, paths[k])
        invariant readsWork ==> forall k :: 0 <= k < i ==> read[k] == StateIn(image, paths[k])
        invariant selected == if i == 0 then None else if i == 1 then read[0] else Newer(read[0], read[1])
      {
        var bytes := Read(paths[i]);
        var state := None;
        if bytes.Some? && DecodeBootState(bytes.value).Ok? {
          state := Some(DecodeBootState(bytes.value).value);
          if selected.None? || state.value.generation > selected.value.generation {
            selected := state;
          }
        }
        read := read + [state];
      }
    }

    /** Writes a boot state and believes it only after reading it back. */
    method WriteVerifiedBootState(f: FileName, state: BootState) returns (ok: bool)
      modifies this`image
      ensures MayWrite(old(image), f, state, image)
      ensures ok ==> image == old(image)[f := BootBytes(state)] && StateIn(image, f) == Some(state)
      ensures Reliable() && Believable(state) ==> ok
    {
      hide DecodeBootState, BootBytes;
      BootStateRoundTrip(state);
      var output := EncodeBootState(state);
      ok := Write(f, output[..]);
      if ok {
        var bytes := Read(f);
        ok := bytes.Some? && DecodeBootState(bytes.value) == Ok(state);
      }
    }

    /** Both copies are rewritten for the slot that was found. */
    method RepairBootState(slot: SystemSlot, version: u64) returns (ok: bool)
      modifies this`image
      ensures MayRepair(old(image), slot, version, ok, image)
      ensures Reliable() && version > 0 ==> ok
    {
      hide DecodeBootState, BootBytes, StateIn;
      ok := WriteVerifiedBootState(State0, BootState(1, slot, version));
      ghost var middle := image;
      assert MayWrite(old(image), State0, BootState(1, slot, version), middle);
      if ok {
        ok := WriteVerifiedBootState(State1, BootState(2, slot, version));
      }
    }

    /** After a fallback a newer boot state is written that names the slot that worked. */
    method PersistFallbackBootState(current: BootState, fallback: SystemSlot, version: u64) returns (ok: bool)
      modifies this`image
      ensures MayPersist(old(image), current, fallback, version, ok, image)
      ensures Reliable() && version > 0 && current.generation + 1 < U64_LIMIT ==> ok
    {
      hide DecodeBootState, BootBytes, StateIn;
      if current.generation + 1 >= U64_LIMIT {
        return false;
      }
      var repaired := BootState(current.generation + 1, fallback, version);
      var path := if repaired.generation % 2 == 1 then State0 else State1;
      ok := WriteVerifiedBootState(path, repaired);
    }

    /** Without any readable boot state, the newest release that loads is taken. */
    method RecoverFromMissingBootState() returns (r: Option<Booted>)
      modifies this
      ensures MayBoot(authentic, (old(image), old(floor)), r, (image, floor))
      ensures Reliable() ==> (r, floor) == BootScan(authentic, old(image), old(floor))
      ensures Reliable() ==>
        image == if r.None? then old(image) else Repaired(old(image), r.value.slot, r.value.version)
    {
      hide Release, MayRepair, MayLoad, Repaired;
      var selected: Option<(SystemSlot, u64)> := None;
      ghost var loaded: seq<Option<u64>> := [];
      ghost var floors := [floor];
      var slots := [A, B];
      for i := 0 to 2
        invariant image == old(image) && |loaded| == i && |floors| == i + 1 && floors[0] == old(floor)
        invariant floors[i] == floor
        invariant forall k :: 0 <= k < i ==> MayLoad(authentic, image, slots[k], floors[k], loaded[k], floors[k + 1])
        invariant Reliable() ==> forall k :: 0 <= k < i ==>
          (loaded[k], floors[k + 1]) == Attempt(Release(authentic, image, slots[k]), floors[k])
        invariant i == 0 ==> selected == None
        invariant i == 1 ==> selected == Pick(loaded[0], None)
        invariant i == 2 ==> selected == Pick(loaded[0], loaded[1])
      {
        var release := LoadSystemSlot(slots[i]);
        if release.Some? && (selected.None? || release.value > selected.value.1) {
          selected := Some((slots[i], release.value));
        }
        loaded := loaded + [release];
        floors := floors + [floor];
      }
      r := None;
      var repaired := false;
      if selected.Some? {
        var (slot, version) := selected.value;
        PickLoaded(authentic, image, old(floor), loaded[0], floors[1], loaded[1], floor);
        var kernel := image[Kernel(slot)];
        repaired := RepairBootState(slot, version);
        r := Some(Booted(slot, version, kernel, if repaired then 2 else 0, true));
      }
      assert ScanPath(authentic, (old(image), old(floor)), r, (image, floor), loaded[0], floors[1], loaded[1],
                      repaired);
      RepairIs(old(image), image, r, repaired);
    }

    /** One boot: whatever fails, it is one of the boots that may happen; with a disk and
        firmware that work it is the specified one, and so is the disk afterwards. */
    method LoadKernelImage() returns (r: Option<Booted>)
      modifies this
      ensures MayBoot(authentic, (old(image), old(floor)), r, (image, floor))
      ensures Reliable() ==> (r, floor) == BootOutcome(authentic, old(image), old(floor))
      ensures Reliable() ==> image == AfterBoot(authentic, old(image), old(floor))
    {
      hide Release, StateIn, BootBytes, Latest;
      ghost var start := (image, floor);
      var state := LoadBootState();
      if state.None? {
        r := RecoverFromMissingBootState();
        return;
      }
      var s := state.value;
      var first := LoadSystemSlot(s.active);
      ghost var middle := floor;
      if first == Some(s.version) {
        r := Some(Booted(s.active, s.version, image[Kernel(s.active)], s.generation, false));
        assert ActivePath(authentic, start, r, (image, floor), s, first, middle, None, false);
        return;
      }
      var fallback := Other(s.active);
      var second := LoadSystemSlot(fallback);
      if second.None? {
        assert ActivePath(authentic, start, None, (image, floor), s, first, middle, None, false);
        return None;
      }
      var kernel := image[Kernel(fallback)];
      var persisted := PersistFallbackBootState(s, fallback, second.value);
      var generation := if persisted then NextGeneration(s.generation) else s.generation;
      r := Some(Booted(fallback, second.value, kernel, generation, true));
      assert ActivePath(authentic, start, r, (image, floor), s, first, middle, second, persisted);
    }
  }
}
