/** Where updates and boots go wrong: an updater that misreads the boot state, and a floor
    that shuts out the last bootable slot. */
module UpdateFaults {
  import opened Bytes
  import opened Wrappers
  import opened UpdateFormat
  import opened Boot
  import opened Update

  // ----- An updater that cannot read the newest boot state

  /** `s` is the newest boot state of a healthy image and `o` the older one in the other file. */
  ghost predicate Behind(authentic: Verdict, image: Image, floor: nat, s: BootState, o: BootState)
  {
    && Healthy(authentic, image, floor) && Latest(image) == Some(s)
    && o.generation < s.generation && StateIn(image, StateFile(o.generation)) == Some(o)
  }

  /** Seeing the older boot state does no harm: there is nothing to do, or it names the same
      slot and the same version. */
  predicate Harmless(s: BootState, o: BootState, version: u64)
  {
    version <= o.version || (o.active == s.active && o.version == s.version)
  }

  /** Every point at which the update for `o` may stop leaves an image that boots directly. */
  ghost predicate AllStopsBoot(authentic: Verdict, image: Image, floor: nat, o: BootState, kernel: seq<byte>,
                               manifest: seq<byte>, version: u64)
  {
    forall n: nat, after :: CutAt(image, PlanFor(Some(o), kernel, manifest, version), n, after) ==>
      Bootable(authentic, after, floor)
  }

  lemma OtherFile(authentic: Verdict, image: Image, floor: nat, s: BootState, o: BootState)
    requires Behind(authentic, image, floor, s, o)
    ensures StateFile(o.generation) != StateFile(s.generation) && StateFile(o.generation + 1) == StateFile(s.generation)
    ensures StateIn(image, StateFile(s.generation)) == Some(s) && o.generation + 1 < U64_LIMIT
    ensures Release(authentic, image, s.active) == Some(s.version) && floor <= s.version
    ensures MayRead(image, Some(o))
  {
    hide DecodeBootState, DecodeManifest;
  }

  /** The two boot states decide which is newest. */
  lemma LatestOf(image: Image, f: FileName, g: FileName)
    requires (f == State0 && g == State1) || (f == State1 && g == State0)
    ensures StateIn(image, f).None? ==> Latest(image) == StateIn(image, g)
    ensures
      && StateIn(image, f).Some? && StateIn(image, g).Some?
      && StateIn(image, f).value.generation > StateIn(image, g).value.generation ==>
        Latest(image) == StateIn(image, f)
  {
    hide DecodeBootState;
  }

  lemma ReleaseSame(authentic: Verdict, before: Image, after: Image, names: set<FileName>, slot: SystemSlot)
    requires SameExcept(before, after, names) && Kernel(slot) !in names && Signed(slot) !in names
    ensures Release(authentic, after, slot) == Release(authentic, before, slot)
  {
    hide DecodeManifest;
  }

  lemma StateSame(before: Image, after: Image, names: set<FileName>, f: FileName)
    requires SameExcept(before, after, names) && f !in names
    ensures StateIn(after, f) == StateIn(before, f)
  {
    hide DecodeBootState;
  }

  // ----- When the misreading is harmless

  lemma StoppedInState(authentic: Verdict, image: Image, floor: nat, s: BootState, o: BootState, ready: Image,
                       after: Image)
    requires Behind(authentic, image, floor, s, o) && o.active == s.active && o.version == s.version
    requires SameExcept(image, ready, SlotFiles(Other(s.active))) && Torn(ready, StateFile(s.generation), after)
    ensures Bootable(authentic, after, floor)
  {
    hide StateIn, Release, Latest;
    OtherFile(authentic, image, floor, s, o);
    var f, g := StateFile(s.generation), StateFile(o.generation);
    StateSame(image, ready, SlotFiles(Other(s.active)), f);
    StateSame(image, ready, SlotFiles(Other(s.active)), g);
    StateSame(ready, after, {f}, g);
    ReleaseSame(authentic, image, ready, SlotFiles(Other(s.active)), s.active);
    ReleaseSame(authentic, ready, after, {f}, s.active);
    LatestOf(after, f, g);
  }

  lemma StoppedAfterSwitch(authentic: Verdict, image: Image, floor: nat, s: BootState, o: BootState, kernel: seq<byte>,
                           manifest: seq<byte>, version: u64, ready: Image, after: Image)
    requires Behind(authentic, image, floor, s, o) && o.active == s.active && o.version == s.version < version
    requires Genuine(authentic, kernel, manifest, version)
    requires SameExcept(image, ready, SlotFiles(Other(s.active))) && Holds(ready, Other(s.active), kernel, manifest)
    requires o.generation + 1 < U64_LIMIT
    requires var w := StateWrite(NextState(o, version));
      SameExcept(ready[w.file := w.bytes], after, SlotFiles(s.active))
    ensures Bootable(authentic, after, floor)
  {
    hide Release, Latest, Genuine, DecodeBootState, BootBytes;
    OtherFile(authentic, image, floor, s, o);
    var next := NextState(o, version);
    var f, g := StateFile(s.generation), StateFile(o.generation);
    var switched := ready[f := BootBytes(next)];
    BootStateRoundTrip(next);
    assert StateIn(switched, f) == Some(next);
    hide StateIn;
    StateSame(image, ready, SlotFiles(Other(s.active)), g);
    StateSame(ready, switched, {f}, g);
    StateSame(switched, after, SlotFiles(s.active), f);
    StateSame(switched, after, SlotFiles(s.active), g);
    LatestOf(after, f, g);
    assert Holds(after, Other(s.active), kernel, manifest);
    HoldsIsRelease(authentic, after, Other(s.active), kernel, manifest, version);
  }

  lemma HarmlessStops(authentic: Verdict, image: Image, floor: nat, s: BootState, o: BootState, kernel: seq<byte>,
                      manifest: seq<byte>, version: u64, n: nat, after: Image)
    requires Behind(authentic, image, floor, s, o) && Harmless(s, o, version)
    requires Genuine(authentic, kernel, manifest, version)
    requires CutAt(image, PlanFor(Some(o), kernel, manifest, version), n, after)
    ensures Bootable(authentic, after, floor)
  {
    assert Healthy(authentic, image, floor) && Bootable(authentic, image, floor);
    hide Behind, Latest, Healthy, Bootable, Torn, SlotPlan, CutAt, SameExcept, Genuine, Holds, BootBytes;
    if version <= o.version {
      NothingDone(image, n, after);
    } else {
      OtherFile(authentic, image, floor, s, o);
      var spare, w := SlotPlan(Other(o.active), kernel, manifest), StateWrite(NextState(o, version));
      var last := SlotPlan(o.active, kernel, manifest);
      assert PlanFor(Some(o), kernel, manifest, version) == spare + [w] + last;
      CutParts(image, spare, w, last, n, after);
      var ready := Performed(image, spare);
      WholeCut(image, spare);
      SlotCut(image, Other(o.active), kernel, manifest, 2, ready);
      if n < 2 {
        SlotCut(image, Other(o.active), kernel, manifest, n, after);
        SpareBoots(authentic, image, floor, s, o, after);
      } else if n == 2 && after == ready {
        SpareBoots(authentic, image, floor, s, o, after);
      } else if n == 2 {
        StoppedInState(authentic, image, floor, s, o, ready, after);
      } else {
        SlotCut(ready[w.file := w.bytes], o.active, kernel, manifest, n - 3, after);
        StoppedAfterSwitch(authentic, image, floor, s, o, kernel, manifest, version, ready, after);
      }
    }
  }

  lemma SpareBoots(authentic: Verdict, image: Image, floor: nat, s: BootState, o: BootState, after: Image)
    requires Behind(authentic, image, floor, s, o) && SameExcept(image, after, SlotFiles(Other(s.active)))
    ensures Bootable(authentic, after, floor)
  {
    hide StateIn, Release, Newer;
    SpareSlotIsSpare(authentic, image, after, floor);
  }

  // ----- When it is not

  /** The spare slot of the older boot state is the running one: its kernel may be lost. */
  lemma RunningSlotTorn(authentic: Verdict, image: Image, floor: nat, s: BootState, o: BootState, kernel: seq<byte>,
                        manifest: seq<byte>, version: u64)
    requires Behind(authentic, image, floor, s, o) && o.active != s.active && version > o.version
    ensures var after := image - {Kernel(s.active)};
      CutAt(image, PlanFor(Some(o), kernel, manifest, version), 0, after) && !Bootable(authentic, after, floor)
  {
    hide DecodeBootState, DecodeManifest;
    OtherFile(authentic, image, floor, s, o);
    var after := image - {Kernel(s.active)};
    var plan := PlanFor(Some(o), kernel, manifest, version);
    assert plan[..0] == [] && plan[0].file == Kernel(s.active);
    assert Torn(image, Kernel(s.active), after);
    StateSame(image, after, {Kernel(s.active)}, State0);
    StateSame(image, after, {Kernel(s.active)}, State1);
  }

  /** The newest boot state is overwritten; if that stops half-way the older one is in charge
      and names a version the slot does not hold. */
  lemma NewestStateTorn(authentic: Verdict, image: Image, floor: nat, s: BootState, o: BootState, kernel: seq<byte>,
                        manifest: seq<byte>, version: u64)
    requires Behind(authentic, image, floor, s, o) && o.active == s.active && o.version != s.version
    requires version > o.version
    ensures exists after ::
      CutAt(image, PlanFor(Some(o), kernel, manifest, version), 2, after) && !Bootable(authentic, after, floor)
  {
    hide Behind, StateIn, Release, Latest, SlotPlan, BootBytes, CutAt, Bootable, Performed, SameExcept;
    OtherFile(authentic, image, floor, s, o);
    var spare, w := SlotPlan(Other(o.active), kernel, manifest), StateWrite(NextState(o, version));
    var ready := Performed(image, spare);
    var after := ready - {w.file};
    WholeCut(image, spare);
    SlotCut(image, Other(o.active), kernel, manifest, 2, ready);
    OldStateInCharge(authentic, image, floor, s, o, ready, after);
    CutSingle(ready, w, 0, after);
    CutInPart(image, spare, [w], SlotPlan(o.active, kernel, manifest), 0, after);
    assert spare + [w] + SlotPlan(o.active, kernel, manifest) == PlanFor(Some(o), kernel, manifest, version);
  }

  lemma OldStateInCharge(authentic: Verdict, image: Image, floor: nat, s: BootState, o: BootState, ready: Image,
                         after: Image)
    requires Behind(authentic, image, floor, s, o) && o.active == s.active && o.version != s.version
    requires SameExcept(image, ready, SlotFiles(Other(s.active))) && after == ready - {StateFile(s.generation)}
    ensures Torn(ready, StateFile(s.generation), after) && !Bootable(authentic, after, floor)
  {
    hide Behind, StateIn, Release, Latest;
    OtherFile(authentic, image, floor, s, o);
    var f, g := StateFile(s.generation), StateFile(o.generation);
    NoState(after, f);
    assert SameExcept(ready, after, {f});
    StateSame(image, ready, SlotFiles(Other(s.active)), g);
    StateSame(ready, after, {f}, g);
    ReleaseSame(authentic, image, ready, SlotFiles(Other(s.active)), s.active);
    ReleaseSame(authentic, ready, after, {f}, s.active);
    LatestOf(after, f, g);
  }

  lemma NoState(image: Image, f: FileName)
    requires f !in image
    ensures StateIn(image, f) == None
  {
  }

  /** An updater that sees the older boot state keeps the image bootable at every stop if and
      only if that is harmless: nothing is installed, or both states say the same. */
  lemma MisreadIsSafeIff(authentic: Verdict, image: Image, floor: nat, s: BootState, o: BootState, kernel: seq<byte>,
                         manifest: seq<byte>, version: u64)
    requires Behind(authentic, image, floor, s, o) && Genuine(authentic, kernel, manifest, version)
    ensures AllStopsBoot(authentic, image, floor, o, kernel, manifest, version) <==> Harmless(s, o, version)
  {
    hide Behind, CutAt, PlanFor, Bootable, Genuine;
    if Harmless(s, o, version) {
      forall n: nat, after | CutAt(image, PlanFor(Some(o), kernel, manifest, version), n, after)
        ensures Bootable(authentic, after, floor)
      {
        HarmlessStops(authentic, image, floor, s, o, kernel, manifest, version, n, after);
      }
    } else if o.active != s.active {
      RunningSlotTorn(authentic, image, floor, s, o, kernel, manifest, version);
    } else {
      NewestStateTorn(authentic, image, floor, s, o, kernel, manifest, version);
    }
  }

  // ----- Concrete images

  function Everything(): Verdict
  {
    (k, m) => true
  }

  /** A manifest with all fields filled in. */
  function SampleManifest(version: u64): Manifest
  {
    Manifest(2, version, 1, Zeros(32), [1] + Zeros(15), Zeros(32), Zeros(16), [1] + Zeros(63))
  }

  function SampleBytes(version: u64): seq<byte>
  {
    ManifestBytes(SampleManifest(version))
  }

  lemma SampleIsGenuine(version: u64)
    requires version > 0
    ensures Genuine(Everything(), [], SampleBytes(version), version)
  {
    hide DecodeManifest, ManifestBytes;
    var m := SampleManifest(version);
    assert m.keyId[0] == 1 && Zeros(16)[0] == 0 && m.signature[0] == 1 && Zeros(64)[0] == 0;
    ManifestRoundTrip(m);
  }

  /** Slot A holds release `a` and slot B release `b`; the boot states are `s0` and `s1`. */
  function SampleImage(a: u64, b: u64, s0: BootState, s1: BootState): Image
  {
    map[Kernel(A) := [], Signed(A) := SampleBytes(a), Kernel(B) := [], Signed(B) := SampleBytes(b),
        State0 := BootBytes(s0), State1 := BootBytes(s1)]
  }

  lemma SampleFacts(a: u64, b: u64, s0: BootState, s1: BootState)
    requires a > 0 && b > 0 && Believable(s0) && Believable(s1)
    ensures var image := SampleImage(a, b, s0, s1);
      && Release(Everything(), image, A) == Some(a) && Release(Everything(), image, B) == Some(b)
      && StateIn(image, State0) == Some(s0) && StateIn(image, State1) == Some(s1)
  {
    hide DecodeManifest, DecodeBootState, BootBytes, SampleBytes, Everything, Genuine;
    var image := SampleImage(a, b, s0, s1);
    SampleIsGenuine(a);
    SampleIsGenuine(b);
    HoldsIsRelease(Everything(), image, A, [], SampleBytes(a), a);
    HoldsIsRelease(Everything(), image, B, [], SampleBytes(b), b);
    BootStateRoundTrip(s0);
    BootStateRoundTrip(s1);
  }

  /** The boot state promises release 3 in slot A, which holds release 5; slot B holds
      release 4. The loader raises the floor to 5, rejects both, and stays locked out. */
  lemma MismatchLocksOut()
    ensures var image := SampleImage(5, 4, BootState(1, A, 3), BootState(2, A, 3));
      && Latest(image) == Some(BootState(2, A, 3))
      && BootOutcome(Everything(), image, 3) == (None, 5)
      && AfterBoot(Everything(), image, 3) == image && BootOutcome(Everything(), image, 5) == (None, 5)
  {
    hide SampleImage, StateIn, Release;
    SampleFacts(5, 4, BootState(1, A, 3), BootState(2, A, 3));
  }

  /** The updater has replaced the release of the running slot, which no longer matches its
      boot state. If the other slot holds an older release, nothing boots any more. */
  lemma RunningSlotReplaced(authentic: Verdict, image: Image, floor: nat, s: BootState, kernel: seq<byte>,
                            manifest: seq<byte>, version: u64, after: Image)
    requires Latest(image) == Some(s) && Genuine(authentic, kernel, manifest, version)
    requires version != s.version && version >= floor
    requires
      || Release(authentic, image, Other(s.active)).None?
      || Release(authentic, image, Other(s.active)).value < version
    requires SameExcept(image, after, SlotFiles(s.active)) && Holds(after, s.active, kernel, manifest)
    ensures BootOutcome(authentic, after, floor) == (None, version)
    ensures BootOutcome(authentic, after, version) == (None, version)
  {
    hide StateIn, Release, Genuine, Newer, Latest;
    StatesUntouched(image, after, s.active);
    HoldsIsRelease(authentic, after, s.active, kernel, manifest, version);
    ReleaseSame(authentic, image, after, SlotFiles(s.active), Other(s.active));
  }

  /** The image the stale read is shown on: its newest state is the one the read misses. */
  lemma MisreadStart()
    ensures var image := SampleImage(5, 5, BootState(3, B, 5), BootState(2, A, 3));
      && Healthy(Everything(), image, 5) && MayRead(image, Some(BootState(2, A, 3)))
      && Latest(image) == Some(BootState(3, B, 5)) && Release(Everything(), image, A) == Some(5)
  {
    hide SampleImage, Release, StateIn;
    SampleFacts(5, 5, BootState(3, B, 5), BootState(2, A, 3));
  }

  /** A running system with release 5 in both slots. Its newest boot state cannot be read, so
      the updater takes the running slot B for the spare one and stops after writing
      release 7 there: nothing boots any more. */
  lemma MisreadLocksOut()
    ensures var image := SampleImage(5, 5, BootState(3, B, 5), BootState(2, A, 3));
      var stale := BootState(2, A, 3);
      var after := Performed(image, SlotPlan(B, [], SampleBytes(7)));
      && Healthy(Everything(), image, 5) && Genuine(Everything(), [], SampleBytes(7), 7)
      && MayRead(image, Some(stale))
      && CutAt(image, PlanFor(Some(stale), [], SampleBytes(7), 7), 2, after)
      && BootOutcome(Everything(), after, 5) == (None, 7) && BootOutcome(Everything(), after, 7) == (None, 7)
  {
    hide SampleImage, Release, SampleBytes, Genuine, SlotPlan, Everything, CutAt, Performed, BootOutcome, StateIn,
      Healthy, MayRead, Latest, SameExcept, Holds;
    var s, o := BootState(3, B, 5), BootState(2, A, 3);
    var image := SampleImage(5, 5, s, o);
    MisreadStart();
    SampleIsGenuine(7);
    var spare := SlotPlan(B, [], SampleBytes(7));
    var after := Performed(image, spare);
    WholeCut(image, spare);
    NothingPerformed(image);
    CutInPart(image, [], spare, SwitchPlan(o, [], SampleBytes(7), 7), 2, after);
    assert [] + spare + SwitchPlan(o, [], SampleBytes(7), 7) == PlanFor(Some(o), [], SampleBytes(7), 7);
    SlotCut(image, B, [], SampleBytes(7), 2, after);
    RunningSlotReplaced(Everything(), image, 5, s, [], SampleBytes(7), 7, after);
  }
}
