/** The updater: a signed release is installed in steps, any of which may be the last. */
module Update {
  import opened Bytes
  import opened Wrappers
  import opened UpdateFormat
  import opened Boot

  datatype UpdateError =
    | NoBootState
    | NotNewer
    | WriteFailed
    | ReadbackFailed
    | ReadbackDiffers
    | GenerationExhausted
    | StateReadbackDiffers

  /** The next boot takes exactly this kernel and this manifest. */
  ghost predicate Runs(image: Image, kernel: seq<byte>, manifest: seq<byte>)
  {
    && Latest(image).Some?
    && Holds(image, Latest(image).value.active, kernel, manifest)
  }

  ghost predicate Holds(image: Image, slot: SystemSlot, kernel: seq<byte>, manifest: seq<byte>)
  {
    Kernel(slot) in image && Signed(slot) in image && image[Kernel(slot)] == kernel && image[Signed(slot)] == manifest
  }

  function SlotFiles(slot: SystemSlot): set<FileName>
  {
    {Kernel(slot), Signed(slot)}
  }

  /** A release the loader will accept, with the version it claims. */
  /** The kernel passes every check of its manifest. */
  predicate Signature(authentic: Verdict, kernel: seq<byte>, manifest: seq<byte>)
  {
    DecodeManifest(manifest).Ok? && authentic(kernel, DecodeManifest(manifest).value)
  }

  predicate Genuine(authentic: Verdict, kernel: seq<byte>, manifest: seq<byte>, version: u64)
  {
    && DecodeManifest(manifest).Ok?
    && authentic(kernel, DecodeManifest(manifest).value)
    && DecodeManifest(manifest).value.version == version
  }

  lemma HoldsIsRelease(authentic: Verdict, image: Image, slot: SystemSlot, kernel: seq<byte>, manifest: seq<byte>,
                       version: u64)
    requires Genuine(authentic, kernel, manifest, version) && Holds(image, slot, kernel, manifest)
    ensures Release(authentic, image, slot) == Some(version)
  {
    hide DecodeManifest;
  }

  // ----- What each step leaves behind

  /** While the inactive slot is rewritten nothing the loader looks at changes. */
  lemma SpareSlotIsSpare(authentic: Verdict, before: Image, after: Image, floor: nat)
    requires Healthy(authentic, before, floor)
    requires SameExcept(before, after, SlotFiles(Other(Latest(before).value.active)))
    ensures Healthy(authentic, after, floor) && Latest(after) == Latest(before)
    ensures Kernel(Latest(before).value.active) in before && Signed(Latest(before).value.active) in before
    ensures Holds(after, Latest(before).value.active,
                  before[Kernel(Latest(before).value.active)], before[Signed(Latest(before).value.active)])
  {
    hide DecodeBootState, DecodeManifest;
    assert StateIn(after, State0) == StateIn(before, State0);
    assert StateIn(after, State1) == StateIn(before, State1);
    var slot := Latest(before).value.active;
    assert Release(authentic, after, slot) == Release(authentic, before, slot);
  }

  /** A new boot state that was not completed leaves the old one in charge: it sits in the
      other file, and the file in progress holds nothing or an older record. */
  lemma TornStateKeepsOld(authentic: Verdict, before: Image, after: Image, floor: nat)
    requires Healthy(authentic, before, floor)
    requires Torn(before, StateFile(Latest(before).value.generation + 1), after)
    ensures Healthy(authentic, after, floor) && Latest(after) == Latest(before)
    ensures forall slot :: Kernel(slot) in before && Signed(slot) in before ==>
      Holds(after, slot, before[Kernel(slot)], before[Signed(slot)])
  {
    hide DecodeBootState, DecodeManifest;
    var s := Latest(before).value;
    assert StateIn(after, StateFile(s.generation)) == StateIn(before, StateFile(s.generation)) == Some(s);
    assert Release(authentic, after, s.active) == Release(authentic, before, s.active);
  }

  /** Once the new boot state is complete the loader takes the new slot. */
  lemma NewStateTakesOver(authentic: Verdict, before: Image, after: Image, floor: nat,
                          kernel: seq<byte>, manifest: seq<byte>, version: u64)
    requires Healthy(authentic, before, floor) && Genuine(authentic, kernel, manifest, version)
    requires var s := Latest(before).value;
      && s.generation + 1 < U64_LIMIT && s.version < version
      && Holds(before, Other(s.active), kernel, manifest)
      && var t := BootState(s.generation + 1, Other(s.active), version);
         after == before[StateFile(s.generation + 1) := BootBytes(t)]
    ensures var s := Latest(before).value;
      && Latest(after) == Some(BootState(s.generation + 1, Other(s.active), version))
      && Healthy(authentic, after, floor) && Runs(after, kernel, manifest)
  {
    hide DecodeManifest, DecodeBootState, BootBytes, Genuine;
    var s := Latest(before).value;
    var next := BootState(s.generation + 1, Other(s.active), version);
    BootStateRoundTrip(next);
    assert StateIn(after, StateFile(s.generation)) == StateIn(before, StateFile(s.generation)) == Some(s);
    assert StateIn(after, StateFile(next.generation)) == Some(next);
    assert Holds(after, Other(s.active), kernel, manifest);
    HoldsIsRelease(authentic, after, Other(s.active), kernel, manifest, version);
  }

  /** The image built for a first installation boots its release from slot A. */
  function FirstImage(kernel: seq<byte>, manifest: seq<byte>, version: u64): Image
  {
    map[Kernel(A) := kernel, Signed(A) := manifest, Kernel(B) := kernel, Signed(B) := manifest,
        State0 := BootBytes(BootState(1, A, version)), State1 := BootBytes(BootState(2, A, version))]
  }

  lemma FirstImageHealthy(authentic: Verdict, kernel: seq<byte>, manifest: seq<byte>, version: u64)
    requires Genuine(authentic, kernel, manifest, version) && version > 0
    ensures var image := FirstImage(kernel, manifest, version);
      Healthy(authentic, image, 0) && Runs(image, kernel, manifest) && Holds(image, B, kernel, manifest)
  {
    hide DecodeManifest, DecodeBootState, BootBytes, Genuine;
    var image := FirstImage(kernel, manifest, version);
    BootStateRoundTrip(BootState(1, A, version));
    BootStateRoundTrip(BootState(2, A, version));
    HoldsIsRelease(authentic, image, A, kernel, manifest, version);
  }

  // ----- The plan of an update

  datatype FileWrite = FileWrite(file: FileName, bytes: seq<byte>)

  function SlotPlan(slot: SystemSlot, kernel: seq<byte>, manifest: seq<byte>): (plan: seq<FileWrite>)
    ensures |plan| == 2
  {
    [FileWrite(Kernel(slot), kernel), FileWrite(Signed(slot), manifest)]
  }

  function NextState(s: BootState, version: u64): BootState
    requires s.generation + 1 < U64_LIMIT
  {
    BootState(s.generation + 1, Other(s.active), version)
  }

  function StateWrite(s: BootState): FileWrite
  {
    FileWrite(StateFile(s.generation), BootBytes(s))
  }

  /** The boot state that switches slots, and the copy to the slot that ran so far. */
  function SwitchPlan(s: BootState, kernel: seq<byte>, manifest: seq<byte>, version: u64): (plan: seq<FileWrite>)
    requires s.generation + 1 < U64_LIMIT
    ensures |plan| == 3
  {
    [StateWrite(NextState(s, version))] + SlotPlan(s.active, kernel, manifest)
  }

  /** The writes of an update that found the boot state `seen`: the spare slot, the boot state
      that switches to it, and then the other slot. Nothing without a boot state or for a
      version that is not newer, and no switch after the last generation. */
  function PlanFor(seen: Option<BootState>, kernel: seq<byte>, manifest: seq<byte>, version: u64): seq<FileWrite>
  {
    if seen.None? || version <= seen.value.version then []
    else
      var s := seen.value;
      if s.generation + 1 >= U64_LIMIT then SlotPlan(Other(s.active), kernel, manifest)
      else
        SlotPlan(Other(s.active), kernel, manifest) + SwitchPlan(s, kernel, manifest, version)
  }

  function Performed(image: Image, plan: seq<FileWrite>): Image
  {
    if plan == [] then image
    else Performed(image, plan[..|plan| - 1])[plan[|plan| - 1].file := plan[|plan| - 1].bytes]
  }

  /** The first `n` writes are done, and the next one may be in pieces. */
  ghost predicate CutAt(before: Image, plan: seq<FileWrite>, n: nat, after: Image)
  {
    && n <= |plan|
    && (after == Performed(before, plan[..n])
        || (n < |plan| && Torn(Performed(before, plan[..n]), plan[n].file, after)))
  }

  lemma PerformedStep(image: Image, plan: seq<FileWrite>, n: nat)
    requires n < |plan|
    ensures Performed(image, plan[..n + 1]) == Performed(image, plan[..n])[plan[n].file := plan[n].bytes]
  {
    assert plan[..n + 1][..n] == plan[..n];
  }

  lemma {:induction false} PerformedConcat(image: Image, a: seq<FileWrite>, b: seq<FileWrite>)
    ensures Performed(image, a + b) == Performed(Performed(image, a), b)
  {
    if b == [] {
      assert a + b == a;
    } else {
      assert (a + b)[..|a + b| - 1] == a + b[..|b| - 1];
      PerformedConcat(image, a, b[..|b| - 1]);
    }
  }

  /** Stopping inside a part of a plan is stopping inside the plan. */
  lemma CutInPart(before: Image, front: seq<FileWrite>, part: seq<FileWrite>, back: seq<FileWrite>, n: nat,
                  after: Image)
    requires CutAt(Performed(before, front), part, n, after)
    ensures CutAt(before, front + part + back, |front| + n, after)
  {
    var plan := front + part + back;
    assert plan[..|front| + n] == front + part[..n];
    PerformedConcat(before, front, part[..n]);
    if n < |part| {
      assert plan[|front| + n] == part[n];
    }
  }

  /** Writing some files of a slot, in full or not, changes nothing else. */
  lemma SlotCut(before: Image, slot: SystemSlot, kernel: seq<byte>, manifest: seq<byte>, n: nat, after: Image)
    requires CutAt(before, SlotPlan(slot, kernel, manifest), n, after)
    ensures SameExcept(before, after, SlotFiles(slot))
    ensures n == 2 ==> Holds(after, slot, kernel, manifest)
  {
    hide StateIn;
    var plan := SlotPlan(slot, kernel, manifest);
    assert plan[..0] == [];
    PerformedStep(before, plan, 0);
    PerformedStep(before, plan, 1);
    assert plan[..2] == plan;
  }

  // ----- Wherever an update stops

  /** The kernel and manifest the loader would take now. */
  ghost function CurrentKernel(image: Image): seq<byte>
    requires Latest(image).Some? && Kernel(Latest(image).value.active) in image
  {
    image[Kernel(Latest(image).value.active)]
  }

  ghost function CurrentManifest(image: Image): seq<byte>
    requires Latest(image).Some? && Signed(Latest(image).value.active) in image
  {
    image[Signed(Latest(image).value.active)]
  }

  /** The next boot takes exactly the release that was current in `before`. */
  ghost predicate RunsOld(before: Image, image: Image)
  {
    && Latest(before).Some? && Latest(image) == Latest(before)
    && Kernel(Latest(before).value.active) in before && Signed(Latest(before).value.active) in before
    && Runs(image, CurrentKernel(before), CurrentManifest(before))
  }

  /** The image is healthy and runs exactly the old release or exactly the new one, which is
      not older. */
  ghost predicate Updated(authentic: Verdict, floor: nat, before: Image, kernel: seq<byte>, manifest: seq<byte>,
                          after: Image)
  {
    && Healthy(authentic, after, floor)
    && (RunsOld(before, after) || Runs(after, kernel, manifest))
    && Latest(before).Some? && Latest(after).value.version >= Latest(before).value.version
  }

  /** Where in its three parts a full plan was cut. */
  lemma CutParts(before: Image, a: seq<FileWrite>, w: FileWrite, b: seq<FileWrite>, n: nat, after: Image)
    requires CutAt(before, a + [w] + b, n, after)
    ensures n < |a| ==> CutAt(before, a, n, after)
    ensures n == |a| ==> after == Performed(before, a) || Torn(Performed(before, a), w.file, after)
    ensures n > |a| ==> CutAt(Performed(before, a)[w.file := w.bytes], b, n - |a| - 1, after)
  {
    hide Torn;
    var plan := a + [w] + b;
    if n < |a| {
      assert plan[..n] == a[..n] && plan[n] == a[n];
    } else if n == |a| {
      assert plan[..n] == a && plan[n] == w;
    } else {
      var k := n - |a| - 1;
      assert plan[..n] == a + [w] + b[..k];
      PerformedConcat(before, a + [w], b[..k]);
      assert (a + [w])[..|a|] == a;
      assert k < |b| ==> plan[n] == b[k];
    }
  }

  /** Stopped while only the spare slot was touched. */
  lemma SpareStop(authentic: Verdict, floor: nat, before: Image, kernel: seq<byte>, manifest: seq<byte>, after: Image)
    requires Healthy(authentic, before, floor)
    requires SameExcept(before, after, SlotFiles(Other(Latest(before).value.active)))
    ensures Updated(authentic, floor, before, kernel, manifest, after)
    ensures Latest(after) == Latest(before) && Healthy(authentic, after, floor)
  {
    hide StateIn, Release, Newer;
    SpareSlotIsSpare(authentic, before, after, floor);
  }

  /** Stopped while the boot state was written. */
  lemma StateStop(authentic: Verdict, floor: nat, before: Image, kernel: seq<byte>, manifest: seq<byte>, ready: Image,
                  after: Image)
    requires Healthy(authentic, before, floor)
    requires SameExcept(before, ready, SlotFiles(Other(Latest(before).value.active)))
    requires Torn(ready, StateFile(Latest(before).value.generation + 1), after)
    ensures Updated(authentic, floor, before, kernel, manifest, after)
  {
    hide StateIn, Release, Newer, Torn;
    SpareSlotIsSpare(authentic, before, ready, floor);
    TornStateKeepsOld(authentic, ready, after, floor);
  }

  /** Stopped after the switch, while the old slot was overwritten. */
  lemma SwitchStop(authentic: Verdict, floor: nat, before: Image, kernel: seq<byte>, manifest: seq<byte>, version: u64,
                   ready: Image, after: Image)
    requires Healthy(authentic, before, floor) && Genuine(authentic, kernel, manifest, version)
    requires var s := Latest(before).value;
      && s.generation + 1 < U64_LIMIT && s.version < version
      && SameExcept(before, ready, SlotFiles(Other(s.active))) && Holds(ready, Other(s.active), kernel, manifest)
      && var w := StateWrite(NextState(s, version));
         SameExcept(ready[w.file := w.bytes], after, SlotFiles(s.active))
    ensures Updated(authentic, floor, before, kernel, manifest, after)
    ensures Latest(after) == Some(NextState(Latest(before).value, version)) && Runs(after, kernel, manifest)
  {
    hide StateIn, Release, Newer, Genuine, BootBytes;
    var s := Latest(before).value;
    var w := StateWrite(NextState(s, version));
    SpareSlotIsSpare(authentic, before, ready, floor);
    NewStateTakesOver(authentic, ready, ready[w.file := w.bytes], floor, kernel, manifest, version);
    SpareSlotIsSpare(authentic, ready[w.file := w.bytes], after, floor);
  }

  lemma HealthyHasState(authentic: Verdict, image: Image, floor: nat)
    requires Healthy(authentic, image, floor)
    ensures Latest(image).Some?
  {
  }

  /** An update that saw the newest boot state may stop anywhere: after any number of its
      writes, with the next one in pieces. */
  lemma CutIsUpdated(authentic: Verdict, floor: nat, before: Image, kernel: seq<byte>, manifest: seq<byte>,
                     version: u64, n: nat, after: Image)
    requires Healthy(authentic, before, floor) && Genuine(authentic, kernel, manifest, version)
    requires CutAt(before, PlanFor(Latest(before), kernel, manifest, version), n, after)
    ensures Updated(authentic, floor, before, kernel, manifest, after)
    ensures n == 5 ==>
      Runs(after, kernel, manifest) && Holds(after, A, kernel, manifest) && Holds(after, B, kernel, manifest)
  {
    hide Latest, Healthy, Torn, SlotPlan, CutAt, Updated, Runs, SameExcept, Genuine, Holds, BootBytes;
    HealthyHasState(authentic, before, floor);
    var s := Latest(before).value;
    var spare := SlotPlan(Other(s.active), kernel, manifest);
    if version <= s.version {
      NothingDone(before, n, after);
      NothingChanged(before, SlotFiles(Other(s.active)));
      SpareStop(authentic, floor, before, kernel, manifest, after);
    } else if s.generation + 1 >= U64_LIMIT {
      CutBound(before, spare, n, after);
      SlotCut(before, Other(s.active), kernel, manifest, n, after);
      SpareStop(authentic, floor, before, kernel, manifest, after);
    } else {
      FullCut(authentic, floor, before, kernel, manifest, version, n, after);
    }
  }

  lemma FullCut(authentic: Verdict, floor: nat, before: Image, kernel: seq<byte>, manifest: seq<byte>, version: u64,
                n: nat, after: Image)
    requires Healthy(authentic, before, floor) && Genuine(authentic, kernel, manifest, version)
    requires Latest(before).Some? && version > Latest(before).value.version
    requires Latest(before).value.generation + 1 < U64_LIMIT
    requires CutAt(before, PlanFor(Latest(before), kernel, manifest, version), n, after)
    ensures Updated(authentic, floor, before, kernel, manifest, after)
    ensures n == 5 ==>
      Runs(after, kernel, manifest) && Holds(after, A, kernel, manifest) && Holds(after, B, kernel, manifest)
  {
    hide Latest, Healthy, Torn, SlotPlan, CutAt, Updated, Runs, SameExcept, Genuine, Holds, BootBytes;
    var s := Latest(before).value;
    var spare, w := SlotPlan(Other(s.active), kernel, manifest), StateWrite(NextState(s, version));
    var last := SlotPlan(s.active, kernel, manifest);
    assert PlanFor(Some(s), kernel, manifest, version) == spare + [w] + last;
    CutParts(before, spare, w, last, n, after);
    var ready := Performed(before, spare);
    WholeCut(before, spare);
    SlotCut(before, Other(s.active), kernel, manifest, 2, ready);
    if n < 2 {
      SlotCut(before, Other(s.active), kernel, manifest, n, after);
      SpareStop(authentic, floor, before, kernel, manifest, after);
    } else if n == 2 && after == ready {
      SpareStop(authentic, floor, before, kernel, manifest, after);
    } else if n == 2 {
      StateStop(authentic, floor, before, kernel, manifest, ready, after);
    } else {
      SlotCut(ready[w.file := w.bytes], s.active, kernel, manifest, n - 3, after);
      SwitchStop(authentic, floor, before, kernel, manifest, version, ready, after);
      OtherSlotHolds(ready, w, s.active, after, kernel, manifest);
    }
  }

  lemma NothingChanged(image: Image, names: set<FileName>)
    ensures SameExcept(image, image, names)
  {
  }

  lemma OtherSlotHolds(ready: Image, w: FileWrite, slot: SystemSlot, after: Image, kernel: seq<byte>,
                       manifest: seq<byte>)
    requires Holds(ready, Other(slot), kernel, manifest) && (w.file.State0? || w.file.State1?)
    requires SameExcept(ready[w.file := w.bytes], after, SlotFiles(slot))
    ensures Holds(after, Other(slot), kernel, manifest)
  {
  }

  lemma NothingDone(before: Image, n: nat, after: Image)
    requires CutAt(before, [], n, after)
    ensures after == before && n == 0
  {
  }

  lemma CutBound(before: Image, plan: seq<FileWrite>, n: nat, after: Image)
    requires CutAt(before, plan, n, after)
    ensures n <= |plan|
  {
  }

  lemma WholeCut(before: Image, plan: seq<FileWrite>)
    ensures CutAt(before, plan, |plan|, Performed(before, plan))
  {
    assert plan[..|plan|] == plan;
  }

  // ----- The updater

  /** Writes both files of a slot, reads them back and checks them; `done` counts the writes
      that completed. */
  method InstallSlot(p: Platform, slot: SystemSlot, kernel: seq<byte>, manifest: seq<byte>)
    returns (r: Outcome<UpdateError>, ghost done: nat)
    modifies p`image
    ensures CutAt(old(p.image), SlotPlan(slot, kernel, manifest), done, p.image)
    ensures r.Pass? ==> done == 2 && Signature(p.authentic, kernel, manifest)
    ensures p.Reliable() && Signature(p.authentic, kernel, manifest) ==> r.Pass?
  {
    hide DecodeManifest, Torn;
    ghost var before, plan := p.image, SlotPlan(slot, kernel, manifest);
    assert plan[..0] == [] && plan[..2] == plan;
    PerformedStep(before, plan, 0);
    PerformedStep(before, plan, 1);
    var ok := p.Write(Kernel(slot), kernel);
    if !ok {
      return Fail(WriteFailed), 0;
    }
    ok := p.Write(Signed(slot), manifest);
    if !ok {
      return Fail(WriteFailed), 1;
    }
    done := 2;
    var kernelBack := p.Read(Kernel(slot));
    if kernelBack.None? {
      return Fail(ReadbackFailed), done;
    }
    var manifestBack := p.Read(Signed(slot));
    if manifestBack.None? {
      return Fail(ReadbackFailed), done;
    }
    var decoded := DecodeManifest(manifestBack.value);
    if decoded.Err? || !p.authentic(kernelBack.value, decoded.value) {
      return Fail(ReadbackFailed), done;
    }
    if kernelBack.value != kernel || manifestBack.value != manifest {
      return Fail(ReadbackDiffers), done;
    }
    return Pass, done;
  }

  /** An update is installed over an older release, while there is a next generation. */
  predicate MayInstall(seen: Option<BootState>, version: u64)
  {
    seen.Some? && version > seen.value.version && seen.value.generation + 1 < U64_LIMIT
  }

  /** The plan of an update, write by write: first the spare slot, then the boot state that
      names it, then the slot that ran. */
  lemma PlanIs(seen: Option<BootState>, kernel: seq<byte>, manifest: seq<byte>, version: u64)
    ensures var plan := PlanFor(seen, kernel, manifest, version);
      && (|plan| == 5 <==> MayInstall(seen, version))
      && (plan == [] <==> seen.None? || version <= seen.value.version)
      && (plan != [] ==>
            var spare := Other(seen.value.active);
            plan[..2] == [FileWrite(Kernel(spare), kernel), FileWrite(Signed(spare), manifest)])
      && (MayInstall(seen, version) ==>
            var s := seen.value;
            && plan[2] == FileWrite(StateFile(s.generation + 1),
                                    BootBytes(BootState(s.generation + 1, Other(s.active), version)))
            && plan[3..] == [FileWrite(Kernel(s.active), kernel), FileWrite(Signed(s.active), manifest)])
  {
    hide BootBytes;
  }

  /** The updater performs its plan up to some point and, when it reports success, to the end.
      The plan is the one for the boot state it saw, which is the newest if reads work. */
  method ApplySignedUpdate(p: Platform, kernel: seq<byte>, manifest: seq<byte>, version: u64)
    returns (r: Result<BootState, UpdateError>, ghost seen: Option<BootState>, ghost done: nat)
    modifies p`image
    ensures MayRead(old(p.image), seen) && (p.readsWork ==> seen == Latest(old(p.image)))
    ensures CutAt(old(p.image), PlanFor(seen, kernel, manifest, version), done, p.image)
    ensures r.Ok? ==>
      done == |PlanFor(seen, kernel, manifest, version)| == 5 && r.value == NextState(seen.value, version)
    ensures p.Reliable() && Genuine(p.authentic, kernel, manifest, version) ==>
      (r.Ok? <==> MayInstall(Latest(old(p.image)), version))
    ensures r.Ok? ==> Signature(p.authentic, kernel, manifest)
    ensures !Signature(p.authentic, kernel, manifest) ==>
      if seen.None? then p.image == old(p.image)
      else SameExcept(old(p.image), p.image, SlotFiles(Other(seen.value.active)))
    ensures seen == Latest(old(p.image)) && Genuine(p.authentic, kernel, manifest, version)
            && old(Healthy(p.authentic, p.image, p.floor)) ==>
      Updated(p.authentic, p.floor, old(p.image), kernel, manifest, p.image)
  {
    hide DecodeManifest, BootBytes, StateIn, Newer, Latest, SlotPlan, Torn, CutAt, MayRead, Performed, Healthy, Updated;
    ghost var start := p.image;
    PlanIs(Latest(start), kernel, manifest, version);
    if Genuine(p.authentic, kernel, manifest, version) && Healthy(p.authentic, start, p.floor) {
      AnyStop(p.authentic, p.floor, start, kernel, manifest, version);
    }
    WholeCut(start, []);
    NothingPerformed(start);
    var found := p.LoadBootState();
    seen, done := found, 0;
    if found.None? {
      return Err(NoBootState), seen, 0;
    }
    var current := found.value;
    if version <= current.version {
      return Err(NotNewer), seen, 0;
    }
    var inactive := Other(current.active);
    ghost var plan, spare := PlanFor(seen, kernel, manifest, version), SlotPlan(inactive, kernel, manifest);
    var installed;
    installed, done := InstallSlot(p, inactive, kernel, manifest);
    SlotCut(start, inactive, kernel, manifest, done, p.image);
    CutInPart(start, [], spare, plan[2..], done, p.image);
    assert [] + spare + plan[2..] == plan;
    if installed.Fail? {
      return Err(installed.error), seen, done;
    }
    if current.generation + 1 >= U64_LIMIT {
      return Err(GenerationExhausted), seen, done;
    }
    CutWhole(start, spare, p.image);
    StatesUntouched(start, p.image, inactive);
    ghost var rest := SwitchPlan(current, kernel, manifest, version);
    assert plan == spare + rest + [];
    ghost var more;
    r, more := SwitchSlots(p, current, kernel, manifest, version);
    CutInPart(start, spare, rest, [], more, p.image);
    done := 2 + more;
  }

  /** Writes the boot state that names the spare slot, checks that it is the one selected, and
      copies the release to the other slot. */
  method SwitchSlots(p: Platform, current: BootState, kernel: seq<byte>, manifest: seq<byte>, version: u64)
    returns (r: Result<BootState, UpdateError>, ghost done: nat)
    requires current.generation + 1 < U64_LIMIT && version > 0
    modifies p`image
    ensures CutAt(old(p.image), SwitchPlan(current, kernel, manifest, version), done, p.image)
    ensures r.Ok? ==> done == 3 && r.value == NextState(current, version)
    ensures p.Reliable() && Genuine(p.authentic, kernel, manifest, version) && Latest(old(p.image)) == Some(current) ==>
      r.Ok?
  {
    hide DecodeManifest, BootBytes, StateIn, Newer, Latest, SlotPlan, Torn, CutAt, MayRead, Performed;
    ghost var ready := p.image;
    var inactive := Other(current.active);
    var next := BootState(current.generation + 1, inactive, version);
    var stateName := if next.generation % 2 == 1 then State0 else State1;
    var encoded := EncodeBootState(next);
    ghost var w, rest := StateWrite(next), SlotPlan(current.active, kernel, manifest);
    NothingPerformed(ready);
    assert [] + [w] + rest == SwitchPlan(current, kernel, manifest, version);
    var ok := p.Write(stateName, encoded[..]);
    if !ok {
      CutSingle(ready, w, 0, p.image);
      CutInPart(ready, [], [w], rest, 0, p.image);
      return Err(WriteFailed), 0;
    }
    CutSingle(ready, w, 1, p.image);
    CutInPart(ready, [], [w], rest, 1, p.image);
    done := 1;
    if Latest(ready) == Some(current) {
      PersistedIsLatest(ready, current, inactive, version);
    }
    var found := p.LoadBootState();
    if found != Some(next) {
      return Err(StateReadbackDiffers), done;
    }
    PerformedMore(ready, [], w);
    assert [] + [w] == [w];
    var installed;
    installed, done := InstallSlot(p, current.active, kernel, manifest);
    CutInPart(ready, [w], rest, [], done, p.image);
    assert [w] + rest + [] == SwitchPlan(current, kernel, manifest, version);
    done := 1 + done;
    if installed.Fail? {
      return Err(installed.error), done;
    }
    return Ok(next), done;
  }

  lemma AnyStop(authentic: Verdict, floor: nat, before: Image, kernel: seq<byte>, manifest: seq<byte>, version: u64)
    requires Healthy(authentic, before, floor) && Genuine(authentic, kernel, manifest, version)
    ensures forall n: nat, after :: CutAt(before, PlanFor(Latest(before), kernel, manifest, version), n, after) ==>
      Updated(authentic, floor, before, kernel, manifest, after)
  {
    hide Latest, Healthy, Updated, CutAt, PlanFor, Genuine;
    forall n: nat, after | CutAt(before, PlanFor(Latest(before), kernel, manifest, version), n, after)
      ensures Updated(authentic, floor, before, kernel, manifest, after)
    {
      CutIsUpdated(authentic, floor, before, kernel, manifest, version, n, after);
    }
  }

  lemma NothingPerformed(image: Image)
    ensures Performed(image, []) == image
  {
  }

  lemma CutWhole(before: Image, plan: seq<FileWrite>, after: Image)
    requires CutAt(before, plan, |plan|, after)
    ensures after == Performed(before, plan)
  {
    assert plan[..|plan|] == plan;
  }

  lemma CutSingle(before: Image, w: FileWrite, n: nat, after: Image)
    requires (n == 0 && Torn(before, w.file, after)) || (n == 1 && after == before[w.file := w.bytes])
    ensures CutAt(before, [w], n, after)
  {
    hide Torn;
    NothingPerformed(before);
    PerformedMore(before, [], w);
    assert [] + [w] == [w];
    assert [w][..0] == [] && [w][..1] == [w];
  }

  lemma PerformedMore(before: Image, plan: seq<FileWrite>, w: FileWrite)
    ensures Performed(before, plan + [w]) == Performed(before, plan)[w.file := w.bytes]
  {
    assert (plan + [w])[..|plan|] == plan;
  }

  lemma StatesUntouched(before: Image, after: Image, slot: SystemSlot)
    requires SameExcept(before, after, SlotFiles(slot))
    ensures Latest(after) == Latest(before)
  {
    hide DecodeBootState;
    assert StateIn(after, State0) == StateIn(before, State0);
    assert StateIn(after, State1) == StateIn(before, State1);
  }

  // ----- Runs of updates and boots

  datatype Event = Reboot | Install(kernel: seq<byte>, manifest: seq<byte>, version: u64)

  /** One event: a boot, or an update of a genuine release that stops anywhere. */
  ghost predicate Happens(authentic: Verdict, before: (Image, nat), e: Event, after: (Image, nat))
  {
    match e
    case Reboot =>
      after == (AfterBoot(authentic, before.0, before.1), BootOutcome(authentic, before.0, before.1).1)
    case Install(kernel, manifest, version) =>
      && after.1 == before.1 && Genuine(authentic, kernel, manifest, version)
      && exists n: nat :: CutAt(before.0, PlanFor(Latest(before.0), kernel, manifest, version), n, after.0)
  }

  ghost predicate History(authentic: Verdict, states: seq<(Image, nat)>, events: seq<Event>)
  {
    && |states| == |events| + 1
    && forall i :: 0 <= i < |events| ==> Happens(authentic, states[i], events[i], states[i + 1])
  }

  lemma EventKeepsHealth(authentic: Verdict, before: (Image, nat), e: Event, after: (Image, nat))
    requires Healthy(authentic, before.0, before.1) && Happens(authentic, before, e, after)
    ensures Healthy(authentic, after.0, after.1)
    ensures Latest(before.0).Some? && Latest(after.0).Some?
    ensures Latest(before.0).value.version <= Latest(after.0).value.version
  {
    hide Latest, Release, StateIn, RunsOld, Runs, CutAt, PlanFor, Genuine;
    match e
    case Reboot =>
      hide BootOutcome;
      DirectBoot(authentic, before.0, before.1);
    case Install(kernel, manifest, version) =>
      var n: nat :| CutAt(before.0, PlanFor(Latest(before.0), kernel, manifest, version), n, after.0);
      hide Healthy;
      CutIsUpdated(authentic, before.1, before.0, kernel, manifest, version, n, after.0);
      HealthyHasState(authentic, after.0, after.1);
  }

  /** From a healthy image on, through any number of updates, each stopped after any of its
      writes or in the middle of one, and boots: the system always boots, directly and
      without recovery, and its version never goes down. */
  lemma {:induction false} AlwaysBoots(authentic: Verdict, states: seq<(Image, nat)>, events: seq<Event>, i: nat,
                                       j: nat)
    requires History(authentic, states, events) && i <= j < |states|
    requires Healthy(authentic, states[0].0, states[0].1)
    ensures Healthy(authentic, states[j].0, states[j].1)
    ensures var (r, _) := BootOutcome(authentic, states[j].0, states[j].1);
      r.Some? && !r.value.recovery && r.value.slot == Latest(states[j].0).value.active
    ensures Latest(states[i].0).Some? && Latest(states[i].0).value.version <= Latest(states[j].0).value.version
    decreases j
  {
    hide Latest, Release, StateIn, Happens, BootOutcome;
    if j > 0 {
      AlwaysBoots(authentic, states, events, if i < j then i else j - 1, j - 1);
      EventKeepsHealth(authentic, states[j - 1], events[j - 1], states[j]);
    }
    DirectBoot(authentic, states[j].0, states[j].1);
  }
}
