/** Runs of the whole device: preloader, loader and application, with a reset at any moment. */
module NeverBricked {
  import opened Boot
  import opened FlashMemory
  import FwFields
  import opened FwHeader
  import opened FwImages
  import opened Layout
  import opened Update

  datatype Mode = RUN_PRELDR | RUN_LDR | RUN_APP | HALT

  datatype Device = Device(mode: Mode, src: LoadSrc, cells: Cells, tail: Tail) {
    function Memory(): FwFields.Bus {
      OnBus(cells, tail)
    }
  }

  /** The smallest events: the preloader jumps, an image leaves its mark for the next boot, one
      sector is erased or one byte programmed, power fails or the device resets. */
  datatype DeviceEvent =
    | Jumps(jump: Jump)
    | Marks
    | Writes(op: Op)
    | Resets(kept: bool)

  /** What the running program may erase and program: the loader the application's region, the
      application the loader's, both the configuration sector. */
  ghost predicate MayWrite(mode: Mode, op: Op) {
    match mode
    case RUN_LDR => WithinRegion(APP_REGION, op) || op.Within(CFG_SECT)
    case RUN_APP => WithinRegion(LDR_REGION, op) || op.Within(CFG_SECT)
    case _ => false
  }

  ghost predicate DeviceNext(d: Device, event: DeviceEvent, e: Device) {
    match event
    case Jumps(jump) =>
      && d.mode == RUN_PRELDR && GoodChoice(d.src, d.Memory(), jump)
      && e == d.(src := SRC_NONE, mode := match jump case ToLdr => RUN_LDR case ToApp => RUN_APP case Stuck => HALT)
    case Marks =>
      && d.mode in {RUN_LDR, RUN_APP}
      && e == d.(src := if d.mode == RUN_LDR then SRC_BOOTLOADER else SRC_APP)
    case Writes(op) =>
      op.Wf() && MayWrite(d.mode, op) && e == d.(cells := Apply(d.cells, op))
    case Resets(kept) =>
      e == d.(mode := RUN_PRELDR, src := if kept then d.src else SRC_NONE)
  }

  ghost predicate DeviceRun(states: seq<Device>, events: seq<DeviceEvent>) {
    && |states| == |events| + 1
    && forall i :: 0 <= i < |events| ==> DeviceNext(states[i], events[i], states[i + 1])
  }

  /** The preloader is a signed image in its region. */
  ghost predicate PreldrGood(d: Device) {
    RegionOk(d.Memory(), PRELDR_START) && Contained(d.Memory(), PRELDR_START, PRELDR_END)
  }

  /** A loader the preloader would accept is laid out as the host tool lays images out, inside its region. */
  ghost predicate LdrLaidOut(d: Device) {
    LdrLock(d.Memory()) == NONE ==> Contained(d.Memory(), LDR_START, LDR_END)
  }

  ghost predicate Safe(d: Device) {
    && PreldrGood(d)
    && match d.mode
       case RUN_PRELDR => LdrLock(d.Memory()) == NONE || AppLock(d.Memory()) == NONE
       case RUN_LDR => LdrLock(d.Memory()) == NONE && Contained(d.Memory(), LDR_START, LDR_END)
       case RUN_APP => AppLock(d.Memory()) == NONE
       case HALT => false
  }

  lemma OpKeeps(cells: Cells, op: Op, tail: Tail, from: int, to: int)
    requires op.Wf() && FLASH_START <= from <= to <= FLASH_FINISH
    requires forall a: Addr :: from <= a < to ==> !op.Within(SectorOf(a))
    ensures Agree(OnBus(cells, tail), OnBus(Apply(cells, op), tail), from, to)
  {
    var m, n := OnBus(cells, tail), OnBus(Apply(cells, op), tail);
    var f, t := from - FLASH_START, to - FLASH_START;
    forall k | 0 <= k < t - f
      ensures m[f..t][k] == n[f..t][k]
    {
      assert At(cells, from + k) == At(Apply(cells, op), from + k);
    }
  }

  /** What a running program may write leaves the preloader and itself as they are. */
  lemma WritesSpareTheWriter(mode: Mode, cells: Cells, op: Op, tail: Tail)
    requires op.Wf() && MayWrite(mode, op)
    ensures var m, n := OnBus(cells, tail), OnBus(Apply(cells, op), tail);
            && Agree(m, n, PRELDR_START, PRELDR_END)
            && (mode == RUN_LDR ==> Agree(m, n, LDR_START, LDR_END))
            && (mode == RUN_APP ==> Agree(m, n, APP_START, APP_END))
  {
    hide Apply, Agree;
    OpKeeps(cells, op, tail, PRELDR_START, PRELDR_END);
    if mode == RUN_LDR {
      OpKeeps(cells, op, tail, LDR_START, LDR_END);
    } else {
      OpKeeps(cells, op, tail, APP_START, APP_END);
    }
  }

  lemma LdrSurvives(m: FwFields.Bus, n: FwFields.Bus)
    requires RegionOk(m, PRELDR_START) && Contained(m, PRELDR_START, PRELDR_END)
    requires Agree(m, n, PRELDR_START, PRELDR_END) && Agree(m, n, LDR_START, LDR_END)
    requires LdrLock(m) == NONE && Contained(m, LDR_START, LDR_END)
    ensures LdrLock(n) == NONE && Contained(n, LDR_START, LDR_END)
  {
    hide Agree, ImageLock, RegionOk, Contained;
    ImageLockIsLocal(m, n, LDR_START, LDR_END, LDR_NAME);
  }

  lemma AppSurvives(m: FwFields.Bus, n: FwFields.Bus)
    requires RegionOk(m, PRELDR_START) && Contained(m, PRELDR_START, PRELDR_END)
    requires Agree(m, n, PRELDR_START, PRELDR_END) && Agree(m, n, APP_START, APP_END)
    requires AppLock(m) == NONE
    ensures AppLock(n) == NONE
  {
    hide Agree, ImageLock, RegionOk, Contained;
    UnlockedIsOk(m, APP_START, APP_NAME);
    AppIsContained(m);
    ImageLockIsLocal(m, n, APP_START, APP_END, APP_NAME);
  }

  lemma WriteKeepsSafe(d: Device, op: Op)
    requires Safe(d) && op.Wf() && MayWrite(d.mode, op)
    ensures Safe(d.(cells := Apply(d.cells, op)))
  {
    hide Apply, Agree, LdrLock, AppLock, RegionOk, Contained, OnBus, WithinRegion;
    var m, n := d.Memory(), d.(cells := Apply(d.cells, op)).Memory();
    WritesSpareTheWriter(d.mode, d.cells, op, d.tail);
    RegionCheckIsLocal(m, n, PRELDR_START, PRELDR_END, PROD);
    if d.mode == RUN_LDR {
      LdrSurvives(m, n);
    } else {
      AppSurvives(m, n);
    }
  }

  lemma NextKeepsSafe(d: Device, event: DeviceEvent, e: Device)
    requires Safe(d) && DeviceNext(d, event, e)
    requires event == Jumps(ToLdr) ==> LdrLaidOut(d)
    ensures Safe(e)
  {
    hide Apply, MayWrite, LdrLock, AppLock, OnBus, RegionOk, Contained;
    match event
    case Jumps(_) =>
    case Marks =>
    case Writes(op) => WriteKeepsSafe(d, op);
    case Resets(_) =>
  }

  /** In every run from a start with the loader or the application valid, the running image is
      unlocked in every state, and the preloader never reaches its halt loop. The one thing assumed
      of what was uploaded is that a loader the preloader jumps to lies inside its region. */
  lemma {:induction false} NeverBricked(states: seq<Device>, events: seq<DeviceEvent>)
    requires DeviceRun(states, events)
    requires states[0].mode == RUN_PRELDR && PreldrGood(states[0])
    requires LdrLock(states[0].Memory()) == NONE || AppLock(states[0].Memory()) == NONE
    requires forall i :: 0 <= i < |events| && events[i] == Jumps(ToLdr) ==> LdrLaidOut(states[i])
    ensures forall i :: 0 <= i < |states| ==> Safe(states[i])
    ensures forall i :: 0 <= i < |states| ==> states[i].mode != HALT
  {
    hide DeviceNext, LdrLock, AppLock, OnBus, PreldrGood, LdrLaidOut;
    if events != [] {
      var n := |events|;
      var before := states[..n];
      forall i | 0 <= i < n - 1
        ensures DeviceNext(before[i], events[..n - 1][i], before[i + 1])
      {
        assert DeviceNext(states[i], events[i], states[i + 1]);
      }
      NeverBricked(before, events[..n - 1]);
      assert Safe(before[n - 1]);
      NextKeepsSafe(states[n - 1], events[n - 1], states[n]);
    }
  }

  /** A firmware write of any program, cut off after any number of its elementary operations, is safe. */
  lemma {:induction false} CutOffAnywhere(d: Device, ops: seq<Op>, k: nat)
    requires Safe(d) && OpsWf(ops) && k <= |ops|
    requires forall i :: 0 <= i < |ops| ==> MayWrite(d.mode, ops[i])
    ensures OpsWf(ops[..k]) && Safe(d.(cells := ApplyAll(d.cells, ops[..k])))
  {
    hide Apply, MayWrite, LdrLock, AppLock, OnBus, PreldrGood;
    if k > 0 {
      CutOffAnywhere(d, ops, k - 1);
      assert ops[..k][..k - 1] == ops[..k - 1];
      WriteKeepsSafe(d.(cells := ApplyAll(d.cells, ops[..k - 1])), ops[k - 1]);
    }
  }

  /** The operations of a firmware update or of a configuration save. */
  ghost predicate UpdateOrSave(mode: Mode, ops: seq<Op>) {
    match mode
    case RUN_LDR => AllWithin(APP_REGION, ops) || MeetRange(ops, CFG_ORIGIN, CFG_SIZE)
    case RUN_APP => AllWithin(LDR_REGION, ops) || MeetRange(ops, CFG_ORIGIN, CFG_SIZE)
    case _ => false
  }

  lemma CfgIsOneSector(op: Op)
    requires MeetsRange(op, CFG_ORIGIN, CFG_SIZE)
    ensures op.Within(CFG_SECT)
  {
    var i: nat :| i < SECTORS && op.Within(i) && Desc(i).Meets(CFG_ORIGIN, CFG_SIZE);
    assert i == CFG_SECT;
  }

  /** Cutting the power inside an update or a save, after whichever elementary operation, leaves a
      device that boots. */
  lemma PowerLoss(d: Device, ops: seq<Op>, k: nat, kept: bool)
    requires Safe(d) && OpsWf(ops) && k <= |ops| && UpdateOrSave(d.mode, ops)
    ensures OpsWf(ops[..k])
    ensures Safe(Device(RUN_PRELDR, if kept then d.src else SRC_NONE, ApplyAll(d.cells, ops[..k]), d.tail))
  {
    hide LdrLock, AppLock, OnBus, PreldrGood, WithinRegion, MeetsRange, Op.Within, ApplyAll, Safe;
    forall i | 0 <= i < |ops|
      ensures MayWrite(d.mode, ops[i])
    {
      if MeetRange(ops, CFG_ORIGIN, CFG_SIZE) {
        CfgIsOneSector(ops[i]);
      }
    }
    CutOffAnywhere(d, ops, k);
    var cut := d.(cells := ApplyAll(d.cells, ops[..k]));
    NextKeepsSafe(cut, Resets(kept), cut.(mode := RUN_PRELDR, src := if kept then d.src else SRC_NONE));
  }
}
