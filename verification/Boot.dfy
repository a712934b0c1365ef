/** The preloader's choice (preldr/preldr.c) and the loader's boot delay (ldr/ldr.c). */
module Boot {
  import opened Bytes
  import Crc
  import FwFields
  import opened FwHeader
  import opened FwImages
  import opened Layout

  datatype LoadSrc = SRC_NONE | SRC_BOOTLOADER | SRC_APP
  datatype Jump = ToLdr | ToApp | Stuck

  /** What the preloader must do: the loader first, unless it just rebooted into the application; an
      image that is locked never; its halt loop only when both are. */
  ghost predicate GoodChoice(src: LoadSrc, m: FwFields.Bus, jump: Jump) {
    && (jump == ToLdr ==> LdrLock(m) == NONE)
    && (jump == ToApp ==> AppLock(m) == NONE)
    && (jump == Stuck <==> LdrLock(m) != NONE && AppLock(m) != NONE)
    && (LdrLock(m) == NONE && AppLock(m) == NONE ==> jump == if src == SRC_BOOTLOADER then ToApp else ToLdr)
  }

  class Preldr {
    var loadSrc: LoadSrc
    const crc: Crc.CrcUnit
    const preldr: FwInfo
    const ldr: FwInfo
    const app: FwInfo

    constructor (loadSrc: LoadSrc)
      ensures this.loadSrc == loadSrc && Linked()
      ensures fresh(crc) && fresh(preldr) && fresh(ldr) && fresh(app)
    {
      this.loadSrc := loadSrc;
      crc := new Crc.CrcUnit();
      preldr := new FwInfo(PRELDR_START);
      ldr := new FwInfo(LDR_START);
      app := new FwInfo(APP_START);
    }

    predicate Linked() {
      preldr.addr == PRELDR_START && ldr.addr == LDR_START && app.addr == APP_START
    }

    method Start(m: FwFields.Bus) returns (jump: Jump)
      requires Linked()
      modifies this, crc, preldr, ldr, app
      ensures GoodChoice(old(loadSrc), m, jump)
      ensures loadSrc == SRC_NONE
    {
      hide LdrLock, AppLock, RegionLock;
      var src := loadSrc;
      loadSrc := SRC_NONE;
      CheckAll(m, crc, preldr, ldr, app);
      if src == SRC_BOOTLOADER {
        if app.locked == NONE {
          return ToApp;
        }
      }
      if ldr.locked == NONE {
        return ToLdr;
      }
      if app.locked == NONE {
        return ToApp;
      }
      return Stuck;
    }
  }

  /** The choice is determined. */
  lemma ChoiceIsUnique(src: LoadSrc, m: FwFields.Bus, a: Jump, b: Jump)
    requires GoodChoice(src, m, a) && GoodChoice(src, m, b)
    ensures a == b
  {
    hide LdrLock, AppLock;
  }

  // ----- The loader's main loop -----

  const BOOT_DELAY := 5000
  const SYSTICK_IN_MS := 168000

  class LdrLoop {
    var loadSrc: LoadSrc
    var bootDelay: nat
    var remainMs: nat
    /** CPU clocks since the loop began. */
    ghost var clocks: nat

    /** The milliseconds counted are all whole ones that passed. */
    ghost predicate Valid()
      reads this
    {
      && remainMs == clocks % SYSTICK_IN_MS
      && bootDelay == if clocks / SYSTICK_IN_MS >= BOOT_DELAY then 0 else BOOT_DELAY - clocks / SYSTICK_IN_MS
    }

    constructor ()
      ensures Valid() && clocks == 0
      ensures loadSrc == SRC_BOOTLOADER
    {
      loadSrc, bootDelay, remainMs, clocks := SRC_BOOTLOADER, BOOT_DELAY, 0, 0;
    }

    /** One round; `diff` is the time since the last. True when it resets the device. */
    method Round(diff: U32, stayInBoot: bool, app: FwInfo) returns (reset: bool)
      requires Valid() && diff + SYSTICK_IN_MS < U32_MOD
      modifies this`bootDelay, this`remainMs, this`clocks
      ensures reset <==> old(clocks) / SYSTICK_IN_MS >= BOOT_DELAY && !stayInBoot && app.locked == NONE
      ensures !reset ==> Valid() && clocks == old(clocks) + diff
    {
      var diffMs := (diff + remainMs) / SYSTICK_IN_MS;
      Carry(clocks, diff);
      remainMs := (diff + remainMs) % SYSTICK_IN_MS;
      if bootDelay == 0 && !stayInBoot && app.locked == NONE {
        return true;
      }
      bootDelay := if bootDelay >= diffMs then bootDelay - diffMs else 0;
      clocks := clocks + diff;
      return false;
    }
  }

  /** Carrying the remainder over loses no time. */
  lemma Carry(a: nat, b: nat)
    ensures (a + b) / SYSTICK_IN_MS == a / SYSTICK_IN_MS + (b + a % SYSTICK_IN_MS) / SYSTICK_IN_MS
    ensures (a + b) % SYSTICK_IN_MS == (b + a % SYSTICK_IN_MS) % SYSTICK_IN_MS
  {}
}
