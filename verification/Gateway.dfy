/** The gateway as a whole: what it makes of the images it was assembled from, in the numbers and names
    of the build. */
module Gateway {
  import opened Bytes
  import opened Decimal
  import opened FwFields
  import opened FwHeader
  import opened FwImages
  import opened Layout
  import opened Sign
  import opened SignTheorems
  import opened Update

  lemma KeysAre()
    ensures PROD == Ascii("prod") && PROD_NAME == Ascii("prod_name")
    ensures VER_MAJ == Ascii("ver_maj") && VER_MIN == Ascii("ver_min") && VER_PAT == Ascii("ver_pat")
    ensures LDR_NAME == Ascii("sh_gw_ldr") && APP_NAME == Ascii("sh_gw_app")
  {}

  /** The image at `addr` is the tool's output for `file`. */
  ghost predicate Assembled(m: Bus, addr: ImageAddr, file: seq<Byte>, args: seq<seq<Byte>>, limit: int) {
    && Arguments(args) && Representable(file, args) && FirstBad(args) == |args|
    && SignSpec(file, args, limit).Signed? && Placed(m, addr, SignSpec(file, args, limit).image)
  }

  /** Where the field block ends, its last terminator included. */
  function FieldsEnd(file: seq<Byte>, args: seq<seq<Byte>>): nat {
    |ZeroPadded(file)| + Total(args) + 1
  }

  /** The lock of an image by itself. */
  function OwnVerdict(file: seq<Byte>, args: seq<Arg>, room: nat): Lock {
    if FieldsEnd(file, args) > room || args == [] then BY_ZERO_FIELDS_COUNT
    else if FirstValue(args, Ascii("prod_name")) == None then NO_PROD_NAME_FIELD
    else if FirstValue(args, Ascii("prod")) == None then NO_PROD_FIELD
    else NONE
  }

  lemma OwnLockOf(m: Bus, addr: ImageAddr, file: seq<Byte>, args: seq<seq<Byte>>, limit: int, room: nat)
    requires Assembled(m, addr, file, args, limit) && addr % 4 == 0 && MaxSize(addr) == room
    ensures RegionLock(m, addr, room) == OwnVerdict(file, args, room)
    ensures RegionOk(m, addr) ==> Field(m, addr, PROD) == FirstValue(args, PROD)
    ensures RegionOk(m, addr) ==> Field(m, addr, PROD_NAME) == FirstValue(args, PROD_NAME)
  {
    hide SignSpec, Representable, Arguments, Placed, FirstValue, Lookup, FieldStrings, FieldsCount, RegionLock, Ascii,
         ZeroPadded, Total;
    KeysAre();
    SignThenCheck(file, args, limit, m, addr, room);
  }

  /** Its lock next to a preloader: both must be of one product, and it must be the one that belongs there. */
  function FullVerdict(own: Lock, args: seq<Arg>, preldr: Lock, preldrArgs: seq<Arg>, name: string): Lock {
    if own != NONE then own
    else if preldr == NONE && FirstValue(preldrArgs, Ascii("prod")) != FirstValue(args, Ascii("prod"))
    then PROD_MISMATCH
    else if FirstValue(args, Ascii("prod_name")) != Some(Ascii(name)) then PROD_NAME_FAULT
    else NONE
  }

  /** The locks of a gateway, whatever its three images were signed with. */
  lemma ThreeLocks(m: Bus, p: seq<Byte>, pArgs: seq<Arg>, l: seq<Byte>, lArgs: seq<Arg>, a: seq<Byte>, aArgs: seq<Arg>,
                   limit: int)
    requires Assembled(m, PRELDR_START, p, pArgs, limit) && Assembled(m, LDR_START, l, lArgs, limit)
    requires Assembled(m, APP_START, a, aArgs, limit)
    ensures PreldrLock(m) == OwnVerdict(p, pArgs, 523887)
    ensures LdrLock(m) ==
            FullVerdict(OwnVerdict(l, lArgs, 507503), lArgs, OwnVerdict(p, pArgs, 523887), pArgs, "sh_gw_ldr")
    ensures AppLock(m) ==
            FullVerdict(OwnVerdict(a, aArgs, 392815), aArgs, OwnVerdict(p, pArgs, 523887), pArgs, "sh_gw_app")
  {
    hide Assembled, OwnVerdict, RegionLock, Field, Ascii, FirstValue;
    KeysAre();
    OwnLockOf(m, PRELDR_START, p, pArgs, limit, 523887);
    OwnLockOf(m, LDR_START, l, lArgs, limit, 507503);
    OwnLockOf(m, APP_START, a, aArgs, limit, 392815);
  }

  /** An application for the preloader's product is unlocked exactly if its field block ends within the
      first 392815 bytes, a loader within 507503. */
  lemma RoomExactly(m: Bus, p: seq<Byte>, pArgs: seq<Arg>, l: seq<Byte>, lArgs: seq<Arg>, a: seq<Byte>, aArgs: seq<Arg>,
                    limit: int)
    requires Assembled(m, PRELDR_START, p, pArgs, limit) && Assembled(m, LDR_START, l, lArgs, limit)
    requires Assembled(m, APP_START, a, aArgs, limit)
    requires FirstValue(pArgs, Ascii("prod")).Some?
    requires FirstValue(lArgs, Ascii("prod")) == FirstValue(aArgs, Ascii("prod")) == FirstValue(pArgs, Ascii("prod"))
    requires FirstValue(lArgs, Ascii("prod_name")) == Some(Ascii("sh_gw_ldr"))
    requires FirstValue(aArgs, Ascii("prod_name")) == Some(Ascii("sh_gw_app"))
    ensures LdrLock(m) == NONE <==> |ZeroPadded(l)| + Total(lArgs) + 1 <= 507503
    ensures AppLock(m) == NONE <==> |ZeroPadded(a)| + Total(aArgs) + 1 <= 392815
  {
    hide Assembled, LdrLock, AppLock, PreldrLock, Ascii, ZeroPadded, Total;
    ThreeLocks(m, p, pArgs, l, lArgs, a, aArgs, limit);
  }

  // ----- Versions -----

  /** What the device reports as the version of a signed image: the numbers under the three keys. */
  lemma ReportedVersion(m: Bus, fw: FwInfo, file: seq<Byte>, args: seq<Arg>, limit: int,
                        major: U32, minor: U32, patch: U32)
    requires Assembled(m, fw.addr, file, args, limit) && fw.addr % 4 == 0
    requires Checked(m, fw) && RegionOk(m, fw.addr)
    requires FirstValue(args, Ascii("ver_maj")) == Some(Dec(major))
    requires FirstValue(args, Ascii("ver_min")) == Some(Dec(minor))
    requires FirstValue(args, Ascii("ver_pat")) == Some(Dec(patch))
    ensures fw.verMajor == major && fw.verMinor == minor && fw.verPatch == patch
  {
    hide SignSpec, Representable, Arguments, Placed, FirstValue, FieldsCount, RegionLock, Ascii, Dec, NumberOr0,
         FieldAddr, Fits;
    KeysAre();
    SignThenCheck(file, args, limit, m, fw.addr, MaxSize(fw.addr));
    SignedVersion(file, args, limit, m, fw.addr, MaxSize(fw.addr), VER_MAJ, major);
    SignedVersion(file, args, limit, m, fw.addr, MaxSize(fw.addr), VER_MIN, minor);
    SignedVersion(file, args, limit, m, fw.addr, MaxSize(fw.addr), VER_PAT, patch);
  }

  // ----- Downloads -----

  /** Begin and length of the regions. */
  function Begin(image: Image): ImageAddr {
    match image
    case IMG_PRELDR => 0x0800_0000
    case IMG_LDR => 0x0800_4000
    case IMG_APP => 0x0802_0000
  }

  function Length(image: Image): nat {
    match image
    case IMG_PRELDR => 16384
    case IMG_LDR => 49152
    case IMG_APP => 393216
  }

  /** The download of an unlocked image that was signed and lies in its region is the tool's output, byte for
      byte; that of a locked one is its whole region. */
  lemma DownloadExactly(fs: FileServer, image: Image, file: seq<Byte>, args: seq<seq<Byte>>, limit: int)
    requires fs.Linked() && fs.AllChecked()
    ensures fs.Info(image).locked != NONE ==>
              fs.Download(image) == Mem(OnBus(fs.flash.cells, fs.tail), Begin(image), Length(image))
    ensures fs.Info(image).locked == NONE && limit <= Length(image)
            && Assembled(OnBus(fs.flash.cells, fs.tail), Begin(image), file, args, limit) ==>
              fs.Download(image) == SignSpec(file, args, limit).image
  {
    hide SignSpec, Representable, Arguments, Mem, HeaderWord, RegionLock, FieldsCount, FwInfo.Filled, OnBus, Describes;
    var m := OnBus(fs.flash.cells, fs.tail);
    if Assembled(m, Begin(image), file, args, limit) && limit <= Length(image) {
      SignedDescribes(file, args, limit);
      var bytes := SignSpec(file, args, limit).image;
      DescribedHeader(bytes, args);
      PlacedHeader(m, Begin(image), bytes, 0);
    }
  }
}
