/** From the host tool to the preloader's verdict: a signed image, received whole, in its region. */
module EndToEnd {
  import opened Bytes
  import opened FlashMemory
  import opened FwFields
  import opened FwHeader
  import opened FwImages
  import opened Layout
  import opened Sign
  import opened SignTheorems
  import opened Update

  /** After an update that was received whole the region begins with the file. */
  lemma ReceivedIsPlaced(base: Cells, tail: Tail, region: Region, image: seq<Byte>)
    requires region.Wf() && |image| <= region.end - region.start
    ensures Placed(OnBus(Written(base, NotErased(), region.start, image), tail), region.start, image)
  {
    hide WrittenAt;
    var cells := Written(base, NotErased(), region.start, image);
    forall k | 0 <= k < |image|
      ensures Mem(OnBus(cells, tail), region.start, |image|)[k] == image[k]
    {
      assert At(cells, region.start + k) == image[k] by {
        WrittenHere(base, NotErased(), region.start, image, k);
      }
    }
  }

  lemma Verdict(m: Bus, addr: ImageAddr, name: seq<Byte>, args: seq<Arg>, fits: bool)
    requires RegionLock(m, addr, MaxSize(addr)) == if fits then LockFor(args) else BY_ZERO_FIELDS_COUNT
    requires fits && args != [] ==> FindsFields(m, addr, MaxSize(addr), args)
    ensures ImageLock(m, addr, name) == NONE <==>
              && fits
              && FirstValue(args, PROD).Some? && FirstValue(args, PROD_NAME) == Some(name)
              && (RegionOk(m, PRELDR_START) ==> Field(m, PRELDR_START, PROD) == FirstValue(args, PROD))
  {
    hide RegionLock, FirstValue, Lookup, FieldStrings, FieldsCount;
    NoFieldsNoValue(args);
    if RegionOk(m, addr) {
      assert Field(m, addr, PROD) == FirstValue(args, PROD);
      assert Field(m, addr, PROD_NAME) == FirstValue(args, PROD_NAME);
    }
  }

  /** The lock an updated image gets: none exactly when it was signed with both product fields, the
      preloader's product and its own name, and its field block ends within the checked size. */
  lemma SignedUpdate(file: seq<Byte>, args: seq<seq<Byte>>, limit: int, base: Cells, tail: Tail, region: Region,
                     name: seq<Byte>)
    requires region.Wf() && limit <= region.end - region.start
    requires Arguments(args) && Representable(file, args) && SignSpec(file, args, limit).Signed?
    requires FirstBad(args) == |args|
    ensures var m := OnBus(Written(base, NotErased(), region.start, SignSpec(file, args, limit).image), tail);
            && (ImageLock(m, region.start, name) == NONE <==>
                  && Fits(|ZeroPadded(file)|, args, MaxSize(region.start))
                  && FirstValue(args, PROD).Some? && FirstValue(args, PROD_NAME) == Some(name)
                  && (RegionOk(m, PRELDR_START) ==> Field(m, PRELDR_START, PROD) == FirstValue(args, PROD)))
            && (RegionOk(m, region.start) ==> Contained(m, region.start, region.end))
  {
    hide SignSpec, Representable, Arguments, Placed, Written, OnBus, RegionOk, ImageLock, Field, FirstValue,
         Contained, Fits, Describes, Region.Wf, ZeroPadded, MaxSize;
    SignedDescribes(file, args, limit);
    var image := SignSpec(file, args, limit).image;
    RegionFacts(region);
    ReceivedIsPlaced(base, tail, region, image);
    var m := OnBus(Written(base, NotErased(), region.start, image), tail);
    SignedAt(file, args, limit, m, region.start, region.end, name);
  }

  lemma RegionFacts(region: Region)
    requires region.Wf()
    ensures FLASH_START <= region.start && region.start % 4 == 0 && region.start + 0x1000 <= region.end <= FLASH_FINISH
  {}

  lemma SignedAt(file: seq<Byte>, args: seq<seq<Byte>>, limit: int, m: Bus, addr: ImageAddr, end: int, name: seq<Byte>)
    requires Arguments(args) && Representable(file, args) && SignSpec(file, args, limit).Signed?
    requires FirstBad(args) == |args| && addr % 4 == 0 && end <= FLASH_FINISH
    requires Placed(m, addr, SignSpec(file, args, limit).image)
    ensures ImageLock(m, addr, name) == NONE <==>
              && Fits(|ZeroPadded(file)|, args, MaxSize(addr))
              && FirstValue(args, PROD).Some? && FirstValue(args, PROD_NAME) == Some(name)
              && (RegionOk(m, PRELDR_START) ==> Field(m, PRELDR_START, PROD) == FirstValue(args, PROD))
    ensures RegionOk(m, addr) ==> (Contained(m, addr, end) <==> addr + |SignSpec(file, args, limit).image| <= end)
  {
    hide SignSpec, Representable, Arguments, Placed, RegionOk, ImageLock, Field, FirstValue, Contained, Fits,
         LockFor, FindsFields;
    SignThenCheck(file, args, limit, m, addr, MaxSize(addr));
    Verdict(m, addr, name, args, Fits(|ZeroPadded(file)|, args, MaxSize(addr)));
    if RegionOk(m, addr) {
      SignedIsContained(file, args, limit, m, addr, end);
    }
  }

  /** A gateway assembled as the build does it, from a preloader and a loader signed for the same product,
      is a good start: the preloader is unlocked and contained in its region, and so is the loader, which the
      build signs with the limit `LDR_LIMIT`. Signed with a larger one it is unlocked all the same. */
  lemma AssembledGateway(preldr: seq<Byte>, preldrArgs: seq<seq<Byte>>, ldr: seq<Byte>, ldrArgs: seq<seq<Byte>>,
                         limit: int, m: Bus)
    requires Arguments(preldrArgs) && Representable(preldr, preldrArgs) && FirstBad(preldrArgs) == |preldrArgs|
    requires Arguments(ldrArgs) && Representable(ldr, ldrArgs) && FirstBad(ldrArgs) == |ldrArgs|
    requires SignSpec(preldr, preldrArgs, PRELDR_LIMIT).Signed? && SignSpec(ldr, ldrArgs, limit).Signed?
    requires limit <= MaxSize(LDR_START)
    requires Placed(m, PRELDR_START, SignSpec(preldr, preldrArgs, PRELDR_LIMIT).image)
    requires Placed(m, LDR_START, SignSpec(ldr, ldrArgs, limit).image)
    requires FirstValue(preldrArgs, PROD).Some? && FirstValue(preldrArgs, PROD_NAME).Some?
    requires FirstValue(ldrArgs, PROD) == FirstValue(preldrArgs, PROD)
        && FirstValue(ldrArgs, PROD_NAME) == Some(LDR_NAME)
    ensures RegionOk(m, PRELDR_START) && Contained(m, PRELDR_START, PRELDR_END)
    ensures LdrLock(m) == NONE && RegionOk(m, LDR_START)
    ensures Contained(m, LDR_START, LDR_END) <==> |SignSpec(ldr, ldrArgs, limit).image| <= LDR_LIMIT
    ensures limit <= LDR_LIMIT ==> Contained(m, LDR_START, LDR_END)
  {
    hide SignSpec, Representable, Arguments, Placed, RegionLock, Contained, FirstValue, Lookup, FieldStrings,
         FieldsCount, Fits, ImageLock, Describes, ZeroPadded;
    ShortFits(preldr, preldrArgs, PRELDR_LIMIT, PRELDR_START);
    ShortFits(ldr, ldrArgs, limit, LDR_START);
    NoFieldsNoValue(preldrArgs);
    SignThenCheck(preldr, preldrArgs, PRELDR_LIMIT, m, PRELDR_START, MaxSize(PRELDR_START));
    SignedDescribes(preldr, preldrArgs, PRELDR_LIMIT);
    SignedIsContained(preldr, preldrArgs, PRELDR_LIMIT, m, PRELDR_START, PRELDR_END);
    assert Field(m, PRELDR_START, PROD) == FirstValue(preldrArgs, PROD);
    SignedAt(ldr, ldrArgs, limit, m, LDR_START, LDR_END, LDR_NAME);
    SignedDescribes(ldr, ldrArgs, limit);
    UnlockedIsOk(m, LDR_START, LDR_NAME);
  }

  const PRELDR_LIMIT := 4096
  const LDR_LIMIT := 49152

  /** Only the application's limit exceeds the checked size. */
  lemma ShortFits(file: seq<Byte>, args: seq<seq<Byte>>, limit: int, addr: ImageAddr)
    requires Arguments(args) && Representable(file, args) && SignSpec(file, args, limit).Signed?
    requires limit <= MaxSize(addr)
    ensures Fits(|ZeroPadded(file)|, args, MaxSize(addr))
  {
    hide ZeroPadded, Layouted, Total;
    ImageFits(file, args, limit);
  }

  lemma NoFieldsNoValue(args: seq<Arg>)
    ensures args == [] ==> FirstValue(args, PROD) == None
  {}

  // ----- The size limit of the build -----

  lemma {:induction false} DelimiterAfter(key: seq<Byte>, value: seq<Byte>)
    requires forall i :: 0 <= i < |key| ==> key[i] != EQUALS
    ensures Delimiter(key + [EQUALS] + value) == |key|
  {
    if key != [] {
      DelimiterAfter(key[1..], value);
      assert (key + [EQUALS] + value)[1..] == key[1..] + [EQUALS] + value;
    } else {
      assert (key + [EQUALS] + value)[0] == EQUALS;
    }
  }

  /** A binary of `n` bytes with the pattern where the header goes. */
  function Binary(n: nat): (s: seq<Byte>)
    requires n >= HEADER_END
    ensures |s| == n
  {
    Zeros(HEADER_OFFSET) + PATTERN + Zeros(n - HEADER_END)
  }

  /** The product fields of a product called "1". */
  function ProductArgs(name: seq<Byte>): seq<seq<Byte>> {
    [PROD + [EQUALS] + [49], PROD_NAME + [EQUALS] + name]
  }

  lemma ProductArgsAre(name: seq<Byte>)
    requires name != [] && NoNul(name)
    ensures var args := ProductArgs(name);
            && Arguments(args) && FirstBad(args) == |args| && Total(args) == |name| + 18
            && FirstValue(args, PROD) == Some([49]) && FirstValue(args, PROD_NAME) == Some(name)
  {
    DelimiterAfter(PROD, [49]);
    DelimiterAfter(PROD_NAME, name);
    TotalOfTwo(ProductArgs(name));
  }

  const APP_LIMIT := 393216

  /** Leaves no room for the field block within the checked size of the application. */
  const LONG := 392811

  /** The limit the build gives for the application, its whole region, is larger than the size the
      device checks: this image is signed without complaint and locked on the device, in every flash. */
  lemma LimitTooLarge(base: Cells, tail: Tail)
    ensures var args := ProductArgs(APP_NAME);
            && APP_LIMIT == APP_END - APP_START
            && Arguments(args) && Representable(Binary(LONG), args)
            && var signed := SignSpec(Binary(LONG), args, APP_LIMIT);
               && signed.Signed?
               && var m := OnBus(Written(base, NotErased(), APP_START, signed.image), tail);
                  ImageLock(m, APP_START, APP_NAME) != NONE
  {
    hide Written, OnBus, ImageLock, SignSpec, ZeroPadded, Total, Binary, ProductArgs;
    var args := ProductArgs(APP_NAME);
    ProductArgsAre(APP_NAME);
    SignedBinary(LONG, args, APP_LIMIT);
    SignedUpdate(Binary(LONG), args, APP_LIMIT, base, tail, APP_REGION, APP_NAME);
  }

  lemma TotalOfTwo(args: seq<seq<Byte>>)
    requires |args| == 2
    ensures Total(args) == |args[0]| + |args[1]| + 2
  {
    assert args[..1][..0] == [] && Total(args[..1][..0]) == 0;
    assert Total(args[..1]) == |args[0]| + 1;
  }

  /** Such a binary is signed whenever there is room. */
  lemma SignedBinary(n: nat, args: seq<seq<Byte>>, limit: int)
    requires Arguments(args) && FirstBad(args) == |args|
    requires HEADER_END <= n && n + Total(args) + 8 <= limit < 0x8000_0000
    ensures Representable(Binary(n), args) && SignSpec(Binary(n), args, limit).Signed?
    ensures n < |ZeroPadded(Binary(n))| <= |SignSpec(Binary(n), args, limit).image|
  {
    hide ZeroPadded, FieldsOf, Cat, Binary, Total, Layouted, HasPattern;
    BinaryPadded(n);
    TotalFields(args);
    PatternStays(Binary(n), args);
  }

  lemma PatternStays(file: seq<Byte>, args: seq<Arg>)
    requires HasPattern(ZeroPadded(file))
    ensures HasPattern(Layouted(file, args))
    ensures |ZeroPadded(file)| <= |Layouted(file, args)| <= |ZeroPadded(file)| + |Cat(FieldsOf(args))| + 4
  {
    hide ZeroPadded, FieldsOf, Cat;
    var p := ZeroPadded(file);
    var body := p + Cat(FieldsOf(args));
    assert body[HEADER_OFFSET..HEADER_END] == p[HEADER_OFFSET..HEADER_END];
    assert Layouted(file, args)[HEADER_OFFSET..HEADER_END] == body[HEADER_OFFSET..HEADER_END];
  }

  lemma BinaryPadded(n: nat)
    requires n >= HEADER_END
    ensures HasPattern(ZeroPadded(Binary(n)))
  {
    assert Binary(n)[HEADER_OFFSET..HEADER_END] == PATTERN;
  }
}
