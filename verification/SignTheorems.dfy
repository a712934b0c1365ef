/** What the device makes of an image the host tool produced. */
module SignTheorems {
  import opened Bytes
  import opened Crc
  import opened FlashMemory
  import Decimal
  import opened FwFields
  import opened FwHeader
  import FwImages
  import opened Layout
  import opened Sign

  function WordIn(image: seq<Byte>, k: nat): U32
    requires k < 4 && HEADER_END <= |image|
  {
    FromLe32(image[HEADER_OFFSET + 4 * k..HEADER_OFFSET + 4 * k + 4])
  }

  /** An image whose header describes it and whose field block holds `args`. */
  ghost predicate Describes(image: seq<Byte>, args: seq<Arg>) {
    && HEADER_END < |image| < U32_MOD && |image| % 4 == 0
    && WordIn(image, 0) == |image|
    && WordIn(image, 1) == BodyCrc(image)
    && HEADER_END < WordIn(image, 2) < |image|
    && Cat(FieldsOf(args)) + [0] <= image[WordIn(image, 2)..]
    && Proper(FieldsOf(args))
  }

  /** The fields of an image that carries the pattern begin behind the header: the padding that ends
      the input file cannot match the pattern. */
  lemma FieldsBehindHeader(file: seq<Byte>, args: seq<Arg>)
    requires |ZeroPadded(file)| >= HEADER_OFFSET + 4 && HasPattern(Layouted(file, args))
    ensures HEADER_END < |ZeroPadded(file)|
  {
    hide ZeroPadded, FieldsOf, Cat;
    var s, p := Layouted(file, args), ZeroPadded(file);
    assert (p + Cat(FieldsOf(args)))[|p| - 1] == p[|p| - 1] == 0;
    var i := if |p| <= HEADER_END then |p| - 1 - HEADER_OFFSET else 0;
    assert s[HEADER_OFFSET..HEADER_END][i] == PATTERN[i] != 0;
  }

  /** `key=value`, both not empty; the first `=` (61 in ASCII) ends the key. */
  ghost predicate KeyValue(a: seq<Byte>) {
    exists k :: 0 < k < |a| - 1 && a[k] == 61 && forall j :: 0 <= j < k ==> a[j] != 61
  }

  lemma GoodArgIs(a: seq<Byte>)
    ensures GoodArg(a) <==> KeyValue(a)
    ensures GoodArg(a) ==> a == Key(a) + [61] + Value(a) && 61 !in Key(a)
  {
    FirstDelimiter(a);
  }

  lemma {:induction false} FirstDelimiter(a: seq<Byte>)
    ensures var k := Delimiter(a);
            if k < 0 then forall j :: 0 <= j < |a| ==> a[j] != EQUALS else forall j :: 0 <= j < k ==> a[j] != EQUALS
  {
    if a != [] && a[0] != EQUALS {
      FirstDelimiter(a[1..]);
      assert forall j :: 0 < j < |a| ==> a[j] == a[1..][j - 1];
    }
  }

  /** When the tool succeeds, and why not: the input is too small, an argument is malformed, the pattern is not
      in its place, the image exceeds the limit. */
  lemma SignExactly(file: seq<Byte>, args: seq<seq<Byte>>, limit: int)
    requires Representable(file, args)
    ensures var padded := |file| / 4 * 4 + 4;
            var size := (padded + Total(args)) / 4 * 4 + 4;
            var r := SignSpec(file, args, limit);
            if padded < 404 then r == Failed(7)
            else if exists i :: 0 <= i < |args| && !KeyValue(args[i]) then r == Failed(3)
            else if |file| < 416 || file[400..416] != PATTERN then r == Failed(7)
            else if limit < size then r == Failed(8)
            else r.Signed? && |r.image| == size
  {
    hide Layouted, KeyValue, GoodArg, BodyCrc, ZeroPadded, Total, HasPattern;
    GoodArgsAre(args);
    PaddedLength(file);
    if |ZeroPadded(file)| >= HEADER_OFFSET + 4 && FirstBad(args) == |args| {
      LayoutedLength(file, args);
      PatternInFile(file, args);
    }
  }

  lemma GoodArgsAre(args: seq<seq<Byte>>)
    ensures FirstBad(args) == |args| <==> forall i :: 0 <= i < |args| ==> KeyValue(args[i])
  {
    hide KeyValue, GoodArg;
    forall i | 0 <= i < |args|
      ensures GoodArg(args[i]) <==> KeyValue(args[i])
    {
      GoodArgIs(args[i]);
    }
  }

  lemma PaddedLength(s: seq<Byte>)
    ensures |ZeroPadded(s)| == |s| / 4 * 4 + 4
  {}

  lemma LayoutedLength(file: seq<Byte>, args: seq<Arg>)
    ensures |Layouted(file, args)| == (|file| / 4 * 4 + 4 + Total(args)) / 4 * 4 + 4
  {
    hide ZeroPadded, FieldsOf, Cat, Total;
    TotalFields(args);
    PaddedLength(file);
    PaddedLength(ZeroPadded(file) + Cat(FieldsOf(args)));
  }

  /** The pattern of the image is the input's. */
  lemma PatternInFile(file: seq<Byte>, args: seq<Arg>)
    requires |ZeroPadded(file)| >= HEADER_OFFSET + 4
    ensures HasPattern(Layouted(file, args)) <==> |file| >= 416 && file[400..416] == PATTERN
  {
    hide FieldsOf, Cat;
    var p, s := ZeroPadded(file), Layouted(file, args);
    var body := p + Cat(FieldsOf(args));
    if HasPattern(s) {
      FieldsBehindHeader(file, args);
    }
    if |file| >= 416 {
      assert file[400..416] == p[400..416] == body[400..416] == s[400..416];
    }
  }

  /** Whatever the tool puts out describes itself. */
  lemma SignedDescribes(file: seq<Byte>, args: seq<seq<Byte>>, limit: int)
    requires Arguments(args) && Representable(file, args) && SignSpec(file, args, limit).Signed?
    ensures FirstBad(args) == |args|
    ensures var image := SignSpec(file, args, limit).image;
            Describes(image, args) && |image| <= limit && WordIn(image, 2) == |ZeroPadded(file)|
            && ZeroPadded(file)[..HEADER_OFFSET] == image[..HEADER_OFFSET]
            && ZeroPadded(file)[HEADER_END..] <= image[HEADER_END..]
            && image[HEADER_OFFSET + 12..HEADER_END] == PATTERN[12..]
  {
    hide Cat, FieldsOf, CrcBytes, CrcWords, Words, Number, ZeroPadded, Le32, FromLe32;
    TotalFields(args);
    FieldsBehindHeader(file, args);
    var p, s := ZeroPadded(file), Layouted(file, args);
    var body := p + Cat(FieldsOf(args));
    assert body <= s;
    var image := SignSpec(file, args, limit).image;
    HeaderWords(s, |s|, BodyCrc(s), |p|);
    assert image == WithHeader(s, |s|, BodyCrc(s), |p|);
    assert image[|p|..] == s[|p|..];
    assert s[|p|..][..|Cat(FieldsOf(args))|] == Cat(FieldsOf(args));
    assert s[|p|..][|Cat(FieldsOf(args))|] == s[|body|] == 0;
    assert ZeroPadded(file)[..HEADER_OFFSET] == s[..HEADER_OFFSET];
    assert p[HEADER_END..] == s[HEADER_END..|p|];
    ProperFields(args);
  }

  lemma HeaderWords(s: seq<Byte>, size: U32, crc: U32, fieldsOffset: U32)
    requires HEADER_END <= |s|
    ensures var image := WithHeader(s, size, crc, fieldsOffset);
            && WordIn(image, 0) == size && WordIn(image, 1) == crc && WordIn(image, 2) == fieldsOffset
            && image[..HEADER_OFFSET] == s[..HEADER_OFFSET] && image[HEADER_END..] == s[HEADER_END..]
  {
    hide Le32, FromLe32;
    var image := WithHeader(s, size, crc, fieldsOffset);
    Le32RoundTrip(size);
    Le32RoundTrip(crc);
    Le32RoundTrip(fieldsOffset);
    assert image[HEADER_OFFSET..HEADER_OFFSET + 4] == Le32(size);
    assert image[HEADER_OFFSET + 4..HEADER_OFFSET + 8] == Le32(crc);
    assert image[HEADER_OFFSET + 8..HEADER_OFFSET + 12] == Le32(fieldsOffset);
  }

  lemma ProperFields(args: seq<Arg>)
    requires Arguments(args)
    ensures Proper(FieldsOf(args))
  {
    var ss := FieldsOf(args);
    forall i | 0 <= i < |ss|
      ensures ss[i] != [] && NoNul(ss[i])
    {
      var a := args[i / 2];
      FieldsAt(args, i / 2);
      assert ss[i] == if i % 2 == 0 then ss[2 * (i / 2)] else ss[2 * (i / 2) + 1];
      assert NoNul(a);
    }
  }

  /** `image` lies at `addr`. */
  ghost predicate Placed(m: Bus, addr: ImageAddr, image: seq<Byte>) {
    InFlash(addr, |image|) && Mem(m, addr, |image|) == image
  }

  lemma PlacedPart(m: Bus, addr: ImageAddr, image: seq<Byte>, at: nat, k: nat)
    requires Placed(m, addr, image) && at + k <= |image|
    ensures Mem(m, addr + at, k) == image[at..at + k]
  {}

  lemma PlacedHeader(m: Bus, addr: ImageAddr, image: seq<Byte>, k: nat)
    requires Placed(m, addr, image) && HEADER_END <= |image| && k < 4
    ensures HeaderWord(m, addr, k) == WordIn(image, k) && InFlash(addr, |image|)
  {
    hide Mem, FromLe32;
    PlacedPart(m, addr, image, HEADER_OFFSET + 4 * k, 4);
  }

  lemma PlacedBody(m: Bus, addr: ImageAddr, image: seq<Byte>)
    requires Placed(m, addr, image) && HEADER_END < |image| && addr % 4 == 0
    ensures CrcValue(CrcCovered(m, addr, |image|)) == BodyCrc(image)
  {
    hide Mem, CrcBytes, Number;
    PlacedPart(m, addr, image, 0, HEADER_OFFSET);
    PlacedPart(m, addr, image, HEADER_END, |image| - HEADER_END);
    assert image[0..HEADER_OFFSET] == image[..HEADER_OFFSET] && image[HEADER_END..|image|] == image[HEADER_END..];
    assert CrcCovered(m, addr, |image|) == image[..HEADER_OFFSET] + image[HEADER_END..];
  }

  /** The field block, terminator included, lies within the size the device checks. */
  predicate Fits(fieldsOffset: nat, args: seq<seq<Byte>>, maxSize: nat) {
    fieldsOffset + Total(args) + 1 <= maxSize
  }

  /** The device finds in the block exactly the fields that were given. */
  lemma PlacedFields(m: Bus, addr: ImageAddr, maxSize: nat, image: seq<Byte>, args: seq<Arg>)
    requires Describes(image, args) && Placed(m, addr, image)
    requires Fits(WordIn(image, 2), args, maxSize) && addr + maxSize <= FLASH_FINISH
    ensures FieldsCount(m, addr, maxSize) == if args == [] then -2 else |args|
    ensures args != [] ==> FieldStrings(m, addr, maxSize) == FieldsOf(args)
    ensures FieldsAddr(m, addr) == addr + WordIn(image, 2)
  {
    hide Mem, FieldsOf, WordIn, HeaderWord, Describes, Placed, Block, FieldsCount, FieldStrings;
    DescribedHeader(image, args);
    PlacedHeader(m, addr, image, 2);
    PlacedBlock(m, addr, maxSize, image, args);
    BlockFound(m, addr, maxSize, FieldsOf(args));
  }

  lemma BlockFound(m: Bus, addr: ImageAddr, maxSize: nat, ss: seq<seq<Byte>>)
    requires |ss| % 2 == 0 && addr + maxSize <= FLASH_FINISH
    requires var f := HeaderWord(m, addr, 2); f <= maxSize && Block(Mem(m, addr + f, maxSize - f), ss)
    ensures FieldsCount(m, addr, maxSize) == if ss == [] then -2 else |ss| / 2
    ensures ss != [] ==> FieldStrings(m, addr, maxSize) == ss
  {
    hide Mem, HeaderWord, Strings, CountOf, Block, FieldsCount, FieldStrings;
    var r := Mem(m, FieldsAddr(m, addr), FieldsRoom(m, addr, maxSize));
    BlockRegion(r, ss);
    FieldsFound(m, addr, maxSize, r);
  }

  lemma FieldsFound(m: Bus, addr: ImageAddr, maxSize: nat, r: seq<Byte>)
    requires InFlash(FieldsAddr(m, addr), FieldsRoom(m, addr, maxSize))
    requires r == Mem(m, FieldsAddr(m, addr), FieldsRoom(m, addr, maxSize))
    ensures FieldsCount(m, addr, maxSize) == CountOf(r)
    ensures CountOf(r) > 0 ==> Strings(r) == Some(FieldStrings(m, addr, maxSize))
  {
    hide Mem, HeaderWord, CountOf, Strings;
    if CountOf(r) > 0 {
      BlockOf(r);
    }
  }

  lemma DescribedHeader(image: seq<Byte>, args: seq<Arg>)
    requires Describes(image, args)
    ensures HEADER_END < |image| == WordIn(image, 0) && HEADER_END < WordIn(image, 2) < |image| < U32_MOD
    ensures WordIn(image, 1) == BodyCrc(image)
  {}

  lemma PlacedBlock(m: Bus, addr: ImageAddr, maxSize: nat, image: seq<Byte>, args: seq<Arg>)
    requires Describes(image, args) && Placed(m, addr, image)
    requires Fits(WordIn(image, 2), args, maxSize) && addr + maxSize <= FLASH_FINISH
    ensures var f := WordIn(image, 2); Block(Mem(m, addr + f, maxSize - f), FieldsOf(args))
  {
    hide Cat, FieldsOf, WordIn, BodyCrc, Proper;
    TotalFields(args);
    var f, text := WordIn(image, 2), Cat(FieldsOf(args)) + [0];
    var r := Mem(m, addr + f, maxSize - f);
    PlacedPart(m, addr, image, f, |text|);
    assert r[..|text|] == Mem(m, addr + f, |text|);
    assert image[f..f + |text|] == image[f..][..|text|] == text;
  }

  /** A block that is cut off by the checked size has no end, and counts for nothing. */
  lemma CutOffFields(m: Bus, addr: ImageAddr, maxSize: nat, image: seq<Byte>, args: seq<Arg>)
    requires Describes(image, args) && Placed(m, addr, image)
    requires !Fits(WordIn(image, 2), args, maxSize) && addr + maxSize <= FLASH_FINISH
    ensures FieldsCount(m, addr, maxSize) <= 0
  {
    hide Cat, FieldsOf, WordIn, HeaderWord, BodyCrc, Proper, Strings, FieldStrings;
    PlacedHeader(m, addr, image, 2);
    TotalFields(args);
    var f, text := WordIn(image, 2), Cat(FieldsOf(args)) + [0];
    var room := FieldsRoom(m, addr, maxSize);
    PlacedPart(m, addr, image, f, room);
    var r := Mem(m, addr + f, room);
    assert r == image[f..f + room] == image[f..][..room] == text[..room];
    CutOffStrings(FieldsOf(args), r);
  }

  lemma CutOffStrings(ss: seq<seq<Byte>>, r: seq<Byte>)
    requires Proper(ss) && r < Cat(ss) + [0]
    ensures Strings(r) == None
  {
    hide Strings, Cat;
    var whole := Cat(ss) + [0];
    match Strings(r)
    case None =>
    case Some(tt) =>
      StringsIff(r, tt);
      assert Cat(tt) + [0] <= whole;
      StringsIff(whole, tt);
      StringsIff(whole, ss);
  }

  lemma BlockRegion(r: seq<Byte>, ss: seq<seq<Byte>>)
    requires Block(r, ss) && |ss| % 2 == 0
    ensures Strings(r) == Some(ss) && CountOf(r) == if ss == [] then -2 else |ss| / 2
  {
    hide Strings, Cat;
    StringsIff(r, ss);
    assert r[0] == (Cat(ss) + [0])[0];
    if ss == [] {
      EmptyBlock(ss);
    } else {
      FirstByte(ss);
    }
  }

  lemma EmptyBlock(ss: seq<seq<Byte>>)
    requires ss == []
    ensures Cat(ss) == []
  {}

  lemma {:induction false} LookupIsFirst(args: seq<Arg>, key: seq<Byte>, j: nat)
    requires j <= |args|
    ensures var o := KeyIndex(FieldsOf(args), key, j);
            FirstValue(args[j..], key) == if o.Some? then Some(FieldsOf(args)[2 * o.value + 1]) else None
    decreases |args| - j
  {
    hide FieldsOf;
    if j < |args| {
      assert args[j..][1..] == args[j + 1..];
      FieldsAt(args, j);
      LookupIsFirst(args, key, j + 1);
    }
  }

  /** Which lock an image with these fields gets. */
  function LockFor(args: seq<Arg>): Lock {
    if args == [] then BY_ZERO_FIELDS_COUNT
    else if FirstValue(args, PROD_NAME) == None then NO_PROD_NAME_FIELD
    else if FirstValue(args, PROD) == None then NO_PROD_FIELD
    else NONE
  }

  /** The device counts as many fields as were given and finds under each key the value of its first occurrence. */
  ghost predicate FindsFields(m: Bus, addr: ImageAddr, maxSize: nat, args: seq<Arg>)
    requires args != []
  {
    && FieldsCount(m, addr, maxSize) == |args|
    && forall key :: Lookup(FieldStrings(m, addr, maxSize), key) == FirstValue(args, key)
  }

  /** What the device makes of every signed image, placed 4-aligned inside the flash: as long as the
      field block ends within the checked size, the image passes the region check exactly when it has
      the two product fields, and the device counts the fields given and finds under each key the
      value of its first occurrence; otherwise the image is locked. */
  lemma SignThenCheck(file: seq<Byte>, args: seq<seq<Byte>>, limit: int, m: Bus, addr: ImageAddr, maxSize: nat)
    requires Arguments(args) && Representable(file, args) && SignSpec(file, args, limit).Signed?
    requires Placed(m, addr, SignSpec(file, args, limit).image)
    requires addr % 4 == 0 && addr + maxSize <= FLASH_FINISH
    ensures FirstBad(args) == |args|
    ensures RegionLock(m, addr, maxSize) ==
            if Fits(|ZeroPadded(file)|, args, maxSize) then LockFor(args) else BY_ZERO_FIELDS_COUNT
    ensures args != [] && Fits(|ZeroPadded(file)|, args, maxSize) ==> FindsFields(m, addr, maxSize, args)
  {
    hide SignSpec, Representable;
    SignedDescribes(file, args, limit);
    DescribedCheck(SignSpec(file, args, limit).image, args, m, addr, maxSize);
  }

  /** An image that is itself within the checked size always fits. */
  lemma ImageFits(file: seq<Byte>, args: seq<seq<Byte>>, limit: int)
    requires Arguments(args) && Representable(file, args) && SignSpec(file, args, limit).Signed?
    ensures Fits(|ZeroPadded(file)|, args, |SignSpec(file, args, limit).image|)
  {
    TotalFields(args);
  }

  lemma DescribedCheck(image: seq<Byte>, args: seq<Arg>, m: Bus, addr: ImageAddr, maxSize: nat)
    requires Describes(image, args) && Placed(m, addr, image)
    requires addr % 4 == 0 && addr + maxSize <= FLASH_FINISH
    ensures RegionLock(m, addr, maxSize) ==
            if Fits(WordIn(image, 2), args, maxSize) then LockFor(args) else BY_ZERO_FIELDS_COUNT
    ensures args != [] && Fits(WordIn(image, 2), args, maxSize) ==> FindsFields(m, addr, maxSize, args)
  {
    hide Mem, Cat, FieldsOf, FirstValue, WordIn, HeaderWord, BodyCrc, FieldsCount, FieldStrings, CrcCovered,
         CrcValue, Lookup, FieldAddr, StrAt, StrLen, Describes, Placed, FieldsAddr, Fits;
    DescribedHeader(image, args);
    PlacedHeader(m, addr, image, 0);
    PlacedHeader(m, addr, image, 1);
    PlacedBody(m, addr, image);
    if Fits(WordIn(image, 2), args, maxSize) {
      PlacedFields(m, addr, maxSize, image, args);
      if args != [] {
        forall key
          ensures Lookup(FieldStrings(m, addr, maxSize), key) == FirstValue(args, key)
        {
          LookupFirst(args, key);
        }
        FieldInMemory(m, addr, maxSize, PROD);
        FieldInMemory(m, addr, maxSize, PROD_NAME);
      }
    } else {
      CutOffFields(m, addr, maxSize, image, args);
    }
  }

  lemma LookupFirst(args: seq<Arg>, key: seq<Byte>)
    ensures Lookup(FieldsOf(args), key) == FirstValue(args, key)
  {
    hide FieldsOf, FirstValue;
    LookupIsFirst(args, key, 0);
    assert args[0..] == args;
  }

  /** A signed image that passes its check is contained below `end` exactly if all of it lies there. */
  lemma SignedIsContained(file: seq<Byte>, args: seq<seq<Byte>>, limit: int, m: Bus, addr: ImageAddr, end: int)
    requires Arguments(args) && Representable(file, args) && SignSpec(file, args, limit).Signed?
    requires Placed(m, addr, SignSpec(file, args, limit).image)
    requires end <= FLASH_FINISH && FwImages.RegionOk(m, addr)
    ensures FwImages.Contained(m, addr, end) <==> addr + |SignSpec(file, args, limit).image| <= end
  {
    hide SignSpec, Representable, Mem, Cat, FieldsOf, WordIn, HeaderWord, BodyCrc, FieldsCount, FieldStrings, Fits;
    SignedDescribes(file, args, limit);
    var image := SignSpec(file, args, limit).image;
    if !Fits(WordIn(image, 2), args, FwImages.MaxSize(addr)) {
      CutOffFields(m, addr, FwImages.MaxSize(addr), image, args);
    }
    PlacedHeader(m, addr, image, 0);
    PlacedFields(m, addr, FwImages.MaxSize(addr), image, args);
    assert |Cat(FieldsOf(args)) + [0]| <= |image[WordIn(image, 2)..]|;
  }

  /** A version number given as a decimal field is the one the device reports. */
  lemma SignedVersion(file: seq<Byte>, args: seq<seq<Byte>>, limit: int, m: Bus, addr: ImageAddr, maxSize: nat,
                      key: seq<Byte>, n: U32)
    requires Arguments(args) && Representable(file, args) && SignSpec(file, args, limit).Signed?
    requires Placed(m, addr, SignSpec(file, args, limit).image) && Fits(|ZeroPadded(file)|, args, maxSize)
    requires addr % 4 == 0 && addr + maxSize <= FLASH_FINISH && FirstBad(args) == |args|
    requires args != [] && FirstValue(args, key) == Some(Decimal.Dec(n))
    ensures FieldsCount(m, addr, maxSize) > 0 && NumberOr0(m, FieldAddr(m, addr, maxSize, key)) == n
  {
    hide SignSpec, FirstValue, FieldsCount, FieldStrings, Lookup, FieldAddr, NumberAt, StrLen, StrAt, RegionLock,
         Placed, Decimal.Dec;
    SignThenCheck(file, args, limit, m, addr, maxSize);
    FieldInMemory(m, addr, maxSize, key);
    PrintedNumberAt(m, FieldAddr(m, addr, maxSize, key), n);
  }
}
