/** Field blocks of firmware images: `key\0value\0 ... \0` (common/fw_header/fw_header.c). */
module FwFields {
  import opened Bytes
  import opened FlashMemory

  // ----- Memory -----

  /** The flash as the CPU reads it, with the two bytes behind it that `str_len_safe` can touch. */
  type Bus = m: seq<Byte> | |m| == FLASH_LEN + 2 witness Zeros(FLASH_LEN + 2)

  function Rd(m: Bus, addr: int): Byte
    requires FLASH_START <= addr < FLASH_FINISH + 2
  {
    m[addr - FLASH_START]
  }

  function Mem(m: Bus, addr: int, n: nat): (s: seq<Byte>)
    requires InFlash(addr, n)
    ensures |s| == n
    ensures forall i :: 0 <= i < n ==> s[i] == Rd(m, addr + i)
  {
    m[addr - FLASH_START..addr - FLASH_START + n]
  }

  /** `flash_check_range`: true when the range is not valid. The end is a 32-bit sum. */
  function FlashCheckRange(addr: U32, size: U32): (bad: bool)
    ensures addr + size < U32_MOD ==> (bad <==> !InFlash(addr, size))
  {
    if size > FLASH_LEN then true
    else addr < FLASH_START || (addr + size) % U32_MOD > FLASH_FINISH
  }

  // ----- Zero-terminated strings -----

  function FirstZero(t: seq<Byte>): (k: int)
    ensures -1 <= k < |t|
    ensures k >= 0 ==> t[k] == 0 && NoNul(t[..k])
    ensures k == -1 ==> NoNul(t)
  {
    if t == [] then -1
    else if t[0] == 0 then 0
    else
      var k := FirstZero(t[1..]);
      assert NoNul(t[1..]) ==> NoNul(t);
      assert k >= 0 ==> t[..k + 1] == [t[0]] + t[1..][..k];
      if k < 0 then -1 else k + 1
  }

  /** The length of the string at `s`; -1 for an address outside the flash, -2 when it runs out of it. */
  function StrLen(m: Bus, s: U32): (r: int)
    requires s + 1 < U32_MOD
    ensures r >= 0 ==> FLASH_START <= s < FLASH_FINISH && s + r < FLASH_FINISH + 2
  {
    if FlashCheckRange(s, 1) then -1
    else
      var k := FirstZero(m[s - FLASH_START..]);
      if k < 0 then -2 else k
  }

  function StrAt(m: Bus, s: U32): seq<Byte>
    requires s + 1 < U32_MOD && StrLen(m, s) >= 0
  {
    m[s - FLASH_START..s - FLASH_START + StrLen(m, s)]
  }

  method StrLenSafe(m: Bus, s: U32) returns (r: int)
    requires s + 1 < U32_MOD
    ensures r == StrLen(m, s)
  {
    if FlashCheckRange(s, 1) {
      return -1;
    }
    ghost var t := m[s - FLASH_START..];
    ghost var k := FirstZero(t);
    var i := 0;
    while true
      invariant 0 <= i < |t|
      invariant forall j :: 0 <= j < i ==> t[j] != 0
      decreases |t| - i
    {
      assert Rd(m, s + i) == t[i];
      if Rd(m, s + i) == 0 {
        FirstZeroIs(t, i);
        return i;
      }
      if FlashCheckRange(s + i, 0) {
        assert forall j :: 0 <= j < |t| ==> t[j] != 0;
        return -2;
      }
      i := i + 1;
    }
  }

  lemma FirstZeroIs(t: seq<Byte>, i: nat)
    requires i < |t| && t[i] == 0 && forall j :: 0 <= j < i ==> t[j] != 0
    ensures FirstZero(t) == i
  {
    if i > 0 {
      FirstZeroIs(t[1..], i - 1);
    }
  }

  /** Equal non-empty strings, both read from flash. */
  method StrCompareEqualSafeTwoArg(m: Bus, s1: U32, s2: U32) returns (equal: bool)
    requires s1 + 1 < U32_MOD && s2 + 1 < U32_MOD
    ensures equal <==> StrLen(m, s1) > 0 && StrLen(m, s2) > 0 && StrAt(m, s1) == StrAt(m, s2)
  {
    var len1 := StrLenSafe(m, s1);
    var len2 := StrLenSafe(m, s2);
    if len1 <= 0 || len2 <= 0 || len1 != len2 {
      return false;
    }
    var i := 0;
    while i < len1
      invariant 0 <= i <= len1
      invariant forall j :: 0 <= j < i ==> StrAt(m, s1)[j] == StrAt(m, s2)[j]
    {
      assert StrAt(m, s1)[i] == Rd(m, s1 + i) && StrAt(m, s2)[i] == Rd(m, s2 + i);
      if Rd(m, s1 + i) != Rd(m, s2 + i) {
        return false;
      }
      i := i + 1;
    }
    return true;
  }

  /** The second argument is a string of the running program. */
  method StrCompareEqualSafeFirstArg(m: Bus, s1: U32, key: seq<Byte>) returns (equal: bool)
    requires s1 + 1 < U32_MOD && NoNul(key)
    ensures equal <==> StrLen(m, s1) > 0 && StrAt(m, s1) == key
  {
    var len1 := StrLenSafe(m, s1);
    var len2 := |key|;
    if len1 <= 0 || len2 <= 0 || len1 != len2 {
      return false;
    }
    var i := 0;
    while i < len1
      invariant 0 <= i <= len1
      invariant forall j :: 0 <= j < i ==> StrAt(m, s1)[j] == key[j]
    {
      assert StrAt(m, s1)[i] == Rd(m, s1 + i);
      if Rd(m, s1 + i) != key[i] {
        return false;
      }
      i := i + 1;
    }
    return true;
  }

  // ----- Grammar -----

  ghost predicate Proper(ss: seq<seq<Byte>>) {
    forall i :: 0 <= i < |ss| ==> ss[i] != [] && NoNul(ss[i])
  }

  function Cat(ss: seq<seq<Byte>>): seq<Byte> {
    if ss == [] then [] else ss[0] + [0] + Cat(ss[1..])
  }

  /** The strings before the first double zero; None when there is no double zero. */
  function Strings(r: seq<Byte>): (o: Option<seq<seq<Byte>>>)
    ensures o.Some? ==> Proper(o.value)
    decreases |r|
  {
    if r == [] then None
    else if r[0] == 0 then Some([])
    else
      var k := FirstZero(r);
      if k < 0 then None
      else match Strings(r[k + 1..])
        case None => None
        case Some(ss) => Some([r[..k]] + ss)
  }

  lemma {:induction false} StringsFound(r: seq<Byte>)
    requires Strings(r).Some?
    ensures Cat(Strings(r).value) + [0] <= r
    decreases |r|
  {
    if r[0] != 0 {
      var k := FirstZero(r);
      var rest, ss := r[k + 1..], Strings(r).value;
      StringsFound(rest);
      assert ss[1..] == Strings(rest).value;
      assert r == r[..k] + [0] + rest;
      assert Cat(ss) + [0] == r[..k] + [0] + (Cat(ss[1..]) + [0]);
    } else {
      assert r == [0] + r[1..];
    }
  }

  lemma {:induction false} StringsOf(ss: seq<seq<Byte>>, rest: seq<Byte>)
    requires Proper(ss)
    ensures Strings(Cat(ss) + [0] + rest) == Some(ss)
  {
    var r := Cat(ss) + [0] + rest;
    if ss != [] {
      var s, more := ss[0], Cat(ss[1..]) + [0] + rest;
      assert r == s + [0] + more;
      FirstZeroIs(r, |s|);
      assert r[..|s|] == s && r[|s| + 1..] == more;
      StringsOf(ss[1..], rest);
      assert [s] + ss[1..] == ss;
    }
  }

  /** A region lists exactly the strings it begins with, up to the terminating zero. */
  lemma StringsIff(r: seq<Byte>, ss: seq<seq<Byte>>)
    ensures Strings(r) == Some(ss) <==> Proper(ss) && Cat(ss) + [0] <= r
  {
    if Strings(r) == Some(ss) {
      StringsFound(r);
    }
    if Proper(ss) && Cat(ss) + [0] <= r {
      StringsOf(ss, r[|Cat(ss)| + 1..]);
      assert r == Cat(ss) + [0] + r[|Cat(ss)| + 1..];
    }
  }

  function Pairing(n: nat): int {
    if n % 2 == 1 then -3 else n / 2
  }

  function Tally(r: seq<Byte>, before: nat): int {
    match Strings(r)
    case None => -4
    case Some(ss) => Pairing(before + |ss|)
  }

  function TallyFrom(r: seq<Byte>, b: nat, before: nat): int
    requires b <= |r|
  {
    Tally(r[b..], before)
  }

  /** What `fw_fields_get_count` answers for the bytes of an in-range region. */
  function CountOf(r: seq<Byte>): int {
    if r != [] && r[0] == 0 then -2 else Tally(r, 0)
  }

  /** The count is n > 0 exactly when the region begins with 2n non-empty strings and one more zero. */
  lemma CountGrammar(r: seq<Byte>, n: int)
    requires n > 0
    ensures CountOf(r) == n <==> exists ss :: |ss| == 2 * n && Proper(ss) && Cat(ss) + [0] <= r
  {
    hide CountOf, Proper, Cat;
    if CountOf(r) == n {
      BlockOf(r);
    }
    if ss :| |ss| == 2 * n && Proper(ss) && Cat(ss) + [0] <= r {
      CountOfBlock(r, ss);
    }
  }

  lemma CountOfBlock(r: seq<Byte>, ss: seq<seq<Byte>>)
    requires |ss| % 2 == 0 && ss != [] && Proper(ss) && Cat(ss) + [0] <= r
    ensures CountOf(r) == |ss| / 2
  {
    hide Strings, Cat;
    StringsIff(r, ss);
    FirstByte(ss);
    assert r[0] == (Cat(ss) + [0])[0];
  }

  lemma FirstByte(ss: seq<seq<Byte>>)
    requires ss != [] && Proper(ss)
    ensures (Cat(ss) + [0])[0] != 0
  {
    assert ss[0] != [] && NoNul(ss[0]);
  }

  /** The error codes: -2 for a block that begins with a zero, -3 for an odd number of strings, -4 for a block
      without its end. */
  lemma CountCodes(r: seq<Byte>)
    ensures CountOf(r) == -2 <==> r != [] && r[0] == 0
    ensures CountOf(r) == -3 <==> exists ss :: |ss| % 2 == 1 && Block(r, ss)
    ensures CountOf(r) == -4 <==> (forall ss :: !Block(r, ss)) && (r == [] || r[0] != 0)
    ensures CountOf(r) <= 0 ==> CountOf(r) in {-2, -3, -4}
  {
    hide Cat, Proper, Strings;
    if ss :| Block(r, ss) {
      StringsIff(r, ss);
      if ss != [] {
        FirstByte(ss);
        assert r[0] == (Cat(ss) + [0])[0];
      }
    }
    if Strings(r).Some? {
      var ss := Strings(r).value;
      StringsIff(r, ss);
      assert Block(r, ss);
      if ss == [] {
        CatNone(ss);
        assert r[0] == (Cat(ss) + [0])[0];
      }
    }
    forall ss | Block(r, ss)
      ensures Strings(r) == Some(ss)
    {
      StringsIff(r, ss);
    }
  }

  /** The counting loop at index `i`: the current string begins at `b`, `e` strings came before it. */
  ghost predicate Counting(r: seq<Byte>, b: nat, i: nat, nulls: nat, e: nat) {
    && b <= i <= |r| && nulls == (if i > 0 && b == i then 1 else 0)
    && (forall j :: b <= j < i ==> r[j] != 0)
    && (i == 0 ==> e == 0)
    && (i > 0 ==> CountOf(r) == TallyFrom(r, b, e))
  }

  lemma CountStep(r: seq<Byte>, b: nat, i: nat, nulls: nat, e: nat)
    requires Counting(r, b, i, nulls, e) && i < |r|
    ensures nulls <= 1
    ensures r[i] == 0 && i == 0 ==> CountOf(r) == -2
    ensures r[i] == 0 && i > 0 && nulls == 0 ==> Counting(r, i + 1, i + 1, 1, e + 1)
    ensures r[i] == 0 && i > 0 && nulls == 1 ==> CountOf(r) == Pairing(e)
    ensures r[i] != 0 ==> Counting(r, b, i + 1, 0, e)
  {
    hide Strings, Pairing;
    if i == 0 {
      assert r[0..] == r;
    } else if r[i] == 0 {
      if nulls == 0 {
        TallyString(r, b, i, e);
      } else {
        TallyEnds(r, b, e);
      }
    }
  }

  lemma TallyEnds(r: seq<Byte>, b: nat, e: nat)
    requires b < |r| && r[b] == 0
    ensures TallyFrom(r, b, e) == Pairing(e)
  {}

  lemma TallyString(r: seq<Byte>, b: nat, i: nat, e: nat)
    requires b < i < |r| && r[i] == 0 && forall j :: b <= j < i ==> r[j] != 0
    ensures TallyFrom(r, b, e) == TallyFrom(r, i + 1, e + 1)
  {
    FirstZeroIs(r[b..], i - b);
    assert r[b..][i - b + 1..] == r[i + 1..];
  }

  lemma CountEnd(r: seq<Byte>, b: nat, nulls: nat, e: nat)
    requires Counting(r, b, |r|, nulls, e)
    ensures CountOf(r) == -4
  {
    assert NoNul(r[b..]);
  }

  method FwFieldsGetCount(m: Bus, addr: U32, size: U32) returns (r: int)
    requires addr + size < U32_MOD
    ensures r == if !InFlash(addr, size) then -1 else CountOf(Mem(m, addr, size))
  {
    hide Counting, CountOf, Mem, Rd;
    if FlashCheckRange(addr, size) {
      return -1;
    }
    ghost var region := Mem(m, addr, size);
    var nullTermCount, elementCount := 0, 0;
    ghost var b := 0;
    CountStart(region);
    var i := 0;
    while i < size
      invariant 0 <= i <= size && Counting(region, b, i, nullTermCount, elementCount)
    {
      assert Rd(m, addr + i) == region[i];
      CountStep(region, b, i, nullTermCount, elementCount);
      if Rd(m, addr + i) == 0 {
        if i == 0 {
          return -2;
        }
        nullTermCount := nullTermCount + 1;
        if nullTermCount == 1 {
          elementCount := elementCount + 1;
          b := i + 1;
        }
      } else {
        nullTermCount := 0;
      }
      if nullTermCount >= 2 {
        return if elementCount % 2 == 1 then -3 else elementCount / 2;
      }
      i := i + 1;
    }
    CountEnd(region, b, nullTermCount, elementCount);
    return -4;
  }

  lemma CountStart(r: seq<Byte>)
    ensures Counting(r, 0, 0, 0, 0)
  {}

  // ----- Lookup -----

  /** Where string `j` begins. */
  function Offset(ss: seq<seq<Byte>>, j: nat): nat
    requires j <= |ss|
  {
    if j == 0 then 0 else Offset(ss, j - 1) + |ss[j - 1]| + 1
  }

  lemma {:induction false} CatAppend(a: seq<seq<Byte>>, b: seq<seq<Byte>>)
    ensures Cat(a + b) == Cat(a) + Cat(b)
  {
    if a == [] {
      assert a + b == b;
    } else {
      CatAppend(a[1..], b);
      assert (a + b)[1..] == a[1..] + b;
    }
  }

  lemma {:induction false} CatSplit(ss: seq<seq<Byte>>, j: nat)
    requires j <= |ss|
    ensures |Cat(ss[..j])| == Offset(ss, j) && Cat(ss) == Cat(ss[..j]) + Cat(ss[j..])
  {
    hide Cat;
    CatAppend(ss[..j], ss[j..]);
    assert ss[..j] + ss[j..] == ss;
    if j == 0 {
      CatNone(ss[..j]);
    } else {
      CatSplit(ss, j - 1);
      CatAppend(ss[..j - 1], [ss[j - 1]]);
      CatOne(ss[j - 1]);
      assert ss[..j] == ss[..j - 1] + [ss[j - 1]];
    }
  }

  lemma CatNone(ss: seq<seq<Byte>>)
    requires ss == []
    ensures Cat(ss) == []
  {}

  lemma CatOne(s: seq<Byte>)
    ensures Cat([s]) == s + [0]
  {
    CatNone([s][1..]);
  }

  /** A field block: `ss` and one more zero at the beginning of `r`. */
  ghost predicate Block(r: seq<Byte>, ss: seq<seq<Byte>>) {
    Proper(ss) && Cat(ss) + [0] <= r
  }

  lemma BlockAt(r: seq<Byte>, ss: seq<seq<Byte>>, j: nat)
    requires Block(r, ss) && j <= |ss|
    ensures Offset(ss, j) < |r|
    ensures j == |ss| ==> r[Offset(ss, j)] == 0
    ensures j < |ss| ==>
              && Offset(ss, j) + |ss[j]| + 1 < |r|
              && r[Offset(ss, j)..Offset(ss, j) + |ss[j]|] == ss[j]
              && r[Offset(ss, j) + |ss[j]|] == 0
  {
    CatSplit(ss, j);
    if j < |ss| {
      assert ss[j..][1..] == ss[j + 1..];
      assert Cat(ss[j..]) == ss[j] + [0] + Cat(ss[j + 1..]);
    }
  }

  /** The least index of a key equal to `key`, from pair `j` on. */
  function KeyIndex(ss: seq<seq<Byte>>, key: seq<Byte>, j: nat := 0): (o: Option<nat>)
    requires |ss| % 2 == 0 && 2 * j <= |ss|
    ensures o.Some? ==> j <= o.value && 2 * o.value + 1 < |ss| && ss[2 * o.value] == key
    ensures o.Some? ==> forall k :: j <= k < o.value ==> ss[2 * k] != key
    ensures o == None ==> forall k :: j <= k && 2 * k < |ss| ==> ss[2 * k] != key
    decreases |ss| - 2 * j
  {
    if 2 * j == |ss| then None
    else if ss[2 * j] == key then Some(j)
    else KeyIndex(ss, key, j + 1)
  }

  const NULL := 0

  /** The address of the value stored under `key` in a block at `addr`, NULL when there is none. */
  function ValueAddr(addr: U32, ss: seq<seq<Byte>>, key: seq<Byte>): nat
    requires |ss| % 2 == 0
  {
    match KeyIndex(ss, key)
    case None => NULL
    case Some(j) => addr + Offset(ss, 2 * j + 1)
  }

  /** The value stored under `key`. */
  function Lookup(ss: seq<seq<Byte>>, key: seq<Byte>): Option<seq<Byte>>
    requires |ss| % 2 == 0
  {
    match KeyIndex(ss, key)
    case None => None
    case Some(j) => Some(ss[2 * j + 1])
  }

  /** The lookup loops at index `i`, inside or in front of string `e`. */
  ghost predicate Walking(r: seq<Byte>, ss: seq<seq<Byte>>, e: nat, i: nat, nulls: nat, captured: bool) {
    && Block(r, ss) && ss != [] && e <= |ss| && i < |r|
    && if captured then i == Offset(ss, e) && nulls == (if e > 0 then 1 else 0)
       else e < |ss| && Offset(ss, e) < i <= Offset(ss, e) + |ss[e]| && nulls == 0
  }

  lemma WalkStart(r: seq<Byte>, ss: seq<seq<Byte>>)
    requires Block(r, ss) && ss != []
    ensures Walking(r, ss, 0, 0, 0, true)
  {
    BlockAt(r, ss, 0);
  }

  lemma WalkStep(r: seq<Byte>, ss: seq<seq<Byte>>, e: nat, i: nat, nulls: nat, captured: bool)
    requires Walking(r, ss, e, i, nulls, captured)
    ensures e <= |ss| && nulls <= 1 && (nulls == 1 ==> captured)
    ensures r[i] == 0 ==> i > 0
    ensures r[i] == 0 && nulls == 1 ==> e == |ss|
    ensures r[i] == 0 && nulls == 0 ==> !captured && e < |ss| && Walking(r, ss, e + 1, i + 1, 1, true)
    ensures r[i] != 0 ==> e < |ss| && Walking(r, ss, e, i + 1, 0, false)
    ensures r[i] != 0 && captured ==> i == Offset(ss, e)
  {
    BlockAt(r, ss, e);
    if e < |ss| {
      BlockAt(r, ss, e + 1);
      var b := Offset(ss, e);
      assert ss[e] != [] && NoNul(ss[e]);
      if i < b + |ss[e]| {
        assert r[i] == r[b..b + |ss[e]|][i - b] == ss[e][i - b];
      }
    }
  }

  /** The string in memory at a string of the block is that string. */
  lemma StringInMemory(m: Bus, addr: U32, size: U32, ss: seq<seq<Byte>>, e: nat)
    requires InFlash(addr, size) && Block(Mem(m, addr, size), ss) && e < |ss|
    ensures Offset(ss, e) + |ss[e]| + 2 <= size
    ensures StrLen(m, addr + Offset(ss, e)) == |ss[e]| > 0
    ensures StrAt(m, addr + Offset(ss, e)) == ss[e]
  {
    hide Offset, Cat, FirstZero, StrLen, StrAt;
    var r, b, n := Mem(m, addr, size), Offset(ss, e), |ss[e]|;
    BlockAt(r, ss, e);
    assert n > 0 && NoNul(ss[e]);
    var k := addr + b - FLASH_START;
    assert m[k..k + n] == r[b..b + n];
    assert m[k + n] == r[b + n];
    Terminated(m, addr + b, ss[e]);
  }

  lemma Terminated(m: Bus, a: U32, s: seq<Byte>)
    requires InFlash(a, |s| + 1) && NoNul(s)
    requires m[a - FLASH_START..a - FLASH_START + |s|] == s && m[a - FLASH_START + |s|] == 0
    ensures StrLen(m, a) == |s| && StrAt(m, a) == s
  {
    var k := a - FLASH_START;
    var t := m[k..];
    assert forall j :: 0 <= j < |s| ==> t[j] == m[k..k + |s|][j];
    FirstZeroIs(t, |s|);
  }

  /** Meant, as its comment says, for regions whose count is positive. */
  method FwFieldsFindByKey(m: Bus, addr: U32, key: seq<Byte>, size: U32) returns (p: int)
    requires addr + size < U32_MOD && NoNul(key)
    requires InFlash(addr, size) ==> CountOf(Mem(m, addr, size)) > 0
    ensures p == if !InFlash(addr, size) then NULL else ValueAddr(addr, Strings(Mem(m, addr, size)).value, key)
  {
    hide Walking, Strings, Mem, Rd, Offset, StrLen, StrAt, Block, CountOf;
    if FlashCheckRange(addr, size) {
      return NULL;
    }
    ghost var r := Mem(m, addr, size);
    BlockOf(r);
    ghost var ss := Strings(r).value;
    WalkStart(r, ss);
    var nullTermCount, elementCount := 0, 0;
    var nullCaptured := true;
    var i := 0;
    while i < size
      invariant 0 <= i <= size && Walking(r, ss, elementCount, i, nullTermCount, nullCaptured)
      invariant forall k :: 0 <= 2 * k < |ss| && 2 * k < (if nullCaptured then elementCount else elementCount + 1) ==>
                  ss[2 * k] != key
    {
      assert Rd(m, addr + i) == r[i];
      WalkStep(r, ss, elementCount, i, nullTermCount, nullCaptured);
      if Rd(m, addr + i) == 0 {
        if i == 0 {
          return NULL;
        }
        nullTermCount := nullTermCount + 1;
        if nullTermCount == 1 {
          elementCount := elementCount + 1;
        }
        nullCaptured := true;
      } else {
        nullTermCount := 0;
        if nullCaptured {
          nullCaptured := false;
          if elementCount % 2 == 0 {
            StringInMemory(m, addr, size, ss, elementCount);
            var same := StrCompareEqualSafeFirstArg(m, addr + i, key);
            if same {
              var len := StrLenSafe(m, addr + i);
              KeyFound(ss, key, elementCount);
              return addr + i + len + 1;
            }
          }
        }
      }
      if nullTermCount >= 2 {
        return NULL;
      }
      i := i + 1;
    }
    WalkInside(r, ss, elementCount, i, nullTermCount, nullCaptured);
    return NULL;
  }

  lemma BlockOf(r: seq<Byte>)
    requires CountOf(r) > 0
    ensures Strings(r).Some?
    ensures var ss := Strings(r).value; Block(r, ss) && ss != [] && |ss| % 2 == 0 && |ss| == 2 * CountOf(r)
  {
    StringsFound(r);
  }

  lemma WalkInside(r: seq<Byte>, ss: seq<seq<Byte>>, e: nat, i: nat, nulls: nat, captured: bool)
    requires Walking(r, ss, e, i, nulls, captured)
    ensures i < |r|
  {}

  lemma KeyFound(ss: seq<seq<Byte>>, key: seq<Byte>, e: nat)
    requires |ss| % 2 == 0 && e < |ss| && e % 2 == 0 && ss[e] == key
    requires forall k :: 0 <= 2 * k < e ==> ss[2 * k] != key
    ensures KeyIndex(ss, key) == Some(e / 2) && Offset(ss, e + 1) == Offset(ss, e) + |ss[e]| + 1
  {
    assert ss[2 * (e / 2)] == key;
  }

  function IterKey(addr: U32, ss: seq<seq<Byte>>, j: nat): nat
    requires 2 * j < |ss|
  {
    addr + Offset(ss, 2 * j)
  }

  function IterValue(addr: U32, ss: seq<seq<Byte>>, j: nat): nat
    requires 2 * j + 1 < |ss|
  {
    addr + Offset(ss, 2 * j + 1)
  }

  /** Key and value pointers of pair `index`, for an in-range region whose count is positive. */
  method FwFieldsFindByIterator(m: Bus, addr: U32, index: nat, size: U32) returns (found: bool, key: int, value: int)
    requires addr + size < U32_MOD && InFlash(addr, size) && CountOf(Mem(m, addr, size)) > 0
    ensures found <==> index < CountOf(Mem(m, addr, size))
    ensures !found ==> key == value == NULL
    ensures found ==>
              var ss := Strings(Mem(m, addr, size)).value;
              2 * index + 1 < |ss| && key == IterKey(addr, ss, index) && value == IterValue(addr, ss, index)
  {
    hide Walking, Strings, Mem, Rd, Offset, StrLen, StrAt, Block, CountOf;
    key, value := NULL, NULL;
    ghost var r := Mem(m, addr, size);
    BlockOf(r);
    ghost var ss := Strings(r).value;
    WalkStart(r, ss);
    var nullTermCount, elementCount := 0, 0;
    var nullCaptured := true;
    var i := 0;
    while i < size
      invariant 0 <= i <= size && Walking(r, ss, elementCount, i, nullTermCount, nullCaptured)
      invariant elementCount <= 2 * index && (elementCount == 2 * index ==> nullCaptured)
      invariant key == value == NULL
    {
      assert Rd(m, addr + i) == r[i];
      WalkStep(r, ss, elementCount, i, nullTermCount, nullCaptured);
      if Rd(m, addr + i) == 0 {
        if i == 0 {
          return false, key, value;
        }
        nullTermCount := nullTermCount + 1;
        if nullTermCount == 1 {
          elementCount := elementCount + 1;
        }
        nullCaptured := true;
      } else {
        nullTermCount := 0;
        if nullCaptured {
          nullCaptured := false;
          if elementCount % 2 == 0 && elementCount / 2 == index {
            StringInMemory(m, addr, size, ss, elementCount);
            NextOffset(ss, elementCount);
            key := addr + i;
            var len := StrLenSafe(m, addr + i);
            value := addr + i + len + 1;
            return true, key, value;
          }
        }
      }
      if nullTermCount >= 2 {
        return false, key, value;
      }
      i := i + 1;
    }
    WalkInside(r, ss, elementCount, i, nullTermCount, nullCaptured);
    return false, key, value;
  }

  lemma NextOffset(ss: seq<seq<Byte>>, e: nat)
    requires e < |ss|
    ensures Offset(ss, e + 1) == Offset(ss, e) + |ss[e]| + 1
  {}

  /** Looking a key up gives the value of the least index whose iterator key equals it, and fails
      exactly when no index matches. */
  lemma LookupByIterator(m: Bus, addr: U32, size: U32, key: seq<Byte>)
    requires addr + size < U32_MOD && InFlash(addr, size) && CountOf(Mem(m, addr, size)) > 0
    ensures var n, ss := CountOf(Mem(m, addr, size)), Strings(Mem(m, addr, size)).value;
            var p := ValueAddr(addr, ss, key);
            && |ss| == 2 * n
            && (forall j :: 0 <= j < n ==> IterKey(addr, ss, j) + 1 < U32_MOD && StrLen(m, IterKey(addr, ss, j)) > 0)
            && (p == NULL <==> forall j :: 0 <= j < n ==> StrAt(m, IterKey(addr, ss, j)) != key)
            && (p != NULL ==>
                  && p + 1 < U32_MOD && StrLen(m, p) > 0 && Lookup(ss, key) == Some(StrAt(m, p))
                  && exists j :: 0 <= j < n && p == IterValue(addr, ss, j) && StrAt(m, IterKey(addr, ss, j)) == key
                       && forall k :: 0 <= k < j ==> StrAt(m, IterKey(addr, ss, k)) != key)
  {
    hide Strings, Mem, Offset, StrLen, StrAt, CountOf;
    var n, r := CountOf(Mem(m, addr, size)), Mem(m, addr, size);
    BlockOf(r);
    var ss := Strings(r).value;
    forall j | 0 <= j < n
      ensures IterKey(addr, ss, j) + 1 < U32_MOD
      ensures StrLen(m, IterKey(addr, ss, j)) > 0 && StrAt(m, IterKey(addr, ss, j)) == ss[2 * j]
    {
      StringInMemory(m, addr, size, ss, 2 * j);
    }
    match KeyIndex(ss, key)
    case None =>
    case Some(j) =>
      StringInMemory(m, addr, size, ss, 2 * j + 1);
  }
}
