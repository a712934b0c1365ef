/** CRC of word sequences: the device's CRC unit and its driver (common/crc/crc.c), and the
    host tool's table-driven loops (sign/sign.c). */
module Crc {
  import opened Bytes
  import opened CrcBits
  import CrcTable

  const INIT: bv32 := 0xFFFF_FFFF

  function WordStep(s: bv32, w: bv32): bv32 {
    BitSteps(Xor(s, w), 32)
  }

  function CrcWords(s: bv32, ws: seq<bv32>): bv32 {
    if ws == [] then s else WordStep(CrcWords(s, ws[..|ws| - 1]), ws[|ws| - 1])
  }

  function LeWord(b0: Byte, b1: Byte, b2: Byte, b3: Byte): bv32 {
    ((b3 as bv32) << 24) | ((b2 as bv32) << 16) | ((b1 as bv32) << 8) | (b0 as bv32)
  }

  function WordAt(s: seq<Byte>, i: nat): bv32
    requires 4 * i + 4 <= |s|
  {
    LeWord(s[4 * i], s[4 * i + 1], s[4 * i + 2], s[4 * i + 3])
  }

  /** The first `n` whole words of `s`. */
  function WordsUpTo(s: seq<Byte>, n: nat): (ws: seq<bv32>)
    requires 4 * n <= |s|
    ensures |ws| == n
  {
    if n == 0 then [] else WordsUpTo(s, n - 1) + [WordAt(s, n - 1)]
  }

  /** All whole words of `s`; one to three trailing bytes are ignored, as `size >> 2` does. */
  function Words(s: seq<Byte>): (ws: seq<bv32>)
    ensures |ws| == |s| / 4
  {
    WordsUpTo(s, |s| / 4)
  }

  function CrcBytes(s: seq<Byte>): bv32 {
    CrcWords(INIT, Words(s))
  }

  /** The CRC as the 32-bit number that is stored and compared. */
  function CrcValue(s: seq<Byte>): U32 {
    Number(CrcBytes(s))
  }

  function Number(w: bv32): U32 {
    w as int
  }

  lemma {:induction false} CrcWordsAppend(s: bv32, a: seq<bv32>, b: seq<bv32>)
    ensures CrcWords(s, a + b) == CrcWords(CrcWords(s, a), b)
    decreases |b|
  {
    hide WordStep;
    if b == [] {
      assert a + b == a;
    } else {
      assert (a + b)[..|a + b| - 1] == a + b[..|b| - 1];
      CrcWordsAppend(s, a, b[..|b| - 1]);
    }
  }

  lemma {:induction false} WordsUpToAppend(a: seq<Byte>, b: seq<Byte>, n: nat)
    requires |a| % 4 == 0 && 4 * n <= |b|
    ensures WordsUpTo(a + b, |a| / 4 + n) == WordsUpTo(a, |a| / 4) + WordsUpTo(b, n)
    decreases n
  {
    hide LeWord;
    if n == 0 {
      WordsUpToPrefix(a, b, |a| / 4);
    } else {
      WordsUpToAppend(a, b, n - 1);
      assert WordAt(a + b, |a| / 4 + n - 1) == WordAt(b, n - 1);
    }
  }

  lemma {:induction false} WordsUpToPrefix(a: seq<Byte>, b: seq<Byte>, n: nat)
    requires 4 * n <= |a|
    ensures WordsUpTo(a + b, n) == WordsUpTo(a, n)
  {
    hide LeWord;
    if n > 0 {
      WordsUpToPrefix(a, b, n - 1);
      assert WordAt(a + b, n - 1) == WordAt(a, n - 1);
    }
  }

  lemma WordsAppend(a: seq<Byte>, b: seq<Byte>)
    requires |a| % 4 == 0
    ensures Words(a + b) == Words(a) + Words(b)
  {
    hide WordsUpTo;
    WordsUpToAppend(a, b, |b| / 4);
    assert |a + b| / 4 == |a| / 4 + |b| / 4;
  }

  /** Starting on one word-aligned piece and ending on the next gives the CRC of their concatenation. */
  lemma StartThenEnd(a: seq<Byte>, b: seq<Byte>)
    requires |a| % 4 == 0
    ensures CrcWords(CrcBytes(a), Words(b)) == CrcBytes(a + b)
  {
    hide CrcWords, Words;
    WordsAppend(a, b);
    CrcWordsAppend(INIT, Words(a), Words(b));
  }

  // ----- What the CRC detects -----

  lemma WordStepInjective(s: bv32, t: bv32, w: bv32)
    requires WordStep(s, w) == WordStep(t, w) || WordStep(w, s) == WordStep(w, t)
    ensures s == t
  {
    hide BitSteps, Xor;
    XorComm(w, s);
    XorComm(w, t);
    BitStepsInjective(Xor(s, w), Xor(t, w), 32);
    XorCancel(s, t, w);
  }

  lemma {:induction false} OneWordDetected(s: bv32, a: seq<bv32>, b: seq<bv32>, k: nat)
    requires |a| == |b| && k < |a| && a[k] != b[k]
    requires forall i :: 0 <= i < |a| && i != k ==> a[i] == b[i]
    ensures CrcWords(s, a) != CrcWords(s, b)
    decreases |a|
  {
    hide WordStep;
    var n := |a| - 1;
    var before, other := CrcWords(s, a[..n]), CrcWords(s, b[..n]);
    if CrcWords(s, a) == CrcWords(s, b) {
      if k < n {
        OneWordDetected(s, a[..n], b[..n], k);
        WordStepInjective(before, other, a[n]);
      } else {
        assert a[..n] == b[..n];
        WordStepInjective(a[n], b[n], before);
      }
    }
  }

  /** A byte in the low lane of a word. */
  function Lane(b: Byte): bv32 {
    b as bv32
  }

  function Lanes(b0: bv32, b1: bv32, b2: bv32, b3: bv32): bv32 {
    (b3 << 24) | (b2 << 16) | (b1 << 8) | b0
  }

  lemma ByteBits(b: Byte)
    ensures (b as bv8) as int == b && Lane(b) == (b as bv8) as bv32
  {}

  lemma LaneInjective(b: Byte, c: Byte)
    requires Lane(b) == Lane(c)
    ensures b == c
  {
    ByteBits(b);
    ByteBits(c);
    assert b as bv8 == c as bv8;
  }

  lemma LaneIsLow(b: Byte)
    ensures Lane(b) & 0xFF == Lane(b)
  {
    ByteBits(b);
  }

  lemma LanesInjective(b0: bv32, b1: bv32, b2: bv32, b3: bv32, c0: bv32, c1: bv32, c2: bv32, c3: bv32)
    requires b0 & 0xFF == b0 && b1 & 0xFF == b1 && b2 & 0xFF == b2 && b3 & 0xFF == b3
    requires c0 & 0xFF == c0 && c1 & 0xFF == c1 && c2 & 0xFF == c2 && c3 & 0xFF == c3
    requires Lanes(b0, b1, b2, b3) == Lanes(c0, c1, c2, c3)
    ensures b0 == c0 && b1 == c1 && b2 == c2 && b3 == c3
  {}

  lemma WordIsLanes(s: seq<Byte>, i: nat)
    requires 4 * i + 4 <= |s|
    ensures WordAt(s, i) == Lanes(Lane(s[4 * i]), Lane(s[4 * i + 1]), Lane(s[4 * i + 2]), Lane(s[4 * i + 3]))
  {}

  /** Words of different bytes differ. */
  lemma WordDiffers(a: seq<Byte>, b: seq<Byte>, i: nat, k: nat)
    requires |a| == |b| && 4 * i + 4 <= |a| && k < 4 && a[4 * i + k] != b[4 * i + k]
    ensures WordAt(a, i) != WordAt(b, i)
  {
    hide Lane, Lanes, WordAt;
    WordIsLanes(a, i);
    WordIsLanes(b, i);
    if WordAt(a, i) == WordAt(b, i) {
      var p, q := a[4 * i..4 * i + 4], b[4 * i..4 * i + 4];
      forall x: Byte
        ensures Lane(x) & 0xFF == Lane(x)
      {
        LaneIsLow(x);
      }
      LanesInjective(Lane(p[0]), Lane(p[1]), Lane(p[2]), Lane(p[3]), Lane(q[0]), Lane(q[1]), Lane(q[2]), Lane(q[3]));
      LaneInjective(p[k], q[k]);
    }
  }

  lemma {:induction false} WordsAt(s: seq<Byte>, n: nat, i: nat)
    requires 4 * n <= |s| && i < n
    ensures WordsUpTo(s, n)[i] == WordAt(s, i)
  {
    hide WordAt;
    if i < n - 1 {
      WordsAt(s, n - 1, i);
    }
  }

  /** The CRC detects every change of one byte of a whole word. */
  lemma OneByteDetected(a: seq<Byte>, b: seq<Byte>, at: nat)
    requires |a| == |b| && at / 4 < |a| / 4 && a[at] != b[at]
    requires forall j :: 0 <= j < |a| && j != at ==> a[j] == b[j]
    ensures CrcValue(a) != CrcValue(b)
  {
    hide CrcWords, WordAt, WordsUpTo, Number;
    var n, k := |a| / 4, at / 4;
    WordDiffers(a, b, k, at % 4);
    forall i | 0 <= i < n
      ensures Words(a)[i] == WordAt(a, i) && Words(b)[i] == WordAt(b, i)
      ensures i != k ==> Words(a)[i] == Words(b)[i]
    {
      WordsAt(a, n, i);
      WordsAt(b, n, i);
      if i != k {
        SameWord(a, b, i);
      }
    }
    OneWordDetected(INIT, Words(a), Words(b), k);
    if CrcValue(a) == CrcValue(b) {
      NumberInjective(CrcBytes(a), CrcBytes(b));
    }
  }

  lemma SameWord(a: seq<Byte>, b: seq<Byte>, i: nat)
    requires 4 * i + 4 <= |a| && 4 * i + 4 <= |b| && forall j :: 4 * i <= j < 4 * i + 4 ==> a[j] == b[j]
    ensures WordAt(a, i) == WordAt(b, i)
  {
    hide LeWord;
  }

  function WordOf(n: U32): bv32 {
    n as bv32
  }

  lemma NumberRoundTrip(w: bv32)
    ensures WordOf(Number(w)) == w
  {}

  lemma NumberInjective(v: bv32, w: bv32)
    requires Number(v) == Number(w)
    ensures v == w
  {
    hide WordOf, Number;
    NumberRoundTrip(v);
    NumberRoundTrip(w);
  }

  /** Bytes behind the last whole word do not count. */
  lemma TailIgnored(a: seq<Byte>, b: seq<Byte>)
    requires |a| % 4 == 0
    ensures CrcValue(a + b) == CrcValue(a + b[..|b| - |b| % 4])
  {
    hide CrcWords, WordsUpTo, Number;
    var n := |b| - |b| % 4;
    WordsUpToPrefix(a + b[..n], b[n..], (|a| + n) / 4);
    assert a + b[..n] + b[n..] == a + b;
    assert |a + b| / 4 == |a + b[..n]| / 4 == (|a| + n) / 4;
  }

  // ----- Device -----

  /** The CRC unit: `dr` is the data register, `fed` the words written to it since the last reset. */
  class CrcUnit {
    var dr: bv32
    ghost var fed: seq<bv32>

    ghost predicate Valid()
      reads this
    {
      dr == CrcWords(INIT, fed)
    }

    constructor ()
      ensures Valid() && fed == []
    {
      dr, fed := INIT, [];
    }

    /** CRC->CR = 1 */
    method Reset()
      modifies this
      ensures Valid() && fed == []
    {
      dr, fed := INIT, [];
    }

    /** CRC->DR = w: the hardware clocks 32 bit steps. */
    method Write(w: bv32)
      requires Valid()
      modifies this
      ensures Valid() && fed == old(fed) + [w]
    {
      dr, fed := WordStep(dr, w), fed + [w];
    }

    method Start(data: seq<Byte>) returns (crc: bv32)
      modifies this
      ensures Valid() && fed == Words(data)
      ensures crc == dr == CrcBytes(data)
    {
      Reset();
      crc := End(data);
    }

    method End(data: seq<Byte>) returns (crc: bv32)
      requires Valid()
      modifies this
      ensures Valid() && fed == old(fed) + Words(data)
      ensures crc == dr == CrcWords(old(dr), Words(data))
    {
      var i := 0;
      while i < |data| / 4
        invariant 0 <= i <= |data| / 4
        invariant Valid() && fed == old(fed) + WordsUpTo(data, i)
      {
        Write(WordAt(data, i));
        i := i + 1;
      }
      CrcWordsAppend(INIT, old(fed), Words(data));
      return dr;
    }

    /** The one-shot form, reset included. */
    method Crc32(data: seq<Byte>) returns (crc: bv32)
      modifies this
      ensures Valid() && fed == Words(data)
      ensures crc == CrcBytes(data)
    {
      Reset();
      crc := End(data);
    }
  }

  // ----- Host -----

  method EthWord(crc: bv32, data: bv32) returns (r: bv32)
    ensures r == WordStep(crc, data)
  {
    hide BitStep, Top, Shl8, CrcTable.TableEntry;
    r := Xor(crc, data);
    var k := 0;
    while k < 4
      invariant 0 <= k <= 4
      invariant r == BitSteps(Xor(crc, data), 8 * k)
    {
      CrcTable.TableStep(r, 8);
      BitStepsAdd(Xor(crc, data), 8 * k, 8);
      r := Xor(Shl8(r), CrcTable.TableEntry(Top(r)));
      k := k + 1;
    }
  }

  method Crc32EthEnd(buffer: seq<Byte>, temp: bv32) returns (crc: bv32)
    ensures crc == CrcWords(temp, Words(buffer))
  {
    hide WordStep;
    crc := temp;
    var i := 0;
    while i < |buffer| / 4
      invariant 0 <= i <= |buffer| / 4
      invariant crc == CrcWords(temp, WordsUpTo(buffer, i))
    {
      crc := EthWord(crc, WordAt(buffer, i));
      i := i + 1;
    }
  }

  method Crc32EthStart(buffer: seq<Byte>) returns (temp: bv32)
    ensures temp == CrcBytes(buffer)
  {
    temp := Crc32EthEnd(buffer, INIT);
  }

  method Crc32Eth(buffer: seq<Byte>) returns (crc: bv32)
    ensures crc == CrcBytes(buffer)
  {
    crc := Crc32EthEnd(buffer, INIT);
  }
}
