/** Decimal version numbers: printed into the object dictionary (common/canopendriver/CO_driver_app.c)
    and parsed from firmware fields (common/fw_header/fw_header_utils.c). */
module Decimal {
  import opened Bytes

  predicate IsDigit(c: Byte) {
    48 <= c <= 57
  }

  ghost predicate AllDigits(ds: seq<Byte>) {
    forall i :: 0 <= i < |ds| ==> IsDigit(ds[i])
  }

  /** `c - '0'` */
  function Digit(c: Byte): int {
    c as int - 48
  }

  function Dec(n: nat): (ds: seq<Byte>)
    ensures ds != [] && AllDigits(ds)
  {
    if n < 10 then [48 + n] else Dec(n / 10) + [48 + n % 10]
  }

  function DecVal(ds: seq<Byte>): int {
    if ds == [] then 0 else 10 * DecVal(ds[..|ds| - 1]) + Digit(ds[|ds| - 1])
  }

  function Pow10(k: nat): (p: nat)
    ensures p >= 1
  {
    if k == 0 then 1 else 10 * Pow10(k - 1)
  }

  lemma {:induction false} DecValOfDec(n: nat)
    ensures DecVal(Dec(n)) == n
  {
    if n >= 10 {
      DecValOfDec(n / 10);
      assert Dec(n)[..|Dec(n)| - 1] == Dec(n / 10);
    } else {
      assert Dec(n)[..0] == [];
    }
  }

  lemma {:induction false} DecLength(n: nat, k: nat)
    requires 1 <= k && n < Pow10(k)
    ensures |Dec(n)| <= k
  {
    if n >= 10 {
      DecLength(n / 10, k - 1);
    }
  }

  lemma Pow10Values()
    ensures Pow10(9) == 1_000_000_000 && Pow10(10) == 10_000_000_000
  {
    assert Pow10(3) == 1000;
    assert Pow10(6) == 1_000_000;
  }

  lemma DecFits(n: U32)
    ensures |Dec(n)| <= 10
  {
    Pow10Values();
    DecLength(n, 10);
  }

  lemma {:induction false} DecValBound(ds: seq<Byte>)
    requires AllDigits(ds)
    ensures 0 <= DecVal(ds) < Pow10(|ds|)
  {
    if ds != [] {
      DecValBound(ds[..|ds| - 1]);
    }
  }

  /** The leading digit counts with the power of its position. */
  lemma {:induction false} DecValFirst(ds: seq<Byte>)
    requires ds != []
    ensures DecVal(ds) == Digit(ds[0]) * Pow10(|ds| - 1) + DecVal(ds[1..])
  {
    if |ds| > 1 {
      var before := ds[..|ds| - 1];
      DecValFirst(before);
      assert ds[1..][..|ds| - 2] == before[1..];
      assert Pow10(|ds| - 1) == 10 * Pow10(|ds| - 2);
      Scale(Digit(ds[0]), Pow10(|ds| - 2));
    }
  }

  lemma Scale(d: int, p: nat)
    ensures 10 * (d * p) == d * (10 * p)
  {}

  // ----- Printing -----

  method CountDigits(value: U32) returns (result: nat)
    ensures result == |Dec(value)|
  {
    result := 0;
    var v := value;
    while v != 0
      invariant 0 <= v <= value
      invariant result + (if v == 0 then 0 else |Dec(v)|) == if value == 0 then 0 else |Dec(value)|
    {
      v := v / 10;
      result := result + 1;
    }
    if result == 0 {
      result := 1;
    }
  }

  function Put(s: seq<Byte>, at: nat, ds: seq<Byte>): seq<Byte>
    requires at + |ds| <= |s|
  {
    s[..at] + ds + s[at + |ds|..]
  }

  /** `_print_num`: writes the number at `ptr` if a terminator still fits behind it, else does nothing. */
  method PrintNum(buf: array<Byte>, ptr: nat, num: U32) returns (next: nat)
    requires ptr <= buf.Length
    modifies buf
    ensures var ds := Dec(num);
            if ptr + |ds| > buf.Length - 1 then next == ptr && buf[..] == old(buf[..])
            else next == ptr + |ds| && buf[..] == Put(old(buf[..]), ptr, ds)
  {
    hide Dec;
    var cnt := CountDigits(num);
    if ptr > buf.Length - 1 - cnt {
      return ptr;
    }
    ghost var ds := Dec(num);
    var n := num;
    var i := 0;
    assert ds[cnt..] == [];
    while i < cnt
      invariant 0 <= i <= cnt
      invariant i < cnt ==> ds == Dec(n) + ds[cnt - i..] && |Dec(n)| == cnt - i
      invariant forall j :: 0 <= j < buf.Length ==>
                  buf[j] == if ptr + cnt - i <= j < ptr + cnt then ds[j - ptr] else old(buf[j])
    {
      DecLast(n, ds, cnt - i);
      buf[ptr + cnt - i - 1] := n % 10 + 48;
      n := n / 10;
      i := i + 1;
    }
    assert buf[..] == Put(old(buf[..]), ptr, ds);
    return ptr + cnt;
  }

  lemma DecLast(n: nat, ds: seq<Byte>, k: nat)
    requires 0 < k <= |ds| && ds == Dec(n) + ds[k..] && |Dec(n)| == k
    ensures ds[k - 1] == 48 + n % 10
    ensures k > 1 ==> ds == Dec(n / 10) + ds[k - 1..] && |Dec(n / 10)| == k - 1
  {
    assert ds[k - 1] == Dec(n)[k - 1];
    if k > 1 {
      assert ds[k - 1..] == [48 + n % 10] + ds[k..];
    }
  }

  const VERSION_SIZE := 33
  const DOT: Byte := 46

  function VersionText(major: U32, minor: U32, patch: U32): seq<Byte> {
    Dec(major) + [DOT] + Dec(minor) + [DOT] + Dec(patch)
  }

  function Filled(text: seq<Byte>): seq<Byte>
    requires |text| <= VERSION_SIZE
  {
    text + Zeros(VERSION_SIZE - |text|)
  }

  lemma PutFilled(text: seq<Byte>, ds: seq<Byte>)
    requires |text| + |ds| <= VERSION_SIZE
    ensures Put(Filled(text), |text|, ds) == Filled(text + ds)
  {}

  /** The software version entry of the object dictionary: every triple fits, terminator included. */
  method VersionString(buf: array<Byte>, major: U32, minor: U32, patch: U32)
    requires buf.Length == VERSION_SIZE
    modifies buf
    ensures var text := VersionText(major, minor, patch);
            |text| < VERSION_SIZE && buf[..] == Filled(text)
  {
    hide Dec, Put, Filled;
    DecFits(major);
    DecFits(minor);
    DecFits(patch);
    Clear(buf);
    var ptr := PrintNum(buf, 0, major);
    PutFilled([], Dec(major));
    ghost var text := [] + Dec(major);
    if ptr < buf.Length - 1 {
      ptr := PutDot(buf, ptr, text);
      text := text + [DOT];
    }
    PutFilled(text, Dec(minor));
    ptr := PrintNum(buf, ptr, minor);
    text := text + Dec(minor);
    if ptr < buf.Length - 1 {
      ptr := PutDot(buf, ptr, text);
      text := text + [DOT];
    }
    PutFilled(text, Dec(patch));
    ptr := PrintNum(buf, ptr, patch);
    assert text + Dec(patch) == VersionText(major, minor, patch);
  }

  method Clear(buf: array<Byte>)
    requires buf.Length == VERSION_SIZE
    modifies buf
    ensures buf[..] == Filled([])
  {
    for k := 0 to buf.Length
      invariant forall j :: 0 <= j < k ==> buf[j] == 0
    {
      buf[k] := 0;
    }
    assert buf[..] == Zeros(VERSION_SIZE);
  }

  method PutDot(buf: array<Byte>, ptr: nat, ghost text: seq<Byte>) returns (next: nat)
    requires buf.Length == VERSION_SIZE && ptr == |text| < VERSION_SIZE && buf[..] == Filled(text)
    modifies buf
    ensures next == ptr + 1 && buf[..] == Filled(text + [DOT])
  {
    PutFilled(text, [DOT]);
    buf[ptr] := DOT;
    return ptr + 1;
  }

  /** The text determines the numbers. */
  lemma VersionInjective(a: U32, b: U32, c: U32, x: U32, y: U32, z: U32)
    requires VersionText(a, b, c) == VersionText(x, y, z)
    ensures a == x && b == y && c == z
  {
    var s, t := VersionText(a, b, c), VersionText(x, y, z);
    assert s == Dec(a) + [DOT] + (Dec(b) + [DOT] + Dec(c));
    assert t == Dec(x) + [DOT] + (Dec(y) + [DOT] + Dec(z));
    SplitAtDot(Dec(a), Dec(b) + [DOT] + Dec(c), Dec(x), Dec(y) + [DOT] + Dec(z));
    SplitAtDot(Dec(b), Dec(c), Dec(y), Dec(z));
    DecValOfDec(a);
    DecValOfDec(x);
    DecValOfDec(b);
    DecValOfDec(y);
    DecValOfDec(c);
    DecValOfDec(z);
  }

  function FirstDot(s: seq<Byte>): nat {
    if s == [] || s[0] == DOT then 0 else 1 + FirstDot(s[1..])
  }

  lemma {:induction false} FirstDotIs(a: seq<Byte>, p: seq<Byte>)
    requires AllDigits(a)
    ensures FirstDot(a + [DOT] + p) == |a|
  {
    if a != [] {
      FirstDotIs(a[1..], p);
      assert IsDigit(a[0]) && (a + [DOT] + p)[1..] == a[1..] + [DOT] + p;
    }
  }

  lemma SplitAtDot(a: seq<Byte>, p: seq<Byte>, b: seq<Byte>, q: seq<Byte>)
    requires AllDigits(a) && AllDigits(b) && a + [DOT] + p == b + [DOT] + q
    ensures a == b && p == q
  {
    var s, t := a + [DOT] + p, b + [DOT] + q;
    FirstDotIs(a, p);
    FirstDotIs(b, q);
    assert a == s[..|a|] && b == t[..|b|];
    assert p == s[|a| + 1..] && q == t[|b| + 1..];
  }

  /** Up to the first dot stands the major number, between the dots the minor one, behind them the patch. */
  lemma VersionParts(a: U32, b: U32, c: U32)
    ensures var s := VersionText(a, b, c);
            && FirstDot(s) < |s| && DecVal(s[..FirstDot(s)]) == a
            && var t := s[FirstDot(s) + 1..];
               && FirstDot(t) < |t| && DecVal(t[..FirstDot(t)]) == b && DecVal(t[FirstDot(t) + 1..]) == c
  {
    hide DecVal;
    var s, t := VersionText(a, b, c), Dec(b) + [DOT] + Dec(c);
    assert s == Dec(a) + [DOT] + t;
    FirstDotIs(Dec(a), t);
    FirstDotIs(Dec(b), Dec(c));
    assert s[..|Dec(a)|] == Dec(a) && s[|Dec(a)| + 1..] == t;
    assert t[..|Dec(b)|] == Dec(b) && t[|Dec(b)| + 1..] == Dec(c);
    DecValOfDec(a);
    DecValOfDec(b);
    DecValOfDec(c);
  }

  /** In characters: 1, 20 and 3 give "1.20.3". */
  lemma VersionExample()
    ensures VersionText(1, 20, 3) == [49, 46, 50, 48, 46, 51]
  {
    assert Dec(20) == Dec(2) + [48];
  }

  // ----- Parsing -----

  /** The value the parser computes for at most ten digits: the tenth digit's product is a 32-bit one. */
  function ParseDigits(ds: seq<Byte>): int
    requires |ds| <= 10
  {
    if |ds| < 10 then DecVal(ds)
    else
      var sum := DecVal(ds[1..]) + Digit(ds[0]) * 1_000_000_000 % U32_MOD;
      if sum >= U32_MOD then 0 else sum
  }

  /** What ten digits may denote and what the parser makes of it: exact below 2^32, rejected as 0
      from there to 5 * 10^9, and from 5 * 10^9 on wrapped, except where the wrapped sum overflows too. */
  lemma ParseExactness(ds: seq<Byte>)
    requires AllDigits(ds) && |ds| <= 10
    ensures var v, r := DecVal(ds), ParseDigits(ds);
            && 0 <= v < 10_000_000_000 && 0 <= r < U32_MOD
            && (r == v <==> v < U32_MOD)
            && (v >= U32_MOD ==> (r == 0 <==> v < 5_000_000_000 || 2 * U32_MOD <= v < 9_000_000_000))
  {
    Pow10Values();
    DecValBound(ds);
    if |ds| == 10 {
      DecValFirst(ds);
      DecValBound(ds[1..]);
      TopDigit(Digit(ds[0]), DecVal(ds[1..]));
    } else {
      Pow10Monotone(|ds|, 9);
    }
  }

  lemma {:induction false} Pow10Monotone(a: nat, b: nat)
    requires a <= b
    ensures Pow10(a) <= Pow10(b)
    decreases b
  {
    if a < b {
      Pow10Monotone(a, b - 1);
    }
  }

  lemma TopDigit(d: int, low: int)
    requires 0 <= d <= 9 && 0 <= low < 1_000_000_000
    ensures var v := d * 1_000_000_000 + low;
            var sum := low + d * 1_000_000_000 % U32_MOD;
            var r := if sum >= U32_MOD then 0 else sum;
            && (r == v <==> v < U32_MOD)
            && (v >= U32_MOD ==> (r == 0 <==> v < 5_000_000_000 || 2 * U32_MOD <= v < 9_000_000_000))
  {
    if d == 4 {
    } else if d == 5 {
    } else if d == 6 {
    } else if d == 7 {
    } else if d == 8 {
    } else if d == 9 {
    }
  }

  /** Every 32-bit number survives printing and parsing. */
  lemma PrintThenParse(n: U32)
    ensures |Dec(n)| <= 10 && ParseDigits(Dec(n)) == n
  {
    DecFits(n);
    DecValOfDec(n);
    ParseExactness(Dec(n));
  }
}
