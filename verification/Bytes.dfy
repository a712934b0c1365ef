/** Machine integers, little-endian fields and zero-terminated strings. */
module Bytes {
  type Byte = b: int | 0 <= b < 0x100
  type U16 = x: int | 0 <= x < 0x1_0000
  type U32 = x: int | 0 <= x < 0x1_0000_0000

  const U32_MOD := 0x1_0000_0000

  datatype Option<+T> = None | Some(value: T)

  function Le16(x: U16): (s: seq<Byte>)
    ensures |s| == 2
  {
    [x % 0x100, x / 0x100]
  }

  function FromLe16(s: seq<Byte>): U16
    requires |s| == 2
  {
    var lo: Byte, hi: Byte := s[0], s[1];
    lo + 0x100 * hi
  }

  function Le32(x: U32): (s: seq<Byte>)
    ensures |s| == 4
  {
    Le16(x % 0x1_0000) + Le16(x / 0x1_0000)
  }

  function FromLe32(s: seq<Byte>): U32
    requires |s| == 4
  {
    FromLe16(s[..2]) + 0x1_0000 * FromLe16(s[2..])
  }

  lemma Le16RoundTrip(x: U16)
    ensures FromLe16(Le16(x)) == x
  {}

  lemma Le16OfFromLe16(s: seq<Byte>)
    requires |s| == 2
    ensures Le16(FromLe16(s)) == s
  {}

  lemma Le32RoundTrip(x: U32)
    ensures FromLe32(Le32(x)) == x
  {
    var lo, hi := Le16(x % 0x1_0000), Le16(x / 0x1_0000);
    assert (lo + hi)[..2] == lo && (lo + hi)[2..] == hi;
  }

  lemma FromLe32RoundTrip(s: seq<Byte>)
    requires |s| == 4
    ensures Le32(FromLe32(s)) == s
  {
    var lo: U16, hi: U16 := FromLe16(s[..2]), FromLe16(s[2..]);
    Le16OfFromLe16(s[..2]);
    Le16OfFromLe16(s[2..]);
    assert (lo + 0x1_0000 * hi) % 0x1_0000 == lo && (lo + 0x1_0000 * hi) / 0x1_0000 == hi;
    assert s == s[..2] + s[2..];
  }

  function Zeros(n: nat): (s: seq<Byte>)
    ensures |s| == n && forall i :: 0 <= i < n ==> s[i] == 0
  {
    seq(n, _ => 0)
  }

  /** The lowest byte comes first. */
  lemma LittleEndian(s: seq<Byte>)
    requires |s| == 4
    ensures var a: int, b: int, c: int, d: int := s[0], s[1], s[2], s[3];
            FromLe32(s) == a + 0x100 * b + 0x1_0000 * c + 0x100_0000 * d
    ensures Le32(FromLe32(s)) == s
  {
    FromLe32RoundTrip(s);
  }

  /** The bytes of an ASCII text; other characters become question marks. */
  function Ascii(s: string): (bs: seq<Byte>)
    ensures |bs| == |s| && forall i :: 0 <= i < |s| && s[i] < 128 as char ==> bs[i] == s[i] as int
  {
    seq(|s|, i requires 0 <= i < |s| => if s[i] < 128 as char then s[i] as int else '?' as int)
  }

  /** No zero byte: the bytes a C string can hold before its terminator. */
  ghost predicate NoNul(s: seq<Byte>) {
    forall i :: 0 <= i < |s| ==> s[i] != 0
  }
}
