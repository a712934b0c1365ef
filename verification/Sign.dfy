/** The host tool that appends fields to a firmware image and fills its header (sign/sign.c). */
module Sign {
  import opened Bytes
  import opened Crc
  import opened FwFields
  import FwHeader
  import opened Layout

  const EQUALS: Byte := 61
  const HEADER_END := HEADER_OFFSET + FwHeader.HEADER_SIZE
  const PATTERN: seq<Byte> := [
    0xAA, 0xAA, 0xAA, 0xAA, 0xBB, 0xBB, 0xBB, 0xBB,
    0xCC, 0xCC, 0xCC, 0xCC, 0xDD, 0xDD, 0xDD, 0xDD
  ]

  datatype Result = Signed(image: seq<Byte>) | Failed(code: nat)

  // ----- Arguments: key=value -----

  /** `strchr(s, '=')`, -1 when there is none. */
  function Delimiter(a: seq<Byte>): (k: int)
    ensures -1 <= k < |a|
    ensures k >= 0 ==> a[k] == EQUALS
  {
    if a == [] then -1
    else if a[0] == EQUALS then 0
    else
      var k := Delimiter(a[1..]);
      if k < 0 then -1 else k + 1
  }

  predicate GoodArg(a: seq<Byte>) {
    Delimiter(a) > 0 && |a| > Delimiter(a) + 1
  }

  type Arg = a: seq<Byte> | GoodArg(a) witness [97, EQUALS, 98]

  function Key(a: Arg): seq<Byte> {
    a[..Delimiter(a)]
  }

  function Value(a: Arg): seq<Byte> {
    a[Delimiter(a) + 1..]
  }

  ghost predicate Arguments(args: seq<seq<Byte>>) {
    forall i :: 0 <= i < |args| ==> NoNul(args[i])
  }

  /** The index of the first malformed argument, |args| if there is none. */
  function FirstBad(args: seq<seq<Byte>>, i: nat := 0): (j: nat)
    requires i <= |args|
    ensures i <= j <= |args|
    ensures forall k :: i <= k < j ==> GoodArg(args[k])
    ensures j < |args| ==> !GoodArg(args[j])
    decreases |args| - i
  {
    if i == |args| || !GoodArg(args[i]) then i else FirstBad(args, i + 1)
  }

  /** Keys and values in the order given. */
  function FieldsOf(args: seq<Arg>): (ss: seq<seq<Byte>>)
    ensures |ss| == 2 * |args|
  {
    if args == [] then []
    else
      var n := |args| - 1;
      FieldsOf(args[..n]) + [Key(args[n]), Value(args[n])]
  }

  lemma {:induction false} FieldsAt(args: seq<Arg>, i: nat)
    requires i < |args|
    ensures FieldsOf(args)[2 * i] == Key(args[i]) && FieldsOf(args)[2 * i + 1] == Value(args[i])
  {
    hide Key, Value;
    if i < |args| - 1 {
      FieldsAt(args[..|args| - 1], i);
    }
  }

  /** The value of the first argument with this key. */
  function FirstValue(args: seq<Arg>, key: seq<Byte>): Option<seq<Byte>> {
    if args == [] then None
    else if Key(args[0]) == key then Some(Value(args[0]))
    else FirstValue(args[1..], key)
  }

  // ----- Layout -----

  /** One to four zeros, up to the next multiple of four. */
  function ZeroPadded(s: seq<Byte>): (r: seq<Byte>)
    ensures |r| % 4 == 0 && |s| < |r| <= |s| + 4 && s <= r
    ensures forall i :: |s| <= i < |r| ==> r[i] == 0
  {
    s + Zeros(4 - |s| % 4)
  }

  /** The padded file, the fields, and the zeros that end them. */
  function Layouted(file: seq<Byte>, args: seq<Arg>): seq<Byte> {
    ZeroPadded(ZeroPadded(file) + Cat(FieldsOf(args)))
  }

  ghost predicate HasPattern(s: seq<Byte>) {
    HEADER_END <= |s| && s[HEADER_OFFSET..HEADER_END] == PATTERN
  }

  /** The header words over the pattern; the fourth word keeps it. */
  function WithHeader(s: seq<Byte>, size: U32, crc: U32, fieldsOffset: U32): (r: seq<Byte>)
    requires HEADER_END <= |s|
    ensures |r| == |s|
  {
    s[..HEADER_OFFSET] + Le32(size) + Le32(crc) + Le32(fieldsOffset) + s[HEADER_OFFSET + 12..]
  }

  function BodyCrc(s: seq<Byte>): U32
    requires HEADER_END <= |s|
  {
    CrcValue(s[..HEADER_OFFSET] + s[HEADER_END..])
  }

  /** The sizes the tool computes with are within its 32-bit integers. */
  ghost predicate Representable(file: seq<Byte>, args: seq<seq<Byte>>) {
    |file| + Total(args) + 8 < 0x8000_0000
  }

  function Total(args: seq<seq<Byte>>): nat {
    if args == [] then 0 else Total(args[..|args| - 1]) + |args[|args| - 1]| + 1
  }

  ghost function SignSpec(file: seq<Byte>, args: seq<seq<Byte>>, limit: int): Result
    requires Representable(file, args)
  {
    if |ZeroPadded(file)| < HEADER_OFFSET + 4 then Failed(7)
    else if FirstBad(args) < |args| then Failed(3)
    else
      TotalFields(args);
      var s := Layouted(file, args);
      if !HasPattern(s) then Failed(7)
      else if limit < |s| then Failed(8)
      else Signed(WithHeader(s, |s|, BodyCrc(s), |ZeroPadded(file)|))
  }

  /** An argument takes as many bytes in the image as it has characters, and one for its terminator. */
  lemma ArgBytes(a: Arg)
    ensures Cat([Key(a), Value(a)]) == a[Delimiter(a) := 0] + [0]
  {
    var ss := [Key(a), Value(a)];
    assert ss[1..] == [Value(a)];
    assert Cat(ss[1..]) == Value(a) + [0];
  }

  lemma FieldsStep(args: seq<Arg>)
    requires args != []
    ensures var n := |args| - 1; var a := args[n];
            Cat(FieldsOf(args)) == Cat(FieldsOf(args[..n])) + a[Delimiter(a) := 0] + [0]
  {
    var n := |args| - 1;
    CatAppend(FieldsOf(args[..n]), [Key(args[n]), Value(args[n])]);
    ArgBytes(args[n]);
  }

  lemma {:induction false} TotalFields(args: seq<Arg>)
    ensures |Cat(FieldsOf(args))| == Total(args)
  {
    if args != [] {
      TotalFields(args[..|args| - 1]);
      FieldsStep(args);
    }
  }

  // ----- The tool -----

  /** A word stored at `at`. */
  function Patched(s: seq<Byte>, at: nat, w: U32): (r: seq<Byte>)
    requires at + 4 <= |s|
    ensures |r| == |s|
  {
    s[..at] + Le32(w) + s[at + 4..]
  }

  method Pad(s: seq<Byte>) returns (content: seq<Byte>)
    ensures content == ZeroPadded(s)
  {
    content := s;
    var i := 0;
    while i < 1 || |content| % 4 != 0
      invariant |content| == |s| + i && s <= content <= ZeroPadded(s)
      decreases |ZeroPadded(s)| - |content|
    {
      content := content + [0];
      i := i + 1;
    }
  }

  /** The loop over the arguments; stops at the first malformed one. */
  method AppendFields(start: seq<Byte>, args: seq<seq<Byte>>) returns (good: bool, content: seq<Byte>)
    ensures good <==> FirstBad(args) == |args|
    ensures good ==> content == start + Cat(FieldsOf(args))
  {
    hide Cat, FieldsOf, Delimiter;
    content := start;
    NoFields();
    var i := 0;
    while i < |args|
      invariant 0 <= i <= |args| && FirstBad(args) == FirstBad(args, i)
      invariant forall k :: 0 <= k < i ==> GoodArg(args[k])
      invariant content == start + Cat(FieldsOf(args[..i]))
    {
      var arg := args[i];
      var delim := FindDelimiter(arg);
      if delim <= 0 || |arg| <= delim + 1 {
        return false, content;
      }
      GoodPrefix(args, i);
      ArgAppended(start, args[..i + 1]);
      assert args[..i + 1][..i] == args[..i];
      var at := |content|;
      content := content + arg + [0];
      content := content[at + delim := 0];
      i := i + 1;
    }
    assert args[..|args|] == args;
    return true, content;
  }

  lemma GoodPrefix(args: seq<seq<Byte>>, i: nat)
    requires i < |args| && Delimiter(args[i]) > 0 && |args[i]| > Delimiter(args[i]) + 1
    requires forall k :: 0 <= k < i ==> GoodArg(args[k])
    ensures forall k :: 0 <= k <= i ==> GoodArg(args[k])
  {}

  lemma ArgAppended(start: seq<Byte>, args: seq<Arg>)
    requires args != []
    ensures var n := |args| - 1; var a, before := args[n], start + Cat(FieldsOf(args[..n]));
            (before + a + [0])[|before| + Delimiter(a) := 0] == start + Cat(FieldsOf(args))
  {
    hide Cat, FieldsOf;
    FieldsStep(args);
    var n := |args| - 1;
    var a, before := args[n], start + Cat(FieldsOf(args[..n]));
    assert (before + a + [0])[|before| + Delimiter(a) := 0] == before + a[Delimiter(a) := 0] + [0];
  }

  lemma NoFields()
    ensures Cat(FieldsOf([])) == []
  {}

  method FindDelimiter(a: seq<Byte>) returns (k: int)
    ensures k == Delimiter(a)
  {
    var i := 0;
    while i < |a|
      invariant 0 <= i <= |a|
      invariant Delimiter(a) == if Delimiter(a[i..]) < 0 then -1 else i + Delimiter(a[i..])
    {
      if a[i] == EQUALS {
        return i;
      }
      assert a[i..][1..] == a[i + 1..];
      i := i + 1;
    }
    return -1;
  }

  /** `memcmp` against the pattern. The last byte of the padded file is a zero, so a comparison that
      gets to it stops there and never leaves the buffer. */
  method PatternMatches(content: seq<Byte>, padded: nat) returns (same: bool)
    requires HEADER_OFFSET + 4 <= padded <= |content| && content[padded - 1] == 0
    ensures same <==> HasPattern(content)
    ensures same ==> HEADER_END < padded
  {
    var i := 0;
    while i < |PATTERN|
      invariant 0 <= i <= |PATTERN| && HEADER_OFFSET + i < padded
      invariant forall k :: 0 <= k < i ==> content[HEADER_OFFSET..][k] == PATTERN[k]
    {
      if content[HEADER_OFFSET + i] != PATTERN[i] {
        assert HEADER_END <= |content| ==> content[HEADER_OFFSET..HEADER_END][i] != PATTERN[i];
        return false;
      }
      assert content[HEADER_OFFSET..][i] == PATTERN[i] != 0;
      i := i + 1;
    }
    assert content[HEADER_OFFSET..HEADER_END] == PATTERN;
    return true;
  }

  /** The header, word by word; the CRC is computed around it. */
  method FillHeader(s: seq<Byte>, fieldsAddrOffset: U32) returns (content: seq<Byte>)
    requires HEADER_END <= |s| < U32_MOD
    ensures content == WithHeader(s, |s|, BodyCrc(s), fieldsAddrOffset)
  {
    hide CrcBytes, CrcWords, Words, Number, Le32;
    content := Patched(s, HEADER_OFFSET, |s|);
    content := Patched(content, HEADER_OFFSET + 8, fieldsAddrOffset);
    var temp := Crc32EthStart(content[..HEADER_OFFSET]);
    var crc := Crc32EthEnd(content[HEADER_END..], temp);
    StartThenEnd(content[..HEADER_OFFSET], content[HEADER_END..]);
    assert content[..HEADER_OFFSET] == s[..HEADER_OFFSET] && content[HEADER_END..] == s[HEADER_END..];
    content := Patched(content, HEADER_OFFSET + 4, Number(crc));
    assert content == WithHeader(s, |s|, BodyCrc(s), fieldsAddrOffset);
  }

  /** The program, from the bytes of the input file to those of the output file. */
  method Run(file: seq<Byte>, args: seq<seq<Byte>>, limit: int) returns (r: Result)
    requires Arguments(args) && Representable(file, args)
    ensures r == SignSpec(file, args, limit)
  {
    hide Cat, FieldsOf, WithHeader, BodyCrc, ZeroPadded, HasPattern, Total;
    var content := Pad(file);
    if |content| < HEADER_OFFSET + 4 {
      return Failed(7);
    }
    var fieldsAddrOffset := |content|;
    var good;
    good, content := AppendFields(content, args);
    if !good {
      return Failed(3);
    }
    TotalFields(args);
    ghost var body := content;
    content := Pad(content);
    assert content[fieldsAddrOffset - 1] == body[fieldsAddrOffset - 1] == ZeroPadded(file)[fieldsAddrOffset - 1];
    var match_ := PatternMatches(content, fieldsAddrOffset);
    if !match_ {
      return Failed(7);
    }
    content := FillHeader(content, fieldsAddrOffset);
    if limit < |content| {
      return Failed(8);
    }
    return Signed(content);
  }
}
