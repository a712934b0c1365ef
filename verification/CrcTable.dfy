/** A CRC-32 register with the polynomial of IEEE 802.3 section 3.2.9, unreflected, one bit at a time. */
module CrcBits {
  function Xor(a: bv32, b: bv32): bv32 {
    a ^ b
  }

  function Shl(s: bv32): bv32 {
    s << 1
  }

  /** The polynomial when a bit leaves at the top, nothing otherwise. */
  function Feedback(s: bv32): bv32 {
    0x04C1_1DB7 & (0 - (s >> 31))
  }

  function BitStep(s: bv32): bv32 {
    Xor(Shl(s), Feedback(s))
  }

  function BitSteps(s: bv32, n: nat): bv32 {
    if n == 0 then s else BitStep(BitSteps(s, n - 1))
  }

  /** Eight bit steps, written out so that constants can be evaluated. */
  function ByteStep(s: bv32): bv32 {
    BitStep(BitStep(BitStep(BitStep(BitStep(BitStep(BitStep(BitStep(s))))))))
  }

  lemma FeedbackByCases(s: bv32)
    ensures Feedback(s) == if s & 0x8000_0000 != 0 then 0x04C1_1DB7 else 0
  {}

  lemma XorNothing(a: bv32)
    ensures Xor(a, 0) == a
  {}

  /** The usual form of a bit step: shift, and add the polynomial if a one fell out. */
  lemma BitStepByCases(s: bv32)
    ensures BitStep(s) == if s & 0x8000_0000 != 0 then Xor(Shl(s), 0x04C1_1DB7) else Shl(s)
  {
    hide Feedback, Xor, Shl;
    FeedbackByCases(s);
    XorNothing(Shl(s));
  }

  lemma ShlInjective(a: bv32, b: bv32)
    requires Shl(a) == Shl(b) && (a & 0x8000_0000 == 0 <==> b & 0x8000_0000 == 0)
    ensures a == b
  {}

  lemma ShlIsEven(s: bv32)
    ensures Shl(s) & 1 == 0
  {}

  lemma FeedbackIsOdd(s: bv32)
    ensures s & 1 == 0 ==> Xor(s, 0x04C1_1DB7) & 1 == 1
  {}

  /** The polynomial has a constant term, so a bit step loses nothing. */
  lemma BitStepInjective(a: bv32, b: bv32)
    requires BitStep(a) == BitStep(b)
    ensures a == b
  {
    hide BitStep, Xor, Shl;
    BitStepByCases(a);
    BitStepByCases(b);
    ShlIsEven(a);
    ShlIsEven(b);
    FeedbackIsOdd(Shl(a));
    FeedbackIsOdd(Shl(b));
    if a & 0x8000_0000 != 0 && b & 0x8000_0000 != 0 {
      XorCancel(Shl(a), Shl(b), 0x04C1_1DB7);
    }
    if a & 0x8000_0000 == 0 <==> b & 0x8000_0000 == 0 {
      ShlInjective(a, b);
    }
  }

  lemma {:induction false} BitStepsInjective(a: bv32, b: bv32, n: nat)
    requires BitSteps(a, n) == BitSteps(b, n)
    ensures a == b
  {
    hide BitStep;
    if n > 0 {
      BitStepInjective(BitSteps(a, n - 1), BitSteps(b, n - 1));
      BitStepsInjective(a, b, n - 1);
    }
  }

  lemma {:induction false} BitStepsAdd(s: bv32, m: nat, n: nat)
    ensures BitSteps(BitSteps(s, m), n) == BitSteps(s, m + n)
    decreases n
  {
    hide BitStep;
    if n > 0 {
      BitStepsAdd(s, m, n - 1);
    }
  }

  lemma ByteStepIsBitSteps(s: bv32, n: nat)
    requires n == 8
    ensures ByteStep(s) == BitSteps(s, n)
  {
    hide BitStep;
    var s4 := BitStep(BitStep(BitStep(BitStep(s))));
    assert BitSteps(s, n - 7) == BitStep(BitSteps(s, n - 8));
    assert BitSteps(s, n - 6) == BitStep(BitSteps(s, n - 7));
    assert BitSteps(s, n - 5) == BitStep(BitSteps(s, n - 6));
    assert BitSteps(s, n - 4) == s4;
    assert BitSteps(s, n - 3) == BitStep(BitSteps(s, n - 4));
    assert BitSteps(s, n - 2) == BitStep(BitSteps(s, n - 3));
    assert BitSteps(s, n - 1) == BitStep(BitSteps(s, n - 2));
  }

  // ----- Linearity. Bit-level facts are proved alone; their consumers hide the bits. -----

  lemma XorComm(a: bv32, b: bv32)
    ensures Xor(a, b) == Xor(b, a)
  {}

  lemma XorCancel(a: bv32, b: bv32, c: bv32)
    requires Xor(a, c) == Xor(b, c)
    ensures a == b
  {}

  lemma XorAssoc(a: bv32, b: bv32, c: bv32)
    ensures Xor(Xor(a, b), c) == Xor(a, Xor(b, c))
  {}

  lemma XorSwap(a: bv32, b: bv32, c: bv32, d: bv32)
    ensures Xor(Xor(a, b), Xor(c, d)) == Xor(Xor(a, c), Xor(b, d))
  {
    hide Xor;
    XorAssoc(a, b, Xor(c, d));
    XorAssoc(b, c, d);
    XorComm(b, c);
    XorAssoc(c, b, d);
    XorAssoc(a, c, Xor(b, d));
  }

  lemma ShlXor(a: bv32, b: bv32)
    ensures Shl(Xor(a, b)) == Xor(Shl(a), Shl(b))
  {}

  lemma FeedbackXor(a: bv32, b: bv32)
    ensures Feedback(Xor(a, b)) == Xor(Feedback(a), Feedback(b))
  {}

  lemma BitStepXor(a: bv32, b: bv32)
    ensures BitStep(Xor(a, b)) == Xor(BitStep(a), BitStep(b))
  {
    hide Xor;
    hide Shl;
    hide Feedback;
    ShlXor(a, b);
    FeedbackXor(a, b);
    XorSwap(Shl(a), Shl(b), Feedback(a), Feedback(b));
  }

  lemma {:induction false} BitStepsXor(a: bv32, b: bv32, n: nat)
    ensures BitSteps(Xor(a, b), n) == Xor(BitSteps(a, n), BitSteps(b, n))
  {
    hide Xor;
    hide BitStep;
    if n > 0 {
      BitStepsXor(a, b, n - 1);
      BitStepXor(BitSteps(a, n - 1), BitSteps(b, n - 1));
    }
  }

  // ----- The parts of a register -----

  function Top(s: bv32): bv32 {
    s >> 24
  }

  function FromTop(i: bv32): bv32 {
    i << 24
  }

  function Rest(s: bv32): bv32 {
    s & 0xFF_FFFF
  }

  function Shl8(s: bv32): bv32 {
    s << 8
  }

  lemma TopAndRest(s: bv32)
    ensures s == Xor(FromTop(Top(s)), Rest(s))
    ensures Shl8(Rest(s)) == Shl8(s)
    ensures Top(s) <= 0xFF
  {}

  lemma RestOnlyShifts(s: bv32)
    ensures ByteStep(Rest(s)) == Shl8(Rest(s))
  {}

  /** The three low bytes only move up; everything the polynomial adds comes from the top byte. */
  lemma BitStepsByTop(s: bv32, n: nat)
    requires n == 8
    ensures BitSteps(s, n) == Xor(BitSteps(FromTop(Top(s)), n), Shl8(s))
  {
    hide *;
    TopAndRest(s);
    BitStepsXor(FromTop(Top(s)), Rest(s), n);
    RestOnlyShifts(s);
    ByteStepIsBitSteps(Rest(s), n);
  }
}

/** `sw_crc32_table` (sign/sign.c) and why indexing it replaces eight bit steps. */
module CrcTable {
  import opened CrcBits

  datatype Row = Row(
    c0: bv32, c1: bv32, c2: bv32, c3: bv32, c4: bv32, c5: bv32, c6: bv32, c7: bv32,
    c8: bv32, c9: bv32, cA: bv32, cB: bv32, cC: bv32, cD: bv32, cE: bv32, cF: bv32)
  {
    function At(l: nat): bv32
      requires l < 16
    {
      match l
      case 0 => c0
      case 1 => c1
      case 2 => c2
      case 3 => c3
      case 4 => c4
      case 5 => c5
      case 6 => c6
      case 7 => c7
      case 8 => c8
      case 9 => c9
      case 10 => cA
      case 11 => cB
      case 12 => cC
      case 13 => cD
      case 14 => cE
      case _ => cF
    }
  }

  /** Entries 16h to 16h + 15 of the table. */
  function TableRow(h: nat): Row
    requires h < 16
  {
    match h
    case 0 =>
      Row(0x00000000, 0x04c11db7, 0x09823b6e, 0x0d4326d9, 0x130476dc, 0x17c56b6b, 0x1a864db2, 0x1e475005,
          0x2608edb8, 0x22c9f00f, 0x2f8ad6d6, 0x2b4bcb61, 0x350c9b64, 0x31cd86d3, 0x3c8ea00a, 0x384fbdbd)
    case 1 =>
      Row(0x4c11db70, 0x48d0c6c7, 0x4593e01e, 0x4152fda9, 0x5f15adac, 0x5bd4b01b, 0x569796c2, 0x52568b75,
          0x6a1936c8, 0x6ed82b7f, 0x639b0da6, 0x675a1011, 0x791d4014, 0x7ddc5da3, 0x709f7b7a, 0x745e66cd)
    case 2 =>
      Row(0x9823b6e0, 0x9ce2ab57, 0x91a18d8e, 0x95609039, 0x8b27c03c, 0x8fe6dd8b, 0x82a5fb52, 0x8664e6e5,
          0xbe2b5b58, 0xbaea46ef, 0xb7a96036, 0xb3687d81, 0xad2f2d84, 0xa9ee3033, 0xa4ad16ea, 0xa06c0b5d)
    case 3 =>
      Row(0xd4326d90, 0xd0f37027, 0xddb056fe, 0xd9714b49, 0xc7361b4c, 0xc3f706fb, 0xceb42022, 0xca753d95,
          0xf23a8028, 0xf6fb9d9f, 0xfbb8bb46, 0xff79a6f1, 0xe13ef6f4, 0xe5ffeb43, 0xe8bccd9a, 0xec7dd02d)
    case 4 =>
      Row(0x34867077, 0x30476dc0, 0x3d044b19, 0x39c556ae, 0x278206ab, 0x23431b1c, 0x2e003dc5, 0x2ac12072,
          0x128e9dcf, 0x164f8078, 0x1b0ca6a1, 0x1fcdbb16, 0x018aeb13, 0x054bf6a4, 0x0808d07d, 0x0cc9cdca)
    case 5 =>
      Row(0x7897ab07, 0x7c56b6b0, 0x71159069, 0x75d48dde, 0x6b93dddb, 0x6f52c06c, 0x6211e6b5, 0x66d0fb02,
          0x5e9f46bf, 0x5a5e5b08, 0x571d7dd1, 0x53dc6066, 0x4d9b3063, 0x495a2dd4, 0x44190b0d, 0x40d816ba)
    case 6 =>
      Row(0xaca5c697, 0xa864db20, 0xa527fdf9, 0xa1e6e04e, 0xbfa1b04b, 0xbb60adfc, 0xb6238b25, 0xb2e29692,
          0x8aad2b2f, 0x8e6c3698, 0x832f1041, 0x87ee0df6, 0x99a95df3, 0x9d684044, 0x902b669d, 0x94ea7b2a)
    case 7 =>
      Row(0xe0b41de7, 0xe4750050, 0xe9362689, 0xedf73b3e, 0xf3b06b3b, 0xf771768c, 0xfa325055, 0xfef34de2,
          0xc6bcf05f, 0xc27dede8, 0xcf3ecb31, 0xcbffd686, 0xd5b88683, 0xd1799b34, 0xdc3abded, 0xd8fba05a)
    case 8 =>
      Row(0x690ce0ee, 0x6dcdfd59, 0x608edb80, 0x644fc637, 0x7a089632, 0x7ec98b85, 0x738aad5c, 0x774bb0eb,
          0x4f040d56, 0x4bc510e1, 0x46863638, 0x42472b8f, 0x5c007b8a, 0x58c1663d, 0x558240e4, 0x51435d53)
    case 9 =>
      Row(0x251d3b9e, 0x21dc2629, 0x2c9f00f0, 0x285e1d47, 0x36194d42, 0x32d850f5, 0x3f9b762c, 0x3b5a6b9b,
          0x0315d626, 0x07d4cb91, 0x0a97ed48, 0x0e56f0ff, 0x1011a0fa, 0x14d0bd4d, 0x19939b94, 0x1d528623)
    case 10 =>
      Row(0xf12f560e, 0xf5ee4bb9, 0xf8ad6d60, 0xfc6c70d7, 0xe22b20d2, 0xe6ea3d65, 0xeba91bbc, 0xef68060b,
          0xd727bbb6, 0xd3e6a601, 0xdea580d8, 0xda649d6f, 0xc423cd6a, 0xc0e2d0dd, 0xcda1f604, 0xc960ebb3)
    case 11 =>
      Row(0xbd3e8d7e, 0xb9ff90c9, 0xb4bcb610, 0xb07daba7, 0xae3afba2, 0xaafbe615, 0xa7b8c0cc, 0xa379dd7b,
          0x9b3660c6, 0x9ff77d71, 0x92b45ba8, 0x9675461f, 0x8832161a, 0x8cf30bad, 0x81b02d74, 0x857130c3)
    case 12 =>
      Row(0x5d8a9099, 0x594b8d2e, 0x5408abf7, 0x50c9b640, 0x4e8ee645, 0x4a4ffbf2, 0x470cdd2b, 0x43cdc09c,
          0x7b827d21, 0x7f436096, 0x7200464f, 0x76c15bf8, 0x68860bfd, 0x6c47164a, 0x61043093, 0x65c52d24)
    case 13 =>
      Row(0x119b4be9, 0x155a565e, 0x18197087, 0x1cd86d30, 0x029f3d35, 0x065e2082, 0x0b1d065b, 0x0fdc1bec,
          0x3793a651, 0x3352bbe6, 0x3e119d3f, 0x3ad08088, 0x2497d08d, 0x2056cd3a, 0x2d15ebe3, 0x29d4f654)
    case 14 =>
      Row(0xc5a92679, 0xc1683bce, 0xcc2b1d17, 0xc8ea00a0, 0xd6ad50a5, 0xd26c4d12, 0xdf2f6bcb, 0xdbee767c,
          0xe3a1cbc1, 0xe760d676, 0xea23f0af, 0xeee2ed18, 0xf0a5bd1d, 0xf464a0aa, 0xf9278673, 0xfde69bc4)
    case _ =>
      Row(0x89b8fd09, 0x8d79e0be, 0x803ac667, 0x84fbdbd0, 0x9abc8bd5, 0x9e7d9662, 0x933eb0bb, 0x97ffad0c,
          0xafb010b1, 0xab710d06, 0xa6322bdf, 0xa2f33668, 0xbcb4666d, 0xb8757bda, 0xb5365d03, 0xb1f740b4)
  }

  function High(i: bv32): bv32 {
    i >> 4
  }

  function Low(i: bv32): bv32 {
    i & 0xF
  }

  function Index(x: bv32): (i: nat)
    requires x <= 0xF
    ensures i < 16 && i as bv32 == x
  {
    x as int
  }

  lemma Nibbles(i: bv32)
    requires i <= 0xFF
    ensures High(i) <= 0xF && Low(i) <= 0xF
    ensures FromTop(i) == Xor(FromTop(High(i) << 4), FromTop(Low(i)))
  {}

  function TableEntry(i: bv32): bv32
    requires i <= 0xFF
  {
    Nibbles(i);
    TableRow(Index(High(i))).At(Index(Low(i)))
  }

  function Shifted(c: bv32, z: Row): Row {
    Row(Xor(c, z.c0), Xor(c, z.c1), Xor(c, z.c2), Xor(c, z.c3), Xor(c, z.c4), Xor(c, z.c5), Xor(c, z.c6), Xor(c, z.c7),
        Xor(c, z.c8), Xor(c, z.c9), Xor(c, z.cA), Xor(c, z.cB), Xor(c, z.cC), Xor(c, z.cD), Xor(c, z.cE), Xor(c, z.cF))
  }

  lemma ShiftedAt(c: bv32, z: Row, l: nat)
    requires l < 16
    ensures Shifted(c, z).At(l) == Xor(c, z.At(l))
  {
    hide Xor;
  }

  lemma RowSplits(h: nat)
    requires h < 16
    ensures TableRow(h) == Shifted(TableRow(h).c0, TableRow(0))
  {
    match h
    case 0 => case 1 => case 2 => case 3 => case 4 => case 5 => case 6 => case 7 =>
    case 8 => case 9 => case 10 => case 11 => case 12 => case 13 => case 14 => case _ =>
  }

  lemma RowHead(h: nat)
    requires h < 16
    ensures TableRow(h).c0 == ByteStep(FromTop((h as bv32) << 4))
  {
    match h
    case 0 => case 1 => case 2 => case 3 => case 4 => case 5 => case 6 => case 7 =>
    case 8 => case 9 => case 10 => case 11 => case 12 => case 13 => case 14 => case _ =>
  }

  lemma FirstRow(l: nat)
    requires l < 16
    ensures TableRow(0).At(l) == ByteStep(FromTop(l as bv32))
  {
    match l
    case 0 => case 1 => case 2 => case 3 => case 4 => case 5 => case 6 => case 7 =>
    case 8 => case 9 => case 10 => case 11 => case 12 => case 13 => case 14 => case _ =>
  }

  lemma TableIsBitSteps(i: bv32, n: nat)
    requires i <= 0xFF && n == 8
    ensures TableEntry(i) == BitSteps(FromTop(i), n)
  {
    hide Xor, TableRow, Row.At, Shifted, High, Low, FromTop, ByteStep, BitSteps;
    Nibbles(i);
    var high, low := FromTop(High(i) << 4), FromTop(Low(i));
    var h, l := Index(High(i)), Index(Low(i));
    RowSplits(h);
    ShiftedAt(TableRow(h).c0, TableRow(0), l);
    RowHead(h);
    FirstRow(l);
    ByteStepIsBitSteps(high, n);
    ByteStepIsBitSteps(low, n);
    BitStepsXor(high, low, n);
  }

  /** What the host computes for one byte, `(crc << 8) ^ table[crc >> 24]`, is eight bit steps. */
  lemma TableStep(s: bv32, n: nat)
    requires n == 8
    ensures Top(s) <= 0xFF && Xor(Shl8(s), TableEntry(Top(s))) == BitSteps(s, n)
  {
    hide *;
    TopAndRest(s);
    TableIsBitSteps(Top(s), n);
    BitStepsByTop(s, n);
    XorComm(Shl8(s), TableEntry(Top(s)));
  }
}
