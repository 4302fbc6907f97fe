/**
 The POSIX checksum of `sing`: a table-driven loop over bytes, proved equal to
 the long division, bit by bit, that defines it.
 */
module Crc {

  newtype byte = x: int | 0 <= x < 256

  // -------------------------------------------------------------- the definition

  /** The generator below its leading term. */
  const GENERATOR: bv32 := 0x04C11DB7

  predicate High(r: bv32) {
    r & 0x80000000 != 0
  }

  function Up(r: bv32): bv32 {
    r << 1
  }

  /** The leading n bits of a word, most significant first. */
  ghost function Bits(n: nat, r: bv32): (s: seq<bool>)
    ensures |s| == n
  {
    if n == 0 then [] else [High(r)] + Bits(n - 1, Up(r))
  }

  ghost function Word(r: bv32): (s: seq<bool>)
    ensures |s| == 32
  {
    Bits(32, r)
  }

  ghost function Octet(b: bv8): (s: seq<bool>)
    ensures |s| == 8
  {
    Bits(8, b as bv32 << 24)
  }

  ghost function Octets(s: seq<byte>): (bits: seq<bool>)
    ensures |bits| == 8 * |s|
  {
    if s == [] then [] else Octet(s[0] as bv8) + Octets(s[1..])
  }

  ghost function Xor(a: seq<bool>, b: seq<bool>): (c: seq<bool>)
    requires |a| == |b|
    ensures |c| == |a|
  {
    seq(|a|, i requires 0 <= i < |a| => a[i] != b[i])
  }

  ghost function Zeros(n: nat): (s: seq<bool>)
    ensures |s| == n
  {
    seq(n, i => false)
  }

  /**
   Long division of a bit string by the generator: a leading one is cancelled by
   subtracting the generator under it, a leading zero is passed over, until
   fewer bits than the generator's are left.
   */
  ghost function Remainder(s: seq<bool>): (r: seq<bool>)
    ensures |s| >= 32 ==> |r| == 32
    decreases |s|
  {
    if |s| <= 32 then s
    else Remainder((if s[0] then Xor(s[1..33], Word(GENERATOR)) else s[1..33]) + s[33..])
  }

  /** The octets of a length, least significant first, none for zero. */
  function LengthOctets(n: nat): (s: seq<byte>) {
    if n == 0 then [] else [(n % 256) as byte] + LengthOctets(n / 256)
  }

  /** The number whose octets these are, least significant first. */
  ghost function Value(s: seq<byte>): nat {
    if s == [] then 0 else s[0] as nat + 256 * Value(s[1..])
  }

  /** The octets have the length as their value, with no needless one at the end. */
  lemma {:induction false} LengthOctetsValue(n: nat)
    ensures Value(LengthOctets(n)) == n
    ensures n > 0 ==> LengthOctets(n) != [] && LengthOctets(n)[|LengthOctets(n)| - 1] != 0
  {
    if n > 0 {
      LengthOctetsValue(n / 256);
      var t := LengthOctets(n / 256);
      assert LengthOctets(n)[1..] == t;
      assert n / 256 == 0 ==> n % 256 == n;
    }
  }

  /** The checksum of POSIX: the complement of the remainder of message and length, times x to the 32nd. */
  ghost predicate IsChecksum(s: seq<byte>, crc: bv32) {
    Word(crc ^ 0xFFFFFFFF) == Remainder(Octets(s + LengthOctets(|s|)) + Zeros(32))
  }

  // ---------------------------------------------------------------- the register

  /** Addition of polynomials over the two-element field. */
  function Add(a: bv32, b: bv32): bv32 {
    a ^ b
  }

  /** Multiplication by x, reduced by the generator. */
  function Shift(r: bv32): bv32 {
    Add(Up(r), if High(r) then GENERATOR else 0)
  }

  function Shift8(r: bv32): bv32 {
    Shift(Shift(Shift(Shift(Shift(Shift(Shift(Shift(r))))))))
  }

  ghost function Shifts(n: nat, r: bv32): bv32 {
    if n == 0 then r else Shifts(n - 1, Shift(r))
  }

  lemma {:induction false} UpIsLinear(a: bv32, b: bv32)
    ensures Up(Add(a, b)) == Add(Up(a), Up(b))
  {
  }

  lemma {:induction false} HighOfSum(a: bv32, b: bv32)
    ensures High(Add(a, b)) == (High(a) != High(b))
  {
    assert (a ^ b) & 0x80000000 == (a & 0x80000000) ^ (b & 0x80000000);
    assert a & 0x80000000 == 0 || a & 0x80000000 == 0x80000000;
    assert b & 0x80000000 == 0 || b & 0x80000000 == 0x80000000;
  }

  lemma {:induction false} AddIsAssociative(a: bv32, b: bv32, c: bv32)
    ensures Add(Add(a, b), c) == Add(a, Add(b, c))
  {
  }

  lemma {:induction false} AddCommutes(a: bv32, b: bv32)
    ensures Add(a, b) == Add(b, a)
  {
  }

  lemma {:induction false} Rearrange(a: bv32, b: bv32, c: bv32, d: bv32)
    ensures Add(Add(a, b), Add(c, d)) == Add(Add(a, c), Add(b, d))
  {
    hide Add;
    AddIsAssociative(a, b, Add(c, d));
    AddIsAssociative(b, c, d);
    AddCommutes(b, c);
    AddIsAssociative(c, b, d);
    AddIsAssociative(a, c, Add(b, d));
  }

  lemma {:induction false} Cancel(a: bv32)
    ensures Add(a, a) == 0 && Add(a, 0) == a && Add(0, a) == a
  {
  }

  lemma {:induction false} ShiftIsLinear(a: bv32, b: bv32)
    ensures Shift(Add(a, b)) == Add(Shift(a), Shift(b))
  {
    hide Add, Up, High;
    UpIsLinear(a, b);
    HighOfSum(a, b);
    Cancel(GENERATOR);
    Cancel(0);
    var fa, fb := if High(a) then GENERATOR else 0, if High(b) then GENERATOR else 0;
    Rearrange(Up(a), Up(b), fa, fb);
  }

  lemma {:induction false} ShiftsAreLinear(n: nat, a: bv32, b: bv32)
    ensures Shifts(n, Add(a, b)) == Add(Shifts(n, a), Shifts(n, b))
  {
    hide Shift, Add;
    if n > 0 {
      ShiftIsLinear(a, b);
      ShiftsAreLinear(n - 1, Shift(a), Shift(b));
    }
  }

  lemma {:induction false} ShiftsTurn(n: nat, r: bv32)
    ensures Shifts(n, Shift(r)) == Shift(Shifts(n, r))
  {
    hide Shift;
    if n > 0 {
      ShiftsTurn(n - 1, Shift(r));
    }
  }

  lemma {:induction false} Shift8IsShifts(r: bv32)
    ensures Shift8(r) == Shifts(8, r)
  {
    hide Shift;
    var r1 := Shift(r);
    var r2 := Shift(r1);
    var r3 := Shift(r2);
    var r4 := Shift(r3);
    var r5 := Shift(r4);
    var r6 := Shift(r5);
    var r7 := Shift(r6);
    var r8 := Shift(r7);
    assert Shifts(8, r) == Shifts(7, r1) == Shifts(6, r2) == Shifts(5, r3) == Shifts(4, r4);
    assert Shifts(4, r4) == Shifts(3, r5) == Shifts(2, r6) == Shifts(1, r7) == Shifts(0, r8);
  }

  lemma {:induction false} Shift8IsLinear(a: bv32, b: bv32)
    ensures Shift8(Add(a, b)) == Add(Shift8(a), Shift8(b))
  {
    hide *;
    Shift8IsShifts(a);
    Shift8IsShifts(b);
    Shift8IsShifts(Add(a, b));
    ShiftsAreLinear(8, a, b);
  }

  /** With its upper byte clear, the register is only moved. */
  lemma {:induction false} LowBytesMove(r: bv32)
    ensures Shift8(r & 0x00FFFFFF) == r << 8
  {
  }

  // ------------------------------------------------------------------- the table

  /** The 256 entries, in rows of sixteen. */
  const CRCTAB: seq<seq<bv32>> := [
    [0x00000000, 0x04c11db7, 0x09823b6e, 0x0d4326d9, 0x130476dc, 0x17c56b6b, 0x1a864db2, 0x1e475005,
     0x2608edb8, 0x22c9f00f, 0x2f8ad6d6, 0x2b4bcb61, 0x350c9b64, 0x31cd86d3, 0x3c8ea00a, 0x384fbdbd],
    [0x4c11db70, 0x48d0c6c7, 0x4593e01e, 0x4152fda9, 0x5f15adac, 0x5bd4b01b, 0x569796c2, 0x52568b75,
     0x6a1936c8, 0x6ed82b7f, 0x639b0da6, 0x675a1011, 0x791d4014, 0x7ddc5da3, 0x709f7b7a, 0x745e66cd],
    [0x9823b6e0, 0x9ce2ab57, 0x91a18d8e, 0x95609039, 0x8b27c03c, 0x8fe6dd8b, 0x82a5fb52, 0x8664e6e5,
     0xbe2b5b58, 0xbaea46ef, 0xb7a96036, 0xb3687d81, 0xad2f2d84, 0xa9ee3033, 0xa4ad16ea, 0xa06c0b5d],
    [0xd4326d90, 0xd0f37027, 0xddb056fe, 0xd9714b49, 0xc7361b4c, 0xc3f706fb, 0xceb42022, 0xca753d95,
     0xf23a8028, 0xf6fb9d9f, 0xfbb8bb46, 0xff79a6f1, 0xe13ef6f4, 0xe5ffeb43, 0xe8bccd9a, 0xec7dd02d],
    [0x34867077, 0x30476dc0, 0x3d044b19, 0x39c556ae, 0x278206ab, 0x23431b1c, 0x2e003dc5, 0x2ac12072,
     0x128e9dcf, 0x164f8078, 0x1b0ca6a1, 0x1fcdbb16, 0x018aeb13, 0x054bf6a4, 0x0808d07d, 0x0cc9cdca],
    [0x7897ab07, 0x7c56b6b0, 0x71159069, 0x75d48dde, 0x6b93dddb, 0x6f52c06c, 0x6211e6b5, 0x66d0fb02,
     0x5e9f46bf, 0x5a5e5b08, 0x571d7dd1, 0x53dc6066, 0x4d9b3063, 0x495a2dd4, 0x44190b0d, 0x40d816ba],
    [0xaca5c697, 0xa864db20, 0xa527fdf9, 0xa1e6e04e, 0xbfa1b04b, 0xbb60adfc, 0xb6238b25, 0xb2e29692,
     0x8aad2b2f, 0x8e6c3698, 0x832f1041, 0x87ee0df6, 0x99a95df3, 0x9d684044, 0x902b669d, 0x94ea7b2a],
    [0xe0b41de7, 0xe4750050, 0xe9362689, 0xedf73b3e, 0xf3b06b3b, 0xf771768c, 0xfa325055, 0xfef34de2,
     0xc6bcf05f, 0xc27dede8, 0xcf3ecb31, 0xcbffd686, 0xd5b88683, 0xd1799b34, 0xdc3abded, 0xd8fba05a],
    [0x690ce0ee, 0x6dcdfd59, 0x608edb80, 0x644fc637, 0x7a089632, 0x7ec98b85, 0x738aad5c, 0x774bb0eb,
     0x4f040d56, 0x4bc510e1, 0x46863638, 0x42472b8f, 0x5c007b8a, 0x58c1663d, 0x558240e4, 0x51435d53],
    [0x251d3b9e, 0x21dc2629, 0x2c9f00f0, 0x285e1d47, 0x36194d42, 0x32d850f5, 0x3f9b762c, 0x3b5a6b9b,
     0x0315d626, 0x07d4cb91, 0x0a97ed48, 0x0e56f0ff, 0x1011a0fa, 0x14d0bd4d, 0x19939b94, 0x1d528623],
    [0xf12f560e, 0xf5ee4bb9, 0xf8ad6d60, 0xfc6c70d7, 0xe22b20d2, 0xe6ea3d65, 0xeba91bbc, 0xef68060b,
     0xd727bbb6, 0xd3e6a601, 0xdea580d8, 0xda649d6f, 0xc423cd6a, 0xc0e2d0dd, 0xcda1f604, 0xc960ebb3],
    [0xbd3e8d7e, 0xb9ff90c9, 0xb4bcb610, 0xb07daba7, 0xae3afba2, 0xaafbe615, 0xa7b8c0cc, 0xa379dd7b,
     0x9b3660c6, 0x9ff77d71, 0x92b45ba8, 0x9675461f, 0x8832161a, 0x8cf30bad, 0x81b02d74, 0x857130c3],
    [0x5d8a9099, 0x594b8d2e, 0x5408abf7, 0x50c9b640, 0x4e8ee645, 0x4a4ffbf2, 0x470cdd2b, 0x43cdc09c,
     0x7b827d21, 0x7f436096, 0x7200464f, 0x76c15bf8, 0x68860bfd, 0x6c47164a, 0x61043093, 0x65c52d24],
    [0x119b4be9, 0x155a565e, 0x18197087, 0x1cd86d30, 0x029f3d35, 0x065e2082, 0x0b1d065b, 0x0fdc1bec,
     0x3793a651, 0x3352bbe6, 0x3e119d3f, 0x3ad08088, 0x2497d08d, 0x2056cd3a, 0x2d15ebe3, 0x29d4f654],
    [0xc5a92679, 0xc1683bce, 0xcc2b1d17, 0xc8ea00a0, 0xd6ad50a5, 0xd26c4d12, 0xdf2f6bcb, 0xdbee767c,
     0xe3a1cbc1, 0xe760d676, 0xea23f0af, 0xeee2ed18, 0xf0a5bd1d, 0xf464a0aa, 0xf9278673, 0xfde69bc4],
    [0x89b8fd09, 0x8d79e0be, 0x803ac667, 0x84fbdbd0, 0x9abc8bd5, 0x9e7d9662, 0x933eb0bb, 0x97ffad0c,
     0xafb010b1, 0xab710d06, 0xa6322bdf, 0xa2f33668, 0xbcb4666d, 0xb8757bda, 0xb5365d03, 0xb1f740b4]]

  ghost function RowFrom(h: bv32): seq<bv32> {
    [h ^ 0x00000000, h ^ 0x04c11db7, h ^ 0x09823b6e, h ^ 0x0d4326d9,
     h ^ 0x130476dc, h ^ 0x17c56b6b, h ^ 0x1a864db2, h ^ 0x1e475005,
     h ^ 0x2608edb8, h ^ 0x22c9f00f, h ^ 0x2f8ad6d6, h ^ 0x2b4bcb61,
     h ^ 0x350c9b64, h ^ 0x31cd86d3, h ^ 0x3c8ea00a, h ^ 0x384fbdbd]
  }

  lemma {:induction false} RowHeads()
    ensures Shift8(0x00000000) == 0x00000000
    ensures Shift8(0x10000000) == 0x4c11db70
    ensures Shift8(0x20000000) == 0x9823b6e0
    ensures Shift8(0x30000000) == 0xd4326d90
    ensures Shift8(0x40000000) == 0x34867077
    ensures Shift8(0x50000000) == 0x7897ab07
    ensures Shift8(0x60000000) == 0xaca5c697
    ensures Shift8(0x70000000) == 0xe0b41de7
    ensures Shift8(0x80000000) == 0x690ce0ee
    ensures Shift8(0x90000000) == 0x251d3b9e
    ensures Shift8(0xa0000000) == 0xf12f560e
    ensures Shift8(0xb0000000) == 0xbd3e8d7e
    ensures Shift8(0xc0000000) == 0x5d8a9099
    ensures Shift8(0xd0000000) == 0x119b4be9
    ensures Shift8(0xe0000000) == 0xc5a92679
    ensures Shift8(0xf0000000) == 0x89b8fd09
  {
  }

  lemma {:induction false} FirstRow()
    ensures Shift8(0x00000000) == 0x00000000
    ensures Shift8(0x01000000) == 0x04c11db7
    ensures Shift8(0x02000000) == 0x09823b6e
    ensures Shift8(0x03000000) == 0x0d4326d9
    ensures Shift8(0x04000000) == 0x130476dc
    ensures Shift8(0x05000000) == 0x17c56b6b
    ensures Shift8(0x06000000) == 0x1a864db2
    ensures Shift8(0x07000000) == 0x1e475005
    ensures Shift8(0x08000000) == 0x2608edb8
    ensures Shift8(0x09000000) == 0x22c9f00f
    ensures Shift8(0x0a000000) == 0x2f8ad6d6
    ensures Shift8(0x0b000000) == 0x2b4bcb61
    ensures Shift8(0x0c000000) == 0x350c9b64
    ensures Shift8(0x0d000000) == 0x31cd86d3
    ensures Shift8(0x0e000000) == 0x3c8ea00a
    ensures Shift8(0x0f000000) == 0x384fbdbd
  {
  }

  /** Each row is the first one, under the entry at its head. */
  lemma {:induction false} RowIs(r: bv32)
    requires r < 16
    ensures |CRCTAB| == 16 && CRCTAB[r as int] == RowFrom(Shift8(r << 28))
  {
    hide Shift8;
    RowHeads();
    if r == 0 { assert CRCTAB[0] == RowFrom(0x00000000); }
    if r == 1 { assert CRCTAB[1] == RowFrom(0x4c11db70); }
    if r == 2 { assert CRCTAB[2] == RowFrom(0x9823b6e0); }
    if r == 3 { assert CRCTAB[3] == RowFrom(0xd4326d90); }
    if r == 4 { assert CRCTAB[4] == RowFrom(0x34867077); }
    if r == 5 { assert CRCTAB[5] == RowFrom(0x7897ab07); }
    if r == 6 { assert CRCTAB[6] == RowFrom(0xaca5c697); }
    if r == 7 { assert CRCTAB[7] == RowFrom(0xe0b41de7); }
    if r == 8 { assert CRCTAB[8] == RowFrom(0x690ce0ee); }
    if r == 9 { assert CRCTAB[9] == RowFrom(0x251d3b9e); }
    if r == 10 { assert CRCTAB[10] == RowFrom(0xf12f560e); }
    if r == 11 { assert CRCTAB[11] == RowFrom(0xbd3e8d7e); }
    if r == 12 { assert CRCTAB[12] == RowFrom(0x5d8a9099); }
    if r == 13 { assert CRCTAB[13] == RowFrom(0x119b4be9); }
    if r == 14 { assert CRCTAB[14] == RowFrom(0xc5a92679); }
    if r == 15 { assert CRCTAB[15] == RowFrom(0x89b8fd09); }
  }

  lemma {:induction false} ColumnIs(h: bv32, j: bv32)
    requires j < 16
    ensures RowFrom(h)[j as int] == Add(h, Shift8(j << 24))
  {
    hide Shift8;
    FirstRow();
    if j == 0 { assert j << 24 == 0x00000000; }
    if j == 1 { assert j << 24 == 0x01000000; }
    if j == 2 { assert j << 24 == 0x02000000; }
    if j == 3 { assert j << 24 == 0x03000000; }
    if j == 4 { assert j << 24 == 0x04000000; }
    if j == 5 { assert j << 24 == 0x05000000; }
    if j == 6 { assert j << 24 == 0x06000000; }
    if j == 7 { assert j << 24 == 0x07000000; }
    if j == 8 { assert j << 24 == 0x08000000; }
    if j == 9 { assert j << 24 == 0x09000000; }
    if j == 10 { assert j << 24 == 0x0a000000; }
    if j == 11 { assert j << 24 == 0x0b000000; }
    if j == 12 { assert j << 24 == 0x0c000000; }
    if j == 13 { assert j << 24 == 0x0d000000; }
    if j == 14 { assert j << 24 == 0x0e000000; }
    if j == 15 { assert j << 24 == 0x0f000000; }
  }

  function Crctab(i: bv32): (r: bv32)
    requires i < 256
  {
    assert |CRCTAB| == 16;
    assert i >> 4 < 16 && i & 15 < 16;
    var row := CRCTAB[(i >> 4) as int];
    assert |row| == 16 by { RowIs(i >> 4); }
    row[(i & 15) as int]
  }

  lemma {:induction false} Nibbles(i: bv32)
    requires i < 256
    ensures i >> 4 < 16 && i & 15 < 16
    ensures Add((i >> 4) << 28, (i & 15) << 24) == i << 24
  {
  }

  lemma {:induction false} EntryIs(i: bv32)
    requires i < 256
    ensures i >> 4 < 16 && i & 15 < 16
    ensures Crctab(i) == RowFrom(Shift8((i >> 4) << 28))[(i & 15) as int]
  {
    hide Shift8, RowFrom, CRCTAB;
    Nibbles(i);
    RowIs(i >> 4);
  }

  /** Every entry is eight shifts of its index. */
  lemma {:induction false} TableIs(i: bv32)
    requires i < 256
    ensures Crctab(i) == Shift8(i << 24)
  {
    hide *;
    EntryIs(i);
    Nibbles(i);
    ColumnIs(Shift8((i >> 4) << 28), i & 15);
    Shift8IsLinear((i >> 4) << 28, (i & 15) << 24);
  }

  // ------------------------------------------- the register divides as on paper

  /** One more bit of the dividend enters the register at its low end. */
  ghost function Feed(r: bv32, bit: bool): bv32 {
    Add(Shift(r), if bit then 1 else 0)
  }

  ghost function FeedAll(r: bv32, bits: seq<bool>): bv32
    decreases |bits|
  {
    if bits == [] then r else FeedAll(Feed(r, bits[0]), bits[1..])
  }

  lemma {:induction false} BitsOfSum(n: nat, a: bv32, b: bv32)
    ensures Bits(n, Add(a, b)) == Xor(Bits(n, a), Bits(n, b))
  {
    hide Add, Up, High;
    if n > 0 {
      UpIsLinear(a, b);
      HighOfSum(a, b);
      BitsOfSum(n - 1, Up(a), Up(b));
    }
  }

  ghost function Ups(n: nat, r: bv32): bv32 {
    if n == 0 then r else Ups(n - 1, Up(r))
  }

  lemma {:induction false} LastOfBits(n: nat, r: bv32)
    ensures Bits(n + 1, r) == Bits(n, r) + [High(Ups(n, r))]
  {
    hide Up, High;
    if n > 0 {
      LastOfBits(n - 1, Up(r));
    }
  }

  lemma {:induction false} Ups8(n: nat, r: bv32)
    ensures Ups(n + 8, r) == Ups(n, r << 8)
  {
    assert Ups(n + 8, r) == Ups(n + 7, r << 1) == Ups(n + 6, r << 2) == Ups(n + 5, r << 3) == Ups(n + 4, r << 4);
    assert Ups(n + 4, r << 4) == Ups(n + 3, r << 5) == Ups(n + 2, r << 6) == Ups(n + 1, r << 7) == Ups(n, r << 8);
  }

  lemma {:induction false} Ups7(r: bv32)
    ensures Ups(7, r) == r << 7
  {
    assert Ups(7, r) == Ups(6, r << 1) == Ups(5, r << 2) == Ups(4, r << 3) == Ups(3, r << 4);
    assert Ups(3, r << 4) == Ups(2, r << 5) == Ups(1, r << 6) == Ups(0, r << 7);
  }

  lemma {:induction false} Ups31(r: bv32)
    ensures Ups(31, r) == r << 31
  {
    hide *;
    Ups8(23, r);
    Ups8(15, r << 8);
    Ups8(7, r << 8 << 8);
    Ups7(r << 8 << 8 << 8);
    assert r << 8 << 8 << 8 << 7 == r << 31;
  }

  lemma {:induction false} LowBitRises(r: bv32, bit: bool)
    ensures High(Ups(31, Add(Up(r), if bit then 1 else 0))) == bit
  {
    Ups31(Add(Up(r), if bit then 1 else 0));
    hide Ups;
    assert (((r << 1) ^ 1) << 31) & 0x80000000 == 0x80000000;
    assert (((r << 1) ^ 0) << 31) & 0x80000000 == 0;
  }

  lemma {:induction false} BitsOfZero(n: nat)
    ensures Bits(n, 0) == Zeros(n)
  {
    if n > 0 {
      BitsOfZero(n - 1);
    }
  }

  lemma {:induction false} BitSixteenIsLast()
    ensures Bits(15, 0x00010000) == Zeros(15)
  {
    assert Bits(0, 0x80000000) == Zeros(0) && Bits(1, 0x40000000) == Zeros(1) && Bits(2, 0x20000000) == Zeros(2);
    assert Bits(3, 0x10000000) == Zeros(3) && Bits(4, 0x08000000) == Zeros(4) && Bits(5, 0x04000000) == Zeros(5);
    assert Bits(6, 0x02000000) == Zeros(6) && Bits(7, 0x01000000) == Zeros(7) && Bits(8, 0x00800000) == Zeros(8);
    assert Bits(9, 0x00400000) == Zeros(9) && Bits(10, 0x00200000) == Zeros(10) && Bits(11, 0x00100000) == Zeros(11);
    assert Bits(12, 0x00080000) == Zeros(12) && Bits(13, 0x00040000) == Zeros(13) && Bits(14, 0x00020000) == Zeros(14);
  }

  /** The low bit is not among the leading 31. */
  lemma {:induction false} LowBitIsLast()
    ensures Bits(31, 1) == Zeros(31)
  {
    BitSixteenIsLast();
    assert Bits(16, 0x00008000) == Zeros(16) && Bits(17, 0x00004000) == Zeros(17) && Bits(18, 0x00002000) == Zeros(18);
    assert Bits(19, 0x00001000) == Zeros(19) && Bits(20, 0x00000800) == Zeros(20) && Bits(21, 0x00000400) == Zeros(21);
    assert Bits(22, 0x00000200) == Zeros(22) && Bits(23, 0x00000100) == Zeros(23) && Bits(24, 0x00000080) == Zeros(24);
    assert Bits(25, 0x00000040) == Zeros(25) && Bits(26, 0x00000020) == Zeros(26) && Bits(27, 0x00000010) == Zeros(27);
    assert Bits(28, 0x00000008) == Zeros(28) && Bits(29, 0x00000004) == Zeros(29) && Bits(30, 0x00000002) == Zeros(30);
  }

  /** A bit that enters below ends up last. */
  lemma {:induction false} WordOfFed(r: bv32, bit: bool)
    ensures Word(Add(Up(r), if bit then 1 else 0)) == Word(r)[1..] + [bit]
  {
    hide Add, Up, High;
    var e := if bit then 1 else 0;
    LastOfBits(31, Add(Up(r), e));
    LowBitRises(r, bit);
    BitsOfSum(31, Up(r), e);
    LowBitIsLast();
    BitsOfZero(31);
    assert Xor(Bits(31, Up(r)), Zeros(31)) == Bits(31, Up(r));
    assert Word(r) == [High(r)] + Bits(31, Up(r));
  }

  lemma {:induction false} FeedIs(r: bv32, bit: bool)
    ensures Feed(r, bit) == Add(Add(Up(r), if bit then 1 else 0), if High(r) then GENERATOR else 0)
  {
    hide Add, Up, High;
    var e, g := if bit then 1 else 0, if High(r) then GENERATOR else 0;
    Rearrange(Up(r), g, e, 0);
    Cancel(e);
    Cancel(g);
  }

  lemma {:induction false} WordOfFeed(r: bv32, bit: bool)
    ensures Word(Feed(r, bit)) ==
            if High(r) then Xor(Word(r)[1..] + [bit], Word(GENERATOR)) else Word(r)[1..] + [bit]
  {
    hide Add, Up, High, Xor, Bits, Feed;
    var x := Add(Up(r), if bit then 1 else 0);
    FeedIs(r, bit);
    WordOfFed(r, bit);
    Cancel(x);
    BitsOfSum(32, x, GENERATOR);
  }

  lemma {:induction false} HighIsFirst(r: bv32)
    ensures Word(r)[0] == High(r)
  {
  }

  lemma {:induction false} RemainderStep(w: seq<bool>, t: seq<bool>)
    requires |w| == 32 && t != []
    ensures Remainder(w + t) ==
            Remainder((if w[0] then Xor(w[1..] + [t[0]], Word(GENERATOR)) else w[1..] + [t[0]]) + t[1..])
  {
    hide Word, Xor;
    var s := w + t;
    assert s[0] == w[0];
    assert s[1..33] == w[1..] + [t[0]];
    assert s[33..] == t[1..];
  }

  lemma {:induction false} DivisionStep(r: bv32, t: seq<bool>)
    requires t != []
    ensures Remainder(Word(r) + t) == Remainder(Word(Feed(r, t[0])) + t[1..])
  {
    hide *;
    HighIsFirst(r);
    WordOfFeed(r, t[0]);
    RemainderStep(Word(r), t);
  }

  lemma {:induction false} RegisterDivides(r: bv32, t: seq<bool>)
    ensures Remainder(Word(r) + t) == Word(FeedAll(r, t))
    decreases |t|
  {
    hide Word, Feed;
    if t == [] {
      assert Word(r) + t == Word(r);
    } else {
      DivisionStep(r, t);
      RegisterDivides(Feed(r, t[0]), t[1..]);
    }
  }

  /** Leading zeros do not matter to a division. */
  lemma {:induction false} LeadingZeros(k: nat, s: seq<bool>)
    requires |s| >= 32
    ensures Remainder(Zeros(k) + s) == Remainder(s)
  {
    if k == 0 {
      assert Zeros(k) + s == s;
    } else {
      var z := Zeros(k) + s;
      assert z[1..33] + z[33..] == z[1..] == Zeros(k - 1) + s;
      LeadingZeros(k - 1, s);
    }
  }

  // ------------------------------------------------ message bits from above

  /** One bit of the message enters the register at its high end. */
  ghost function Direct(r: bv32, bits: seq<bool>): bv32
    decreases |bits|
  {
    if bits == [] then r else Direct(Shift(Add(r, Top(bits[0]))), bits[1..])
  }

  ghost function Top(bit: bool): bv32 {
    if bit then 0x80000000 else 0
  }

  lemma {:induction false} FeedConcat(r: bv32, a: seq<bool>, b: seq<bool>)
    ensures FeedAll(r, a + b) == FeedAll(FeedAll(r, a), b)
    decreases |a|
  {
    hide Feed;
    if a == [] {
      assert a + b == b;
    } else {
      assert (a + b)[1..] == a[1..] + b;
      FeedConcat(Feed(r, a[0]), a[1..], b);
    }
  }

  lemma {:induction false} FeedZeros(n: nat, r: bv32)
    ensures FeedAll(r, Zeros(n)) == Shifts(n, r)
  {
    hide Shift, Add;
    if n > 0 {
      assert Zeros(n)[1..] == Zeros(n - 1);
      Cancel(Shift(r));
      FeedZeros(n - 1, Shift(r));
    }
  }

  /** While no bit leaves the register, nothing is fed back. */
  lemma {:induction false} QuietShifts(n: nat, r: bv32)
    requires Bits(n, r) == Zeros(n)
    ensures Shifts(n, r) == Ups(n, r)
  {
    hide Add, Up, High;
    if n > 0 {
      assert Bits(n, r)[0] == Zeros(n)[0];
      assert Bits(n, r)[1..] == Bits(n - 1, Up(r));
      assert Zeros(n)[1..] == Zeros(n - 1);
      Cancel(Up(r));
      QuietShifts(n - 1, Up(r));
    }
  }

  lemma {:induction false} LowBitReachesTop(bit: bool)
    ensures Shifts(32, if bit then 1 else 0) == Shift(Top(bit))
  {
    hide Bits, Ups, Shift;
    var e := if bit then 1 else 0;
    LowBitIsLast();
    BitsOfZero(31);
    QuietShifts(31, e);
    Ups31(e);
    assert e << 31 == Top(bit);
    ShiftsTurn(31, e);
    assert Shifts(32, e) == Shifts(31, Shift(e));
  }

  lemma {:induction false} FeedThenShift(r: bv32, bit: bool)
    ensures Shifts(32, Feed(r, bit)) == Shift(Add(Shifts(32, r), Top(bit)))
  {
    hide Shift, Add, Shifts, Top;
    var e := if bit then 1 else 0;
    ShiftsAreLinear(32, Shift(r), e);
    ShiftsTurn(32, r);
    LowBitReachesTop(bit);
    ShiftIsLinear(Shifts(32, r), Top(bit));
  }

  lemma {:induction false} DirectIsDivision(r: bv32, bits: seq<bool>)
    ensures Direct(Shifts(32, r), bits) == Shifts(32, FeedAll(r, bits))
    decreases |bits|
  {
    hide Shift, Shifts, Feed, Add, Top;
    if bits != [] {
      FeedThenShift(r, bits[0]);
      DirectIsDivision(Feed(r, bits[0]), bits[1..]);
    }
  }

  /** The division of the message, followed by 32 zeros, from its bits alone. */
  lemma {:induction false} DivisionByBits(bits: seq<bool>)
    ensures Word(Direct(0, bits)) == Remainder(bits + Zeros(32))
  {
    hide Word, Direct, FeedAll, Shifts, Remainder;
    var s := bits + Zeros(32);
    LeadingZeros(32, s);
    assert Word(0) == Zeros(32) by { WordOfZero(); }
    RegisterDivides(0, s);
    FeedConcat(0, bits, Zeros(32));
    FeedZeros(32, FeedAll(0, bits));
    DirectIsDivision(0, bits);
    ShiftsOfZero(32);
  }

  lemma {:induction false} WordOfZero()
    ensures Word(0) == Zeros(32)
  {
    BitsOfZero(32);
  }

  lemma {:induction false} ShiftsOfZero(n: nat)
    ensures Shifts(n, 0) == 0
  {
    if n > 0 {
      ShiftsOfZero(n - 1);
    }
  }

  // ------------------------------------------------------ eight bits at a time

  lemma {:induction false} ShiftOfTop(bit: bool)
    ensures Shift(Top(bit)) == if bit then GENERATOR else 0
  {
  }

  /** The leading bit of x enters, the rest of x waits one place further up. */
  lemma {:induction false} OneBit(r: bv32, x: bv32)
    ensures Shift(Add(r, x)) == Add(Shift(Add(r, Top(High(x)))), Up(x))
  {
    hide Shift, Add, Up, High, Top;
    ShiftIsLinear(r, x);
    ShiftIsLinear(r, Top(High(x)));
    ShiftOfTop(High(x));
    ShiftParts(x);
    AddIsAssociative(Shift(r), Shift(Top(High(x))), Up(x));
    AddCommutes(Shift(Top(High(x))), Up(x));
  }

  lemma {:induction false} ShiftParts(x: bv32)
    ensures Shift(x) == Add(Up(x), if High(x) then GENERATOR else 0)
  {
  }

  lemma {:induction false} DirectBits(n: nat, r: bv32, x: bv32)
    ensures Shifts(n, Add(r, x)) == Add(Direct(r, Bits(n, x)), Ups(n, x))
  {
    hide Shift, Add, Up, High, Top;
    if n > 0 {
      OneBit(r, x);
      assert Bits(n, x)[1..] == Bits(n - 1, Up(x));
      DirectBits(n - 1, Shift(Add(r, Top(High(x)))), Up(x));
    }
  }

  lemma {:induction false} DirectConcat(r: bv32, a: seq<bool>, b: seq<bool>)
    ensures Direct(r, a + b) == Direct(Direct(r, a), b)
    decreases |a|
  {
    hide Shift, Add, Top;
    if a == [] {
      assert a + b == b;
    } else {
      assert (a + b)[1..] == a[1..] + b;
      DirectConcat(Shift(Add(r, Top(a[0]))), a[1..], b);
    }
  }

  /** A byte in one step of the register. */
  lemma {:induction false} DirectOctet(r: bv32, b: bv8)
    ensures Direct(r, Octet(b)) == Shift8(Add(r, b as bv32 << 24))
  {
    hide Direct, Shifts, Shift8, Add, Bits, Ups;
    var x := b as bv32 << 24;
    DirectBits(8, r, x);
    Ups8(0, x);
    assert Ups(0, x << 8) == x << 8 by { UpsNone(x << 8); }
    assert x << 8 == 0;
    Cancel(Direct(r, Octet(b)));
    Shift8IsShifts(Add(r, x));
  }

  lemma {:induction false} UpsNone(x: bv32)
    ensures Ups(0, x) == x
  {
  }

  // --------------------------------------------------------------- the program

  function Index(crc: bv32, b: bv32): (i: bv32)
    ensures i < 256
  {
    ((crc >> 24) ^ b) & 0xFF
  }

  /** One byte by the table. */
  function TableStep(crc: bv32, b: byte): bv32 {
    (crc << 8) ^ Crctab(Index(crc, b as bv8 as bv32))
  }

  lemma {:induction false} SplitBits(crc: bv32, b: bv8, i: bv32)
    requires i == ((crc >> 24) ^ (b as bv32)) & 0xFF
    ensures crc ^ (b as bv32 << 24) == (i << 24) ^ (crc & 0x00FFFFFF)
  {
  }

  lemma {:induction false} SameSum(a: bv32, b: bv32, c: bv32, d: bv32)
    requires a ^ b == c ^ d
    ensures Add(a, b) == Add(c, d)
  {
  }

  lemma {:induction false} Split(crc: bv32, b: bv8, i: bv32)
    requires i == Index(crc, b as bv32)
    ensures Add(crc, b as bv32 << 24) == Add(i << 24, crc & 0x00FFFFFF)
  {
    hide Add;
    SplitBits(crc, b, i);
    SameSum(crc, b as bv32 << 24, i << 24, crc & 0x00FFFFFF);
  }

  lemma {:induction false} TableStepIs(crc: bv32, b: byte)
    ensures TableStep(crc, b) == Add(crc << 8, Crctab(Index(crc, b as bv8 as bv32)))
  {
    hide Crctab;
  }

  lemma {:induction false} TableStepIsOctet(crc: bv32, b: byte)
    ensures TableStep(crc, b) == Direct(crc, Octet(b as bv8))
  {
    hide *;
    var x := b as bv8 as bv32;
    var i := Index(crc, x);
    TableStepIs(crc, b);
    TableIs(i);
    Split(crc, b as bv8, i);
    Shift8IsLinear(i << 24, crc & 0x00FFFFFF);
    LowBytesMove(crc);
    AddCommutes(crc << 8, Crctab(i));
    DirectOctet(crc, b as bv8);
  }

  function TableSteps(crc: bv32, s: seq<byte>): bv32
    decreases |s|
  {
    if s == [] then crc else TableSteps(TableStep(crc, s[0]), s[1..])
  }

  lemma {:induction false} TableStepsAreBits(crc: bv32, s: seq<byte>)
    ensures TableSteps(crc, s) == Direct(crc, Octets(s))
    decreases |s|
  {
    hide TableStep, Octet, Direct;
    if s == [] {
      DirectNone(crc);
    } else {
      TableStepIsOctet(crc, s[0]);
      DirectConcat(crc, Octet(s[0] as bv8), Octets(s[1..]));
      TableStepsAreBits(TableStep(crc, s[0]), s[1..]);
    }
  }

  lemma {:induction false} DirectNone(crc: bv32)
    ensures Direct(crc, []) == crc
  {
  }

  lemma {:induction false} Complement(crc: bv32)
    ensures (!crc & 0xFFFFFFFF) ^ 0xFFFFFFFF == crc
  {
  }

  /** The checksum as a function of the bytes. */
  function Cksum(s: seq<byte>): (crc: bv32)
    ensures IsChecksum(s, crc)
  {
    var t := s + LengthOctets(|s|);
    var crc := TableSteps(0, t);
    assert IsChecksum(s, !crc & 0xFFFFFFFF) by { ChecksumIs(s, crc); }
    !crc & 0xFFFFFFFF
  }

  lemma {:induction false} ChecksumIs(s: seq<byte>, crc: bv32)
    requires crc == TableSteps(0, s + LengthOctets(|s|))
    ensures IsChecksum(s, !crc & 0xFFFFFFFF)
  {
    hide TableSteps, Octets, Remainder, Word, Direct;
    var t := s + LengthOctets(|s|);
    TableStepsAreBits(0, t);
    DivisionByBits(Octets(t));
    Complement(crc);
  }

  lemma {:induction false} StepsConcat(crc: bv32, a: seq<byte>, b: seq<byte>)
    ensures TableSteps(crc, a + b) == TableSteps(TableSteps(crc, a), b)
    decreases |a|
  {
    hide TableStep;
    if a == [] {
      assert a + b == b;
    } else {
      assert (a + b)[1..] == a[1..] + b;
      StepsConcat(TableStep(crc, a[0]), a[1..], b);
    }
  }

  // ------------------------------------------------- no other word is the checksum

  lemma {:induction false} ShiftIsInjective(r: bv32)
    requires Shift(r) == 0
    ensures r == 0
  {
    assert ((r << 1) ^ 0x04C11DB7) & 1 == 1;
    assert r << 1 == 0 && r & 0x80000000 == 0 ==> r == 0;
  }

  lemma {:induction false} ShiftsVanish(n: nat, r: bv32)
    requires Shifts(n, r) == 0
    ensures r == 0
  {
    hide Shift;
    if n > 0 {
      ShiftsVanish(n - 1, Shift(r));
      ShiftIsInjective(r);
    }
  }

  lemma {:induction false} ClearWord(x: bv32)
    requires Word(x) == Zeros(32)
    ensures x == 0
  {
    hide Bits, Shifts, Shift;
    QuietShifts(32, x);
    assert Ups(32, x) == Ups(31, x << 1);
    Ups31(x << 1);
    assert x << 1 << 31 == 0;
    ShiftsVanish(32, x);
  }

  /** The definition leaves no choice. */
  lemma {:induction false} ChecksumIsUnique(s: seq<byte>, a: bv32, b: bv32)
    requires IsChecksum(s, a) && IsChecksum(s, b)
    ensures a == b
  {
    hide Remainder, Bits;
    var x, y := a ^ 0xFFFFFFFF, b ^ 0xFFFFFFFF;
    BitsOfSum(32, x, y);
    assert Xor(Word(x), Word(y)) == Zeros(32);
    ClearWord(Add(x, y));
  }

  /** The program: one loop over the bytes, one over the octets of the length. */
  method ComputeCksum(input: seq<byte>) returns (r: bv32)
    ensures IsChecksum(input, r)
    ensures r == Cksum(input)
  {
    hide TableStep, IsChecksum;
    var crc: bv32 := 0;
    var i := 0;
    while i < |input|
      invariant i <= |input|
      invariant TableSteps(crc, input[i..]) == TableSteps(0, input)
    {
      assert input[i..][1..] == input[i + 1..];
      crc := TableStep(crc, input[i]);
      i := i + 1;
    }
    StepsConcat(0, input, LengthOctets(|input|));
    var length: nat := |input|;
    while length != 0
      invariant TableSteps(crc, LengthOctets(length)) == TableSteps(0, input + LengthOctets(|input|))
    {
      crc := TableStep(crc, (length % 256) as byte);
      length := length / 256;
    }
    assert crc == TableSteps(0, input + LengthOctets(|input|));
    r := !crc & 0xFFFFFFFF;
    assert r == Cksum(input);
  }
}
