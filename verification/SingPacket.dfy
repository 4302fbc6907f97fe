/**
 The test packet of `sing`: its printed form, and the `sscanf` conversions by
 which the receiver reads it back.
 */
module SingPacket {

  import opened Values
  import Crc

  type byte = Crc.byte

  const START_OF_DATA: int := 23
  const LENGTH_OF_CRC: int := 8
  const MIN_PACKET_LENGTH: int := START_OF_DATA + LENGTH_OF_CRC + 1
  const MAX_DATA_LENGTH: int := 65535 - MIN_PACKET_LENGTH
  const EOF_NPACK: nat := 999999
  const ETX: byte := 4
  const SPACE: byte := 32
  const MINUS: byte := 45
  const PLUS: byte := 43
  const ZERO: byte := 48

  const TWO32: int := 0x1_0000_0000

  datatype Packet = Packet(number: nat, msec: int, data: seq<byte>) {
    function Length(): (n: nat)
      ensures n > 0
    {
      MIN_PACKET_LENGTH + |data|
    }

    /** Each header field fits the width it is printed in. */
    ghost predicate Fits() {
      && number <= EOF_NPACK
      && -99999999 <= msec <= 999999999
      && |data| <= 99999
    }
  }

  // -------------------------------------------------------------------- printing

  function Digits(n: nat): (s: seq<byte>)
    ensures |s| > 0
  {
    if n < 10 then [(n + 48) as byte] else Digits(n / 10) + [(n % 10 + 48) as byte]
  }

  function Decimal(i: int): (s: seq<byte>)
    ensures |s| > 0
  {
    if i < 0 then [MINUS] + Digits(-i) else Digits(i)
  }

  function Spaces(n: nat): (s: seq<byte>)
    ensures |s| == n
  {
    if n == 0 then [] else [SPACE] + Spaces(n - 1)
  }

  /** A conversion with a field width. */
  function Padded(width: nat, s: seq<byte>): (r: seq<byte>)
    ensures |r| == if |s| < width then width else |s|
  {
    if |s| < width then Spaces(width - |s|) + s else s
  }

  function HexDigit(d: nat): byte
    requires d < 16
  {
    if d < 10 then (d + 48) as byte else (d + 87) as byte
  }

  /** The last k hexadecimal digits of n. */
  function Hex(k: nat, n: nat): (s: seq<byte>)
    ensures |s| == k
  {
    if k == 0 then [] else Hex(k - 1, n / 16) + [HexDigit(n % 16)]
  }

  function Header(p: Packet): seq<byte> {
    Padded(6, Digits(p.number)) + [SPACE] + Padded(9, Decimal(p.msec)) + [SPACE] + Padded(5, Digits(|p.data|)) + [SPACE]
  }

  function Check(s: seq<byte>): (crc: nat)
    ensures crc < TWO32
  {
    Crc.Cksum(s) as nat
  }

  /** What the sender writes for a packet. */
  function Print(p: Packet): seq<byte> {
    var body := Header(p) + p.data;
    body + Hex(8, Check(body)) + [ETX]
  }

  // -------------------------------------------------------------------- scanning

  predicate IsBlank(c: byte) {
    c == SPACE || 9 <= c <= 13
  }

  predicate IsDigit(c: byte) {
    48 <= c <= 57
  }

  function SkipBlanks(s: seq<byte>): (r: seq<byte>)
    ensures |r| <= |s|
  {
    if s != [] && IsBlank(s[0]) then SkipBlanks(s[1..]) else s
  }

  /** Digits from the front of s, continuing the value acc. */
  function TakeDigits(acc: nat, s: seq<byte>): (nat, seq<byte>)
    decreases |s|
  {
    if s != [] && IsDigit(s[0]) then TakeDigits(10 * acc + (s[0] as nat - 48), s[1..]) else (acc, s)
  }

  /** A `%d` conversion: blanks, a sign, digits; with the text behind it. */
  function ScanInt(s: seq<byte>): Option<(int, seq<byte>)> {
    var t := SkipBlanks(s);
    var signed := t != [] && (t[0] == MINUS || t[0] == PLUS);
    var u := if signed then t[1..] else t;
    if u == [] || !IsDigit(u[0]) then None
    else
      var r := TakeDigits(0, u);
      Some((if signed && t[0] == MINUS then -(r.0 as int) else r.0 as int, r.1))
  }

  function ToUnsigned(i: int): (r: nat)
    ensures r < TWO32
  {
    i % TWO32
  }

  function ToSigned(i: int): (r: int)
    ensures -0x8000_0000 <= r < 0x8000_0000
  {
    var u := i % TWO32;
    if u < 0x8000_0000 then u else u - TWO32
  }

  datatype Fields = Fields(number: nat, msec: int, dsize: int)

  /** The header conversions, `%u %d %d`. */
  function ScanHeader(s: seq<byte>): Option<Fields> {
    match ScanInt(s)
    case None => None
    case Some(a) =>
      match ScanInt(a.1)
      case None => None
      case Some(b) =>
        match ScanInt(b.1)
        case None => None
        case Some(c) => Some(Fields(ToUnsigned(a.0), ToSigned(b.0), ToSigned(c.0)))
  }

  function HexValue(c: byte): Option<nat> {
    if 48 <= c <= 57 then Some(c as nat - 48)
    else if 97 <= c <= 102 then Some(c as nat - 87)
    else if 65 <= c <= 70 then Some(c as nat - 55)
    else None
  }

  function TakeHex(acc: nat, s: seq<byte>): nat
    decreases |s|
  {
    if s != [] && HexValue(s[0]).Some? then TakeHex(16 * acc + HexValue(s[0]).value, s[1..]) else acc
  }

  /** A `%8x` conversion: blanks, then at most eight characters of sign, prefix and digits. */
  function ScanHex(s: seq<byte>): Option<nat> {
    var t := SkipBlanks(s);
    var field := if |t| > 8 then t[..8] else t;
    var signed := field != [] && (field[0] == MINUS || field[0] == PLUS);
    var u := if signed then field[1..] else field;
    var v := if |u| >= 2 && u[0] == ZERO && (u[1] == 120 || u[1] == 88) then u[2..] else u;
    if v == [] || HexValue(v[0]).None? then None
    else
      var n: int := TakeHex(0, v);
      Some(ToUnsigned(if signed && field[0] == MINUS then -n else n))
  }

  // ------------------------------------------------- what is printed is read back

  lemma {:induction false} DigitsAreRead(n: nat, t: seq<byte>)
    ensures TakeDigits(0, Digits(n) + t) == TakeDigits(n, t)
    ensures IsDigit(Digits(n)[0])
  {
    if n < 10 {
      var s := Digits(n) + t;
      assert s[0] == (n + 48) as byte && s[1..] == t;
    } else {
      var d := [(n % 10 + 48) as byte];
      assert Digits(n) + t == Digits(n / 10) + (d + t);
      DigitsAreRead(n / 10, d + t);
      assert (d + t)[1..] == t;
    }
  }

  lemma {:induction false} SpacesAreSkipped(k: nat, t: seq<byte>)
    requires t != [] && !IsBlank(t[0])
    ensures SkipBlanks(Spaces(k) + t) == t
  {
    if k == 0 {
      assert Spaces(0) + t == t;
    } else {
      assert (Spaces(k) + t)[1..] == Spaces(k - 1) + t;
      SpacesAreSkipped(k - 1, t);
    }
  }

  lemma {:induction false} SpacedNumberIsRead(k: nat, i: int, t: seq<byte>)
    requires t != [] && t[0] == SPACE
    ensures ScanInt(Spaces(k) + (Decimal(i) + t)) == Some((i, t))
  {
    hide Digits, Spaces, TakeDigits, SkipBlanks;
    var m := if i < 0 then -i else i;
    DigitsAreRead(m, t);
    StopsAtSpace(m, t);
    var u := Decimal(i) + t;
    assert u[0] == if i < 0 then MINUS else Digits(m)[0];
    assert i < 0 ==> u[1..] == Digits(m) + t;
    SpacesAreSkipped(k, u);
  }

  /** A printed number is read back, with or without a blank before it and whatever follows a blank behind it. */
  lemma {:induction false} NumberIsRead(width: nat, i: int, t: seq<byte>)
    requires t != [] && t[0] == SPACE
    ensures ScanInt(Padded(width, Decimal(i)) + t) == Some((i, t))
    ensures ScanInt([SPACE] + (Padded(width, Decimal(i)) + t)) == Some((i, t))
  {
    hide Spaces, Decimal, ScanInt;
    var k := if |Decimal(i)| < width then width - |Decimal(i)| else 0;
    SpacedNumberIsRead(k, i, t);
    SpacedNumberIsRead(k + 1, i, t);
    NoSpaces();
    OneMoreSpace(k);
    assert Padded(width, Decimal(i)) + t == Spaces(k) + (Decimal(i) + t);
    assert [SPACE] + (Padded(width, Decimal(i)) + t) == Spaces(k + 1) + (Decimal(i) + t);
  }

  lemma {:induction false} NoSpaces()
    ensures Spaces(0) == []
  {
  }

  lemma {:induction false} OneMoreSpace(k: nat)
    ensures Spaces(k + 1) == [SPACE] + Spaces(k)
  {
  }

  lemma {:induction false} StopsAtSpace(acc: nat, t: seq<byte>)
    requires t != [] && t[0] == SPACE
    ensures TakeDigits(acc, t) == (acc, t)
  {
  }

  lemma {:induction false} DigitsFit(n: nat, k: nat, bound: nat)
    requires k > 0 && bound == Power10(k) && n < bound
    ensures |Digits(n)| <= k
  {
    if n >= 10 {
      DigitsFit(n / 10, k - 1, Power10(k - 1));
    }
  }

  ghost function Power10(k: nat): nat {
    if k == 0 then 1 else 10 * Power10(k - 1)
  }

  lemma {:induction false} HeaderLength(p: Packet)
    requires p.Fits()
    ensures |Header(p)| == START_OF_DATA
  {
    hide Digits;
    assert Power10(6) == 1000000 && Power10(9) == 1000000000 && Power10(5) == 100000;
    assert Power10(8) == 100000000;
    DigitsFit(p.number, 6, 1000000);
    DigitsFit(|p.data|, 5, 100000);
    if p.msec < 0 {
      DigitsFit(-p.msec, 8, 100000000);
    } else {
      DigitsFit(p.msec, 9, 1000000000);
    }
  }

  /** Whatever follows it, a printed header is read back. */
  lemma {:induction false} HeaderIsRead(p: Packet, t: seq<byte>)
    requires p.Fits()
    ensures ScanHeader(Header(p) + t) == Some(Fields(p.number, p.msec, |p.data|))
  {
    hide ScanInt, Digits, Decimal, Padded;
    var c := [SPACE] + t;
    var b := [SPACE] + (Padded(5, Decimal(|p.data|)) + c);
    var a := [SPACE] + (Padded(9, Decimal(p.msec)) + b);
    NumberIsRead(6, p.number, a);
    NumberIsRead(9, p.msec, b);
    NumberIsRead(5, |p.data|, c);
    DecimalOfNat(p.number);
    DecimalOfNat(|p.data|);
    assert Header(p) + t == Padded(6, Decimal(p.number)) + a;
  }

  /** Where the fields of a header are. */
  lemma {:induction false} HeaderLayout(p: Packet)
    requires p.Fits()
    ensures |Header(p)| == 23
    ensures Header(p)[..6] == Padded(6, Digits(p.number)) && Header(p)[6] == 32
    ensures Header(p)[7..16] == Padded(9, Decimal(p.msec)) && Header(p)[16] == 32
    ensures Header(p)[17..22] == Padded(5, Digits(|p.data|)) && Header(p)[22] == 32
  {
    hide Digits, Decimal, Padded;
    HeaderLength(p);
    FieldWidths(p);
  }

  lemma {:induction false} FieldWidths(p: Packet)
    requires p.Fits()
    ensures |Padded(6, Digits(p.number))| == 6 && |Padded(9, Decimal(p.msec))| == 9 && |Padded(5, Digits(|p.data|))| == 5
  {
    hide Digits;
    assert Power10(6) == 1000000 && Power10(9) == 1000000000 && Power10(5) == 100000 && Power10(8) == 100000000;
    DigitsFit(p.number, 6, 1000000);
    DigitsFit(|p.data|, 5, 100000);
    if p.msec < 0 {
      DigitsFit(-p.msec, 8, 100000000);
    } else {
      DigitsFit(p.msec, 9, 1000000000);
    }
  }

  /** The value of decimal digits, most significant first. */
  ghost function DecimalValue(s: seq<byte>): int {
    if s == [] then 0 else 10 * DecimalValue(s[..|s| - 1]) + (s[|s| - 1] as int - 48)
  }

  /** The digits of a number are digits, have it as their value, and none leads in vain. */
  lemma {:induction false} DigitsValue(n: nat)
    ensures DecimalValue(Digits(n)) == n
    ensures forall i :: 0 <= i < |Digits(n)| ==> IsDigit(Digits(n)[i])
    ensures n > 0 ==> Digits(n)[0] != 48
  {
    var s := Digits(n);
    if n < 10 {
      assert s[..0] == [];
    } else {
      DigitsValue(n / 10);
      assert s[..|s| - 1] == Digits(n / 10);
    }
  }

  /** The value of hexadecimal digits, most significant first. */
  ghost function HexadecimalValue(s: seq<byte>): int {
    if s == [] then 0 else 16 * HexadecimalValue(s[..|s| - 1]) + (s[|s| - 1] as int - if s[|s| - 1] < 58 then 48 else 87)
  }

  lemma {:induction false} HexDigitValue(d: nat)
    requires d < 16
    ensures HexDigit(d) as int - (if HexDigit(d) < 58 then 48 else 87) == d
  {
  }

  lemma {:induction false} HexValueOf(k: nat, n: nat)
    requires n < Power16(k)
    ensures HexadecimalValue(Hex(k, n)) == n
  {
    hide HexDigit;
    if k > 0 {
      HexValueOf(k - 1, n / 16);
      HexDigitValue(n % 16);
      var s := Hex(k, n);
      assert s[..k - 1] == Hex(k - 1, n / 16);
    }
  }

  lemma {:induction false} DecimalOfNat(n: nat)
    ensures Decimal(n) == Digits(n)
  {
  }

  lemma {:induction false} HexDigitIsRead(d: nat)
    requires d < 16
    ensures HexValue(HexDigit(d)) == Some(d)
    ensures !IsBlank(HexDigit(d)) && HexDigit(d) != MINUS && HexDigit(d) != PLUS
    ensures HexDigit(d) != 120 && HexDigit(d) != 88
  {
  }

  ghost function Power16(k: nat): nat {
    if k == 0 then 1 else 16 * Power16(k - 1)
  }

  lemma {:induction false} HexIsTaken(k: nat, n: nat, t: seq<byte>)
    requires n < Power16(k)
    ensures TakeHex(0, Hex(k, n) + t) == TakeHex(n, t)
  {
    hide HexDigit, HexValue;
    if k == 0 {
      assert Hex(k, n) + t == t;
    } else {
      var d := [HexDigit(n % 16)];
      assert Hex(k, n) + t == Hex(k - 1, n / 16) + (d + t);
      HexIsTaken(k - 1, n / 16, d + t);
      HexDigitIsRead(n % 16);
      assert (d + t)[0] == HexDigit(n % 16) && (d + t)[1..] == t;
    }
  }

  lemma {:induction false} HexIsDigits(k: nat, n: nat, i: nat)
    requires i < k
    ensures exists d :: 0 <= d < 16 && Hex(k, n)[i] == HexDigit(d)
  {
    hide HexDigit;
    if i == k - 1 {
      assert Hex(k, n)[i] == HexDigit(n % 16);
    } else {
      HexIsDigits(k - 1, n / 16, i);
      assert Hex(k, n)[i] == Hex(k - 1, n / 16)[i];
    }
  }

  /** Whatever follows it, a printed checksum is read back. */
  lemma {:induction false} CheckIsRead(n: nat, t: seq<byte>)
    requires n < TWO32
    ensures ScanHex(Hex(8, n) + t) == Some(n)
  {
    hide Hex, HexDigit, HexValue, TakeHex;
    var h := Hex(8, n);
    HexIsDigits(8, n, 0);
    HexIsDigits(8, n, 1);
    var d :| 0 <= d < 16 && h[0] == HexDigit(d);
    var e :| 0 <= e < 16 && h[1] == HexDigit(e);
    HexDigitIsRead(d);
    HexDigitIsRead(e);
    assert (h + t)[0] == h[0] && (h + t)[..8] == h;
    assert Power16(8) == TWO32;
    HexIsTaken(8, n, []);
    assert h + [] == h;
    NoMoreHex(n);
  }

  lemma {:induction false} NoMoreHex(n: nat)
    ensures TakeHex(n, []) == n
  {
  }
}
