/**
 * The CRC-16 of the host controller interface: the reflected CCITT polynomial
 * 0x8408, initial value 0xFFFF, one's-complement output (the X.25 / HDLC frame
 * check sequence of RFC 1662, Appendix C.2). Only the class declaration exists,
 * so `Calc` is the table-driven byte fold the class declares, over a table
 * generated from the polynomial, and it is proved equal to the bit-serial fold
 * RFC 1662 C.2 describes.
 */
module Crc16 {
  import opened ByteArrays

  /** Init_Value: the CRC register before the first byte. */
  const InitValue: bv16 := 0xFFFF
  /** Good_Value: what Check_X25 compares against. */
  const GoodValue: bv16 := 0x0F47
  /** Polynom: the bit-reversed CCITT generator x^16 + x^12 + x^5 + 1. */
  const Polynom: bv16 := 0x8408
  /** RFC 1662 C.2's "good final FCS" of the raw register, 0xF0B8, the complement of Good_Value. */
  const Residue: bv16 := 0xF0B8

  /** One reflected shift step: shift right, xor the polynomial when a 1 falls out. */
  function Shift(v: bv16): bv16 {
    if v & 1 == 1 then (v >> 1) ^ Polynom else v >> 1
  }

  /** Eight shift steps. */
  function Shift8(v: bv16): bv16 {
    Shift(Shift(Shift(Shift(Shift(Shift(Shift(Shift(v))))))))
  }

  /** The byte update of RFC 1662 C.2: xor the byte into the low end, then eight reflected shift steps. */
  function Update(crc: bv16, b: bv8): bv16 {
    Shift8(crc ^ (b as bv16))
  }

  /** _Table[i]: generated from the polynomial by eight shift steps of i. */
  function TableEntry(i: bv8): bv16 {
    Shift8(i as bv16)
  }

  /**
   * The table-driven byte step of the class:
   * `_CRC = (_CRC >> 8) ^ _Table[(_CRC ^ byte) & 0xFF]`.
   */
  function TableUpdate(crc: bv16, b: bv8): bv16 {
    (crc >> 8) ^ TableEntry(((crc ^ (b as bv16)) & 0xFF) as bv8)
  }

  /** The lookup-table step and the bit-serial step agree on every register and byte. */
  lemma TableStep(crc: bv16, b: bv8)
    ensures TableUpdate(crc, b) == Update(crc, b)
  {
  }

  /** The CRC register after feeding `d`, first byte first, from `crc`: the bit-serial reference. */
  function CalcFrom(crc: bv16, d: seq<bv8>): bv16
    decreases |d|
  {
    if d == [] then crc else CalcFrom(Update(crc, d[0]), d[1..])
  }

  /** The same fold through the lookup table, the way the class computes it. */
  function TableFrom(crc: bv16, d: seq<bv8>): bv16
    decreases |d|
  {
    if d == [] then crc else TableFrom(TableUpdate(crc, d[0]), d[1..])
  }

  /** The table-driven CRC equals the bit-serial CRC of RFC 1662 C.2 on every input. */
  lemma {:induction false} TableFromAgrees(crc: bv16, d: seq<bv8>)
    ensures TableFrom(crc, d) == CalcFrom(crc, d)
    decreases |d|
  {
    if d != [] {
      TableStep(crc, d[0]);
      TableFromAgrees(Update(crc, d[0]), d[1..]);
    }
  }

  /** Calc(data) of a CRC16 constructed with `initValue`: the table-driven fold, equal to the bit-serial one. */
  function Calc(initValue: bv16, d: seq<bv8>): (r: bv16)
    ensures r == CalcFrom(initValue, d)
    ensures d == [] ==> r == initValue
  {
    TableFromAgrees(initValue, d);
    TableFrom(initValue, d)
  }

  /**
   * Calc_X25(data) of a default CRC16: the one's complement of Calc from
   * Init_Value. Appended least significant byte first, it brings the raw
   * register to 0xF0B8.
   */
  function CalcX25(d: seq<bv8>): (r: bv16)
    ensures r == !Calc(InitValue, d)
    ensures Calc(InitValue, d + [(r & 0xFF) as bv8, (r >> 8) as bv8]) == Residue
  {
    TrailerResidue(d);
    !Calc(InitValue, d)
  }

  /** The register over data followed by the complement of its own register, low byte first, is the residue. */
  lemma TrailerResidue(d: seq<bv8>)
    ensures Calc(InitValue, d + [((!Calc(InitValue, d)) & 0xFF) as bv8, ((!Calc(InitValue, d)) >> 8) as bv8]) == Residue
  {
    var c := Calc(InitValue, d);
    var t := [((!c) & 0xFF) as bv8, ((!c) >> 8) as bv8];
    CalcFromAppend(InitValue, d, t);
    CalcFromPair(c, t[0], t[1]);
    assert t == [t[0], t[1]];
    ComplementResidue(c);
  }

  /** Check_X25(data): the complemented register over data and its trailing CRC is Good_Value, that is the raw register is 0xF0B8. */
  function CheckX25(d: seq<bv8>): (ok: bool)
    ensures ok <==> Calc(InitValue, d) == Residue
  {
    CalcX25(d) == GoodValue
  }

  /** The two bytes a sender appends, least significant first: reassembled they are Calc_X25. */
  function CrcBytes(d: seq<bv8>): (r: seq<bv8>)
    ensures |r| == 2
    ensures ((r[1] as bv16) << 8) | (r[0] as bv16) == CalcX25(d)
  {
    [(CalcX25(d) & 0xFF) as bv8, (CalcX25(d) >> 8) as bv8]
  }

  /** Feeding two pieces one after the other is feeding their concatenation. */
  lemma {:induction false} CalcFromAppend(crc: bv16, a: seq<bv8>, b: seq<bv8>)
    ensures CalcFrom(crc, a + b) == CalcFrom(CalcFrom(crc, a), b)
    decreases |a|
  {
    if a == [] {
      assert a + b == b;
    } else {
      assert (a + b)[1..] == a[1..] + b;
      CalcFromAppend(Update(crc, a[0]), a[1..], b);
    }
  }

  /** Feeding two bytes is two updates. */
  lemma CalcFromPair(crc: bv16, x: bv8, y: bv8)
    ensures CalcFrom(crc, [x, y]) == Update(Update(crc, x), y)
  {
    assert [x, y][1..] == [y];
    assert CalcFrom(crc, [x, y]) == CalcFrom(Update(crc, x), [y]);
    assert [y][1..] == [];
    assert CalcFrom(Update(crc, x), [y]) == CalcFrom(Update(Update(crc, x), y), []);
  }

  /** Feeding the complement of a register, low byte first, leaves RFC 1662's residue 0xF0B8. */
  lemma ComplementResidue(crc: bv16)
    ensures Update(Update(crc, ((!crc) & 0xFF) as bv8), ((!crc) >> 8) as bv8) == Residue
  {
  }

  /**
   * A message followed by its Calc_X25, least significant byte first, passes
   * Check_X25: the raw register ends at 0xF0B8, whose complement is Good_Value.
   */
  lemma AppendedCrcChecks(d: seq<bv8>)
    ensures Calc(InitValue, d + CrcBytes(d)) == Residue
    ensures CheckX25(d + CrcBytes(d))
  {
    var x := CalcX25(d);
    assert CrcBytes(d) == [(x & 0xFF) as bv8, (x >> 8) as bv8];
  }

  /** Calc over a ByteArray's used bytes, the way the class accumulates `_CRC` through the table byte by byte. */
  method CalcBuffer(initValue: bv16, data: ByteArray) returns (crc: bv16)
    requires data.Valid()
    ensures crc == Calc(initValue, data.Contents())
    ensures data.Contents() == [] ==> crc == initValue
  {
    ghost var d := data.Contents();
    crc := initValue;
    var i := 0;
    while i < data.count
      invariant i <= data.count
      invariant crc == CalcFrom(initValue, d[..i])
    {
      CalcFromAppend(initValue, d[..i], [d[i]]);
      assert d[..i + 1] == d[..i] + [d[i]];
      TableStep(crc, data.data[i]);
      crc := TableUpdate(crc, data.data[i]);
      i := i + 1;
    }
    assert d[..i] == d;
  }

  /** Check_X25(data): reads the buffer, changes nothing. */
  method CheckBuffer(data: ByteArray) returns (ok: bool)
    requires data.Valid()
    ensures ok <==> CheckX25(data.Contents())
  {
    var crc := CalcBuffer(InitValue, data);
    ok := !crc == GoodValue;
  }
}
