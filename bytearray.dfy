/**
 * The fixed-capacity byte buffer (class ByteArray). Its storage is allocated
 * once and never grows; `count` says how many leading bytes are in use.
 *
 * `Buf` is the value view of a buffer: every byte of the storage together with
 * the used count. The functions on `Buf` say what each operation does; the
 * class methods are proved to change the object exactly as those functions say.
 */
module ByteArrays {

  /** Largest value of the source's uint16_t sizes, counts and indices. */
  const MaxU16: nat := 0xFFFF

  /** A buffer's whole storage (`bytes`, of length = capacity) and its used length. */
  datatype Buf = Buf(bytes: seq<bv8>, count: nat)

  /** The object invariant: the used length never exceeds the capacity, which is a uint16_t. */
  predicate BufValid(b: Buf) {
    b.count <= |b.bytes| <= MaxU16
  }

  /** The bytes in use. */
  function BufContents(b: Buf): seq<bv8>
    requires BufValid(b)
  {
    b.bytes[..b.count]
  }

  /** append(byte): store at the used length and bump it when there is room; when full, change nothing. */
  function Appended(b: Buf, x: bv8): (r: Buf)
    requires BufValid(b)
    ensures BufValid(r) && |r.bytes| == |b.bytes|
    ensures b.count < |b.bytes| ==> BufContents(r) == BufContents(b) + [x]
    ensures b.count == |b.bytes| ==> r == b
    ensures forall i :: 0 <= i < |b.bytes| && i != b.count ==> r.bytes[i] == b.bytes[i]
  {
    if b.count < |b.bytes| then Buf(b.bytes[b.count := x], b.count + 1) else b
  }

  /** What append returns: the new used length, or 0 when the buffer was already full. */
  function AppendResult(b: Buf): nat {
    if b.count < |b.bytes| then b.count + 1 else 0
  }

  /** clear(): the used length drops to 0; capacity and stored bytes stay. */
  function Cleared(b: Buf): (r: Buf)
    ensures r.bytes == b.bytes && r.count == 0
  {
    Buf(b.bytes, 0)
  }

  /** update_count(n): the used length becomes n, clamped to the capacity. */
  function WithCount(b: Buf, n: nat): (r: Buf)
    ensures r.bytes == b.bytes
    ensures r.count <= |b.bytes|
    ensures r.count == n || (n > |b.bytes| && r.count == |b.bytes|)
  {
    Buf(b.bytes, if n > |b.bytes| then |b.bytes| else n)
  }

  /** at(i): bounds-checked against the capacity, not the used length. */
  function ByteAt(b: Buf, i: nat): (r: bv8)
    requires BufValid(b)
    ensures i < b.count ==> r == BufContents(b)[i]
    ensures b.count <= i < |b.bytes| ==> r == b.bytes[i]
    ensures i >= |b.bytes| ==> r == 0
  {
    if i < |b.bytes| then b.bytes[i] else 0
  }

  /** `s` appended byte by byte, the last byte last. */
  function AppendedAll(b: Buf, s: seq<bv8>): (r: Buf)
    requires BufValid(b)
    ensures BufValid(r) && |r.bytes| == |b.bytes|
    ensures r.count == if b.count + |s| <= |b.bytes| then b.count + |s| else |b.bytes|
    ensures forall i :: 0 <= i < b.count ==> r.bytes[i] == b.bytes[i]
    decreases |s|
  {
    if s == [] then b else Appended(AppendedAll(b, s[..|s| - 1]), s[|s| - 1])
  }

  /** `c + p` cut at capacity `cap`: what a buffer of that capacity holding `c` ends up holding after appending `p`. */
  function Fill(c: seq<bv8>, p: seq<bv8>, cap: nat): (r: seq<bv8>)
    requires |c| <= cap
    ensures |r| <= cap && r <= c + p
    ensures |c + p| <= cap ==> r == c + p
  {
    if |c| + |p| <= cap then c + p else (c + p)[..cap]
  }

  /** Appending one byte is filling with it. */
  lemma AppendedIsFill(b: Buf, x: bv8)
    requires BufValid(b)
    ensures BufContents(Appended(b, x)) == Fill(BufContents(b), [x], |b.bytes|)
  {
  }

  /** Filling twice in a row is filling once with both pieces. */
  lemma FillTwice(c: seq<bv8>, p: seq<bv8>, q: seq<bv8>, cap: nat)
    requires |c| <= cap
    ensures Fill(Fill(c, p, cap), q, cap) == Fill(c, p + q, cap)
  {
    assert c + (p + q) == (c + p) + q;
    if |c| + |p| > cap {
      assert (c + p)[..cap] + q == (c + p + q)[..cap] + q;
      assert ((c + p)[..cap] + q)[..cap] == (c + (p + q))[..cap];
    }
  }

  /**
   * Saturation: appending the bytes of `s` one at a time keeps exactly as many of
   * them as fit, in order, and never lets the used length pass the capacity.
   */
  lemma {:induction false} AppendedAllIsFill(b: Buf, s: seq<bv8>)
    requires BufValid(b)
    ensures BufContents(AppendedAll(b, s)) == Fill(BufContents(b), s, |b.bytes|)
    decreases |s|
  {
    if s != [] {
      var init, last := s[..|s| - 1], s[|s| - 1];
      assert s == init + [last];
      AppendedAllIsFill(b, init);
      AppendedIsFill(AppendedAll(b, init), last);
      FillTwice(BufContents(b), init, [last], |b.bytes|);
    }
  }

  /** From an empty buffer: the first `cap` appends are kept, the rest are no-ops. */
  lemma AppendedAllFromEmpty(b: Buf, s: seq<bv8>)
    requires BufValid(b) && b.count == 0
    ensures AppendedAll(b, s).count == if |s| <= |b.bytes| then |s| else |b.bytes|
    ensures BufContents(AppendedAll(b, s)) == if |s| <= |b.bytes| then s else s[..|b.bytes|]
  {
    AppendedAllIsFill(b, s);
    assert BufContents(b) == [];
    assert BufContents(b) + s == s;
  }

  /** Hex digit value as the evidently intended decoder reads it; any other character counts 0. */
  function HexNibble(c: bv8): bv8 {
    if '0' as bv8 <= c <= '9' as bv8 then c - '0' as bv8
    else if 'a' as bv8 <= c <= 'f' as bv8 then c - 'a' as bv8 + 10
    else if 'A' as bv8 <= c <= 'F' as bv8 then c - 'A' as bv8 + 10
    else 0
  }

  /**
   * The nibble rule of ByteArray.cpp as written: upper-case digits use the 'a'
   * offset, and the uint8_t sum wraps.
   */
  function HexNibbleAsWritten(c: bv8): bv8 {
    if '0' as bv8 <= c <= '9' as bv8 then c - '0' as bv8
    else if 'a' as bv8 <= c <= 'f' as bv8 then c - 'a' as bv8 + 10
    else if 'A' as bv8 <= c <= 'F' as bv8 then c - 'a' as bv8 + 10
    else 0
  }

  /**
   * The two nibble rules part on every upper-case digit: the rule as written
   * yields c + 0xA9 (so 'A' gives 0xEA), never the digit's value c - 0x37.
   */
  lemma UpperCaseNibbleAsWritten(c: bv8)
    requires 'A' as bv8 <= c <= 'F' as bv8
    ensures HexNibbleAsWritten(c) == c + 0xA9
    ensures HexNibble(c) == c - 0x37
    ensures HexNibbleAsWritten(c) != HexNibble(c)
  {
  }

  /** The digit values: '0'-'9' count 0-9, and 'a'-'f' and 'A'-'F' alike count 10-15. */
  lemma HexNibbleValues(c: bv8)
    ensures HexNibble(c) < 16
    ensures '0' as bv8 <= c <= '9' as bv8 ==> HexNibble(c) == c - '0' as bv8
    ensures 'a' as bv8 <= c <= 'f' as bv8 ==> HexNibble(c) == c - 'a' as bv8 + 10
    ensures 'A' as bv8 <= c <= 'F' as bv8 ==> HexNibble(c) == c - 'A' as bv8 + 10
  {
    if '0' as bv8 <= c <= '9' as bv8 {
    } else if 'a' as bv8 <= c <= 'f' as bv8 {
    } else if 'A' as bv8 <= c <= 'F' as bv8 {
    }
  }

  /** One output byte: the first digit is the high nibble. */
  function HexPair(hi: bv8, lo: bv8): bv8 {
    (HexNibble(hi) << 4) | HexNibble(lo)
  }

  /** A digit pair keeps both digit values, the first in the high nibble. */
  lemma HexPairNibbles(hi: bv8, lo: bv8)
    ensures HexPair(hi, lo) >> 4 == HexNibble(hi)
    ensures HexPair(hi, lo) & 0xF == HexNibble(lo)
  {
    HexNibbleValues(hi);
    HexNibbleValues(lo);
  }

  /** The character at `i` of a hex text; past its end a '0', so a missing last digit counts 0. */
  function HexCharAt(h: seq<bv8>, i: int): bv8 {
    if 0 <= i < |h| then h[i] else '0' as bv8
  }

  /** Number of output bytes for `n` hex characters: (n >> 1) + (n & 1). */
  function HexDecodedLength(n: nat): (r: nat)
    ensures 2 * r == n || 2 * r == n + 1
  {
    n / 2 + n % 2
  }

  /** Evidently intended decoding: byte i is the digit pair at 2i, 2i+1. */
  function HexDecoded(h: seq<bv8>): (r: seq<bv8>)
    ensures |r| == HexDecodedLength(|h|)
  {
    seq(HexDecodedLength(|h|), i => HexPair(HexCharAt(h, 2 * i), HexCharAt(h, 2 * i + 1)))
  }

  /**
   * Byte i of the decoding holds digit 2i in its high nibble and digit 2i+1 in
   * its low nibble; a missing last digit of an odd-length text counts 0.
   */
  lemma HexDecodedDigits(h: seq<bv8>, i: nat)
    requires i < |HexDecoded(h)|
    ensures HexDecoded(h)[i] >> 4 == HexNibble(h[2 * i])
    ensures 2 * i + 1 < |h| ==> HexDecoded(h)[i] & 0xF == HexNibble(h[2 * i + 1])
    ensures 2 * i + 1 == |h| ==> HexDecoded(h)[i] & 0xF == 0
  {
    HexPairNibbles(HexCharAt(h, 2 * i), HexCharAt(h, 2 * i + 1));
  }

  class ByteArray {
    /** _data: the storage, allocated once (a `uint8_t* const`); its length is _size. */
    const data: array<bv8>
    /** _count: bytes in use. */
    var count: nat

    ghost predicate Valid()
      reads this
    {
      count <= data.Length <= MaxU16
    }

    /** size(), the capacity. */
    function Size(): nat
      reads this
    {
      data.Length
    }

    /** The value view of this buffer. */
    function Model(): Buf
      reads this, data
    {
      Buf(data[..], count)
    }

    /** The bytes in use, data()[0 .. count()). */
    function Contents(): (s: seq<bv8>)
      reads this, data
      requires Valid()
      ensures s == BufContents(Model())
    {
      data[..count]
    }

    /** ByteArray(void): no storage at all. */
    constructor Empty()
      ensures Valid() && fresh(data)
      ensures Model() == Buf([], 0)
    {
      data := new bv8[0];
      count := 0;
    }

    /** ByteArray(buffersize): capacity `bufferSize`, nothing in use (storage content unspecified). */
    constructor (bufferSize: nat)
      requires bufferSize <= MaxU16
      ensures Valid() && fresh(data)
      ensures Size() == bufferSize && count == 0
    {
      data := new bv8[bufferSize];
      count := 0;
    }

    /** ByteArray(size, dataptr): adopts `storage`, all of it counted as in use. */
    constructor Adopt(storage: array<bv8>)
      requires storage.Length <= MaxU16
      ensures Valid() && data == storage
      ensures count == Size() && Contents() == storage[..]
    {
      data := storage;
      count := storage.Length;
    }

    /**
     * ByteArray(size, filled, dataptr): adopts `storage` with `filled` bytes in use.
     * The source does not check `filled` against the size; the model demands it.
     */
    constructor AdoptFilled(storage: array<bv8>, filled: nat)
      requires filled <= storage.Length <= MaxU16
      ensures Valid() && data == storage
      ensures count == filled && Contents() == storage[..filled]
    {
      data := storage;
      count := filled;
    }

    /** ByteArray(repeats, c): capacity and used length `repeats`, every byte `c`. */
    constructor Repeat(repeats: nat, c: bv8)
      requires repeats <= MaxU16
      ensures Valid() && fresh(data)
      ensures Size() == repeats && count == repeats
      ensures forall i :: 0 <= i < repeats ==> Contents()[i] == c
    {
      data := new bv8[repeats](_ => c);
      count := repeats;
    }

    /** clear(): forgets the contents without touching the storage. */
    method Clear()
      requires Valid()
      modifies this
      ensures Valid() && Model() == Cleared(old(Model()))
    {
      count := 0;
    }

    /** update_count(n): takes the used length from outside, clamped to the capacity. */
    method UpdateCount(newCount: nat) returns (r: nat)
      requires Valid() && newCount <= MaxU16
      modifies this
      ensures Valid() && Model() == WithCount(old(Model()), newCount)
      ensures r == count
    {
      count := if newCount > data.Length then data.Length else newCount;
      r := count;
    }

    /** at(i): the stored byte at `i` when `i` is below the capacity, else 0. */
    method At(index: nat) returns (r: bv8)
      requires Valid()
      ensures r == ByteAt(Model(), index)
    {
      if index < data.Length {
        r := data[index];
      } else {
        r := 0;
      }
    }

    /** append(byte): adds `x` when there is room; returns the new count, or 0 when full. */
    method Append(x: bv8) returns (r: nat)
      requires Valid()
      modifies this, data
      ensures Valid() && Model() == Appended(old(Model()), x)
      ensures r == AppendResult(old(Model()))
    {
      if count < data.Length {
        data[count] := x;
        count := count + 1;
        r := count;
      } else {
        r := 0;
      }
    }

    /**
     * fromHex(hexEncoded) as written: the result has capacity (n >> 1) + (n & 1)
     * for n hex characters, but the decoding loop is bounded by the result's own
     * count, which a fresh ByteArray(n) sets to 0, so no byte is ever decoded.
     */
    method FromHex(hexEncoded: ByteArray) returns (r: ByteArray)
      requires hexEncoded.Valid()
      ensures fresh(r) && fresh(r.data) && r.Valid()
      ensures r.Size() == HexDecodedLength(hexEncoded.count)
      ensures r.Contents() == []
    {
      r := new ByteArray(hexEncoded.count / 2 + hexEncoded.count % 2);
    }
  }

  /** Appending the next byte of `d` to a buffer holding its first i bytes. */
  method AppendOne(r: ByteArray, b: bv8, ghost d: seq<bv8>, ghost i: nat)
    requires r.Valid() && r.count < r.data.Length && i < |d| && d[i] == b && r.Contents() == d[..i]
    modifies r, r.data
    ensures r.Valid() && r.count == old(r.count) + 1 && r.Contents() == d[..i + 1]
  {
    var _ := r.Append(b);
    assert d[..i + 1] == d[..i] + [b];
  }

  /**
   * fromHex as evidently intended: one output byte per pair of hex characters of
   * the input's used bytes, upper- and lower-case digits alike.
   */
  method FromHexIntended(hexEncoded: ByteArray) returns (r: ByteArray)
    requires hexEncoded.Valid()
    ensures fresh(r) && fresh(r.data) && r.Valid()
    ensures r.Contents() == HexDecoded(hexEncoded.Contents())
    ensures r.Size() == HexDecodedLength(hexEncoded.count) && r.count == r.Size()
  {
    ghost var h := hexEncoded.Contents();
    r := new ByteArray(hexEncoded.count / 2 + hexEncoded.count % 2);
    var i := 0;
    while i < r.Size()
      invariant r.Valid() && fresh(r.data) && r.Size() == HexDecodedLength(|h|)
      invariant i <= r.Size() && r.count == i
      invariant r.Contents() == HexDecoded(h)[..i]
    {
      var hi := '0' as bv8;
      if 2 * i < hexEncoded.count {
        hi := hexEncoded.data[2 * i];
      }
      var lo := '0' as bv8;
      if 2 * i + 1 < hexEncoded.count {
        lo := hexEncoded.data[2 * i + 1];
      }
      var b := HexPair(hi, lo);
      assert b == HexDecoded(h)[i];
      AppendOne(r, b, HexDecoded(h), i);
      i := i + 1;
    }
    assert HexDecoded(h)[..i] == HexDecoded(h);
  }
}
