/**
 * The two pointer-walking helpers of Dictionary.cpp, as functions of the
 * dictionary's storage `buf` (every byte of the buffer's capacity) and
 * positions in it, together with the record layout the dictionary keeps in
 * that storage: `key 0x00 value 0x00` for each record, one after the other.
 *
 * A read past the capacity would be undefined behaviour in the source; every
 * scan here stops at the capacity.
 */
module DictionaryScan {

  /** How many zero bytes `s` holds. */
  function ZeroCount(s: seq<bv8>): nat
    decreases |s|
  {
    if s == [] then 0 else (if s[0] == 0 then 1 else 0) + ZeroCount(s[1..])
  }

  /**
   * The loop of skipNzeros from position `i` with `n` zeros still to pass:
   * stops once `n` reaches 0 or at the scan limit `d`.
   */
  function SkipLoop(buf: seq<bv8>, d: nat, i: nat, n: nat): (r: nat)
    requires i <= d <= |buf|
    ensures i <= r <= d
    decreases d - i
  {
    if n == 0 || i == d then i else SkipLoop(buf, d, i + 1, if buf[i] == 0 then n - 1 else n)
  }

  /** skipNzeros(ptr, n, dicsize) as written: the loop, then the final `++i`. */
  function SkipNZeros(buf: seq<bv8>, n: nat, dicsize: nat): (r: nat)
    requires dicsize <= |buf|
    ensures 1 <= r <= dicsize + 1
  {
    SkipLoop(buf, dicsize, 0, n) + 1
  }

  /**
   * The position the commented-out loop and key()'s description intend: just
   * past the n-th zero byte (0 for n = 0).
   */
  function SkipNZerosIntended(buf: seq<bv8>, n: nat, dicsize: nat): (r: nat)
    requires dicsize <= |buf|
    ensures r <= dicsize
    ensures n == 0 ==> r == 0
    ensures 0 < n <= ZeroCount(buf[..dicsize]) ==> 0 < r && buf[r - 1] == 0 && ZeroCount(buf[..r - 1]) == n - 1
    ensures ZeroCount(buf[..dicsize]) < n ==> r == dicsize
  {
    SkipLoopSpec(buf, dicsize, 0, n);
    assert buf[0..dicsize] == buf[..dicsize];
    var r := SkipLoop(buf, dicsize, 0, n);
    assert 0 < r ==> buf[0..r - 1] == buf[..r - 1];
    r
  }

  /** Zeros of a concatenation. */
  lemma {:induction false} ZeroCountAppend(a: seq<bv8>, b: seq<bv8>)
    ensures ZeroCount(a + b) == ZeroCount(a) + ZeroCount(b)
    decreases |a|
  {
    if a == [] {
      assert a + b == b;
    } else {
      assert (a + b)[1..] == a[1..] + b;
      ZeroCountAppend(a[1..], b);
    }
  }

  /** No zeros, no count. */
  lemma {:induction false} ZeroCountNone(s: seq<bv8>)
    requires 0 !in s
    ensures ZeroCount(s) == 0
    decreases |s|
  {
    if s != [] {
      assert s[0] != 0;
      assert 0 !in s[1..] by {
        forall j | 0 <= j < |s[1..]| ensures s[1..][j] != 0 {
          assert s[1..][j] == s[j + 1];
        }
      }
      ZeroCountNone(s[1..]);
    }
  }

  /**
   * What the skip loop computes from `i`: with n = 0 it stays; when the range
   * [i, d) holds at least n zeros it stops just past the n-th of them; with
   * fewer it runs to d.
   */
  lemma {:induction false} SkipLoopSpec(buf: seq<bv8>, d: nat, i: nat, n: nat)
    requires i <= d <= |buf|
    ensures n == 0 ==> SkipLoop(buf, d, i, n) == i
    ensures 0 < n <= ZeroCount(buf[i..d]) ==>
              i < SkipLoop(buf, d, i, n) && buf[SkipLoop(buf, d, i, n) - 1] == 0 &&
              ZeroCount(buf[i..SkipLoop(buf, d, i, n) - 1]) == n - 1
    ensures ZeroCount(buf[i..d]) < n ==> SkipLoop(buf, d, i, n) == d
    decreases d - i
  {
    if n > 0 && i < d {
      var n' := if buf[i] == 0 then n - 1 else n;
      SkipLoopSpec(buf, d, i + 1, n');
      assert buf[i..d][1..] == buf[i + 1..d];
      var r := SkipLoop(buf, d, i, n);
      assert r == SkipLoop(buf, d, i + 1, n');
      if 0 < n <= ZeroCount(buf[i..d]) && r - 1 > i {
        assert buf[i..r - 1][1..] == buf[i + 1..r - 1];
      }
    }
  }

  /** Two zero bytes with as many zeros before each are the same byte. */
  lemma ZeroPositionUnique(buf: seq<bv8>, a: nat, b: nat)
    requires a < |buf| && b < |buf| && buf[a] == 0 && buf[b] == 0
    requires ZeroCount(buf[..a]) == ZeroCount(buf[..b])
    ensures a == b
  {
    if a < b {
      assert buf[..b] == buf[..a] + buf[a..b];
      ZeroCountAppend(buf[..a], buf[a..b]);
    } else if b < a {
      assert buf[..a] == buf[..b] + buf[b..a];
      ZeroCountAppend(buf[..b], buf[b..a]);
    }
  }

  /**
   * skipNzeros from the start, read through the characterization: `z` is the
   * position just past the n-th zero of buf[0 .. d) (n > 0).
   */
  lemma SkipFindsZero(buf: seq<bv8>, d: nat, n: nat, z: nat)
    requires d <= |buf| && 0 < z <= d && buf[z - 1] == 0 && 0 < n
    requires ZeroCount(buf[..z - 1]) == n - 1
    ensures SkipNZerosIntended(buf, n, d) == z
    ensures SkipNZeros(buf, n, d) == z + 1
  {
    assert buf[..d] == buf[..z - 1] + buf[z - 1..d];
    ZeroCountAppend(buf[..z - 1], buf[z - 1..d]);
    assert buf[z - 1..d][1..] == buf[z..d];
    assert buf[0..d] == buf[..d];
    SkipLoopSpec(buf, d, 0, n);
    var r := SkipLoop(buf, d, 0, n);
    assert buf[0..r - 1] == buf[..r - 1];
    ZeroPositionUnique(buf, r - 1, z - 1);
  }

  /** The loop of scan0FromHere: from `i`, stop at the first zero, at `limit`, or at the capacity. */
  function ScanLoop(buf: seq<bv8>, i: nat, limit: nat): (r: nat)
    ensures i <= r
    ensures r <= limit || r == i
    ensures r <= |buf| || r == i
    ensures forall j :: i <= j < r ==> buf[j] != 0
    ensures r < limit && r < |buf| ==> buf[r] == 0
    decreases limit - i
  {
    if i >= limit || i >= |buf| || buf[i] == 0 then i else ScanLoop(buf, i + 1, limit)
  }

  /**
   * scan0FromHere(ptr, maxsize): the length of the zero-free run starting at
   * `p`, at most `maxsize`; short of `maxsize` (and of the capacity) a zero
   * ends it.
   */
  function Scan0FromHere(buf: seq<bv8>, p: nat, maxsize: nat): (r: nat)
    ensures r <= maxsize
    ensures p + r <= |buf| || r == 0
    ensures forall j :: p <= j < p + r ==> buf[j] != 0
    ensures r < maxsize && p + r < |buf| ==> buf[p + r] == 0
  {
    ScanLoop(buf, p, p + maxsize) - p
  }

  /** A zero-free run followed by a zero, scanned from its start with room to spare, has its own length. */
  lemma ScanCString(buf: seq<bv8>, p: nat, s: seq<bv8>, maxsize: nat)
    requires 0 !in s && p + |s| < |buf| && buf[p..p + |s|] == s && buf[p + |s|] == 0
    requires |s| < maxsize
    ensures Scan0FromHere(buf, p, maxsize) == |s|
  {
    ScanCStringLoop(buf, p, p, s, p + maxsize);
  }

  lemma {:induction false} ScanCStringLoop(buf: seq<bv8>, p: nat, i: nat, s: seq<bv8>, limit: nat)
    requires 0 !in s && p + |s| < |buf| && buf[p..p + |s|] == s && buf[p + |s|] == 0
    requires p <= i <= p + |s| < limit
    ensures ScanLoop(buf, i, limit) == p + |s|
    decreases p + |s| - i
  {
    if i < p + |s| {
      assert buf[i] == s[i - p];
      ScanCStringLoop(buf, p, i + 1, s, limit);
    }
  }

  // ---------------------------------------------------------------------
  // Record layout

  /** One key/value record; both are C strings, so neither holds a zero byte. */
  datatype Record = Record(key: seq<bv8>, value: seq<bv8>)

  predicate RecordValid(r: Record) {
    0 !in r.key && 0 !in r.value
  }

  predicate RecordsValid(recs: seq<Record>) {
    forall i :: 0 <= i < |recs| ==> RecordValid(recs[i])
  }

  /** The bytes append writes for one record: key, 0, value, 0. */
  function RecordBytes(r: Record): (b: seq<bv8>)
    ensures |b| == |r.key| + |r.value| + 2
  {
    r.key + [0] + r.value + [0]
  }

  /** The records one after the other, as the used part of the buffer holds them. */
  function Encode(recs: seq<Record>): (b: seq<bv8>)
    ensures |b| >= 2 * |recs|
    decreases |recs|
  {
    if recs == [] then [] else Encode(recs[..|recs| - 1]) + RecordBytes(recs[|recs| - 1])
  }

  /** Where record n begins. */
  function Start(recs: seq<Record>, n: nat): nat
    requires n <= |recs|
  {
    |Encode(recs[..n])|
  }

  /** Where record n's value begins: past its key and the key's zero. */
  function ValueStart(recs: seq<Record>, n: nat): nat
    requires n < |recs|
  {
    Start(recs, n) + |recs[n].key| + 1
  }

  /** A record's body (key, its zero, value) holds one zero; the record two. */
  lemma RecordZeros(r: Record)
    requires RecordValid(r)
    ensures RecordBytes(r) == (r.key + [0] + r.value) + [0]
    ensures ZeroCount(r.key + [0] + r.value) == 1
    ensures ZeroCount(RecordBytes(r)) == 2
  {
    ZeroCountNone(r.key);
    ZeroCountNone(r.value);
    assert ZeroCount([0]) == 1 by {
      assert [0 as bv8][1..] == [];
    }
    ZeroCountAppend(r.key + [0] + r.value, [0]);
    ZeroCountAppend(r.key + [0], r.value);
    ZeroCountAppend(r.key, [0]);
  }

  /** n records hold 2n zero bytes. */
  lemma {:induction false} EncodeZeros(recs: seq<Record>)
    requires RecordsValid(recs)
    ensures ZeroCount(Encode(recs)) == 2 * |recs|
    decreases |recs|
  {
    if recs != [] {
      var init := recs[..|recs| - 1];
      assert RecordsValid(init) by {
        forall i | 0 <= i < |init| ensures RecordValid(init[i]) {
          assert init[i] == recs[i];
        }
      }
      EncodeZeros(init);
      ZeroCountAppend(Encode(init), RecordBytes(recs[|recs| - 1]));
      RecordZeros(recs[|recs| - 1]);
    }
  }

  /** The encoding of a prefix is a prefix of the encoding. */
  lemma {:induction false} EncodePrefix(recs: seq<Record>, n: nat)
    requires n <= |recs|
    ensures Encode(recs[..n]) <= Encode(recs)
    decreases |recs|
  {
    if n < |recs| {
      var init := recs[..|recs| - 1];
      assert recs[..n] == init[..n];
      EncodePrefix(init, n);
    } else {
      assert recs[..n] == recs;
    }
  }

  /** Record n sits in the encoding right after the first n records. */
  lemma EncodeSplit(recs: seq<Record>, n: nat)
    requires n < |recs|
    ensures Encode(recs[..n + 1]) == Encode(recs[..n]) + RecordBytes(recs[n])
    ensures Start(recs, n + 1) == Start(recs, n) + |RecordBytes(recs[n])|
    ensures Start(recs, n + 1) <= |Encode(recs)|
    ensures Encode(recs)[Start(recs, n)..Start(recs, n + 1)] == RecordBytes(recs[n])
  {
    var pre := recs[..n + 1];
    assert pre[..|pre| - 1] == recs[..n];
    assert pre[|pre| - 1] == recs[n];
    assert Encode(pre) == Encode(recs[..n]) + RecordBytes(recs[n]);
    EncodePrefix(recs, n + 1);
    PrefixSlice(Encode(recs[..n]), RecordBytes(recs[n]), Encode(recs));
  }

  /** A piece of a prefix is the same piece of the whole. */
  lemma PrefixSlice(a: seq<bv8>, b: seq<bv8>, c: seq<bv8>)
    requires a + b <= c
    ensures c[|a|..|a| + |b|] == b
  {
    forall k | 0 <= k < |b| ensures c[|a|..|a| + |b|][k] == b[k] {
      assert c[|a| + k] == (a + b)[|a| + k];
    }
  }

  /** The prefix of valid records is valid. */
  lemma PrefixValid(recs: seq<Record>, n: nat)
    requires RecordsValid(recs) && n <= |recs|
    ensures RecordsValid(recs[..n])
  {
    forall i | 0 <= i < n ensures RecordValid(recs[..n][i]) {
      assert recs[..n][i] == recs[i];
    }
  }

  /** The first n records, read from the whole buffer. */
  lemma EncodedPrefixInBuffer(buf: seq<bv8>, count: nat, recs: seq<Record>, n: nat)
    requires count <= |buf| && buf[..count] == Encode(recs) && n <= |recs|
    ensures Start(recs, n) <= count
    ensures buf[..Start(recs, n)] == Encode(recs[..n])
  {
    EncodePrefix(recs, n);
    SlicePrefix(buf, count, Encode(recs[..n]));
  }

  /** A prefix of the used part is a prefix of the whole buffer. */
  lemma SlicePrefix(buf: seq<bv8>, count: nat, e: seq<bv8>)
    requires count <= |buf| && e <= buf[..count]
    ensures |e| <= count && buf[..|e|] == e
  {
    assert buf[..|e|] == buf[..count][..|e|];
  }

  /**
   * The encoding of the first n records (n > 0) ends in a zero, with 2n - 1
   * zeros before it.
   */
  lemma EncodeLastZero(recs: seq<Record>, n: nat)
    requires RecordsValid(recs) && 0 < n <= |recs|
    ensures Start(recs, n) > 0
    ensures Encode(recs[..n])[Start(recs, n) - 1] == 0
    ensures ZeroCount(Encode(recs[..n])[..Start(recs, n) - 1]) == 2 * n - 1
  {
    var m := n - 1;
    var r := recs[m];
    var e := Encode(recs[..m]);
    var body := r.key + [0] + r.value;
    EncodeSplit(recs, m);
    PrefixValid(recs, m);
    EncodeZeros(recs[..m]);
    RecordZeros(r);
    assert recs[..m + 1] == recs[..n];
    assert Encode(recs[..n]) == (e + body) + [0];
    assert Encode(recs[..n])[..Start(recs, n) - 1] == e + body;
    ZeroCountAppend(e, body);
  }

  /**
   * Within the encoding of the first n + 1 records, the byte before record n's
   * value is a zero with 2n zeros before it.
   */
  lemma ValueZero(recs: seq<Record>, n: nat)
    requires RecordsValid(recs) && n < |recs|
    ensures 0 < ValueStart(recs, n) <= Start(recs, n + 1)
    ensures Encode(recs[..n + 1])[ValueStart(recs, n) - 1] == 0
    ensures ZeroCount(Encode(recs[..n + 1])[..ValueStart(recs, n) - 1]) == 2 * n
  {
    var r := recs[n];
    var e := Encode(recs[..n]);
    EncodeSplit(recs, n);
    PrefixValid(recs, n);
    EncodeZeros(recs[..n]);
    ZeroCountNone(r.key);
    var v := ValueStart(recs, n);
    assert Encode(recs[..n + 1]) == (e + r.key) + ([0] + r.value + [0]);
    assert Encode(recs[..n + 1])[..v - 1] == e + r.key;
    ZeroCountAppend(e, r.key);
  }

  /** A shorter prefix of a known prefix, and a byte of it. */
  lemma PrefixTake(buf: seq<bv8>, e: seq<bv8>, j: nat)
    requires |e| <= |buf| && buf[..|e|] == e && j < |e|
    ensures buf[..j] == e[..j] && buf[j] == e[j]
  {
    assert buf[..j] == buf[..|e|][..j];
    assert buf[j] == buf[..|e|][j];
  }

  /**
   * In a buffer whose used part is the encoding of `recs`, the position just
   * past the 2n-th zero is where record n begins (n <= |recs|).
   */
  lemma KeyPosition(buf: seq<bv8>, count: nat, recs: seq<Record>, n: nat)
    requires count <= |buf| && buf[..count] == Encode(recs) && RecordsValid(recs)
    requires n <= |recs|
    ensures SkipNZerosIntended(buf, 2 * n, count) == Start(recs, n)
  {
    if n > 0 {
      EncodeLastZero(recs, n);
      EncodedPrefixInBuffer(buf, count, recs, n);
      ZeroInPrefix(buf, count, Encode(recs[..n]), Start(recs, n), 2 * n);
    }
  }

  /**
   * Within a prefix `e` of the buffer, a zero at z - 1 with k - 1 zeros
   * before it: skipping k zeros stops just past it, at z.
   */
  lemma ZeroInPrefix(buf: seq<bv8>, count: nat, e: seq<bv8>, z: nat, k: nat)
    requires |e| <= count <= |buf| && buf[..|e|] == e && 0 < z <= |e| && 0 < k
    requires e[z - 1] == 0 && ZeroCount(e[..z - 1]) == k - 1
    ensures SkipNZerosIntended(buf, k, count) == z
  {
    PrefixTake(buf, e, z - 1);
    SkipFindsZero(buf, count, k, z);
  }

  /** ... and the position just past the (2n+1)-th zero is where record n's value begins. */
  lemma ValuePosition(buf: seq<bv8>, count: nat, recs: seq<Record>, n: nat)
    requires count <= |buf| && buf[..count] == Encode(recs) && RecordsValid(recs)
    requires n < |recs|
    ensures SkipNZerosIntended(buf, 2 * n + 1, count) == ValueStart(recs, n)
  {
    ValueZero(recs, n);
    EncodedPrefixInBuffer(buf, count, recs, n + 1);
    ZeroInPrefix(buf, count, Encode(recs[..n + 1]), ValueStart(recs, n), 2 * n + 1);
  }

  /** Encoding is a homomorphism: the encoding of two runs of records is the concatenation of theirs. */
  lemma {:induction false} EncodeConcat(a: seq<Record>, c: seq<Record>)
    ensures Encode(a + c) == Encode(a) + Encode(c)
    decreases |c|
  {
    if c == [] {
      assert a + c == a;
    } else {
      var ac := a + c;
      assert ac[..|ac| - 1] == a + c[..|c| - 1];
      assert ac[|ac| - 1] == c[|c| - 1];
      assert Encode(ac) == Encode(a + c[..|c| - 1]) + RecordBytes(c[|c| - 1]);
      EncodeConcat(a, c[..|c| - 1]);
      assert Encode(c) == Encode(c[..|c| - 1]) + RecordBytes(c[|c| - 1]);
    }
  }

  /**
   * The records around record j: the whole encoding is the records before
   * it, its bytes, and the records after it; without it, the two runs touch.
   */
  lemma EncodeAround(recs: seq<Record>, j: nat)
    requires j < |recs|
    ensures Encode(recs) == Encode(recs[..j]) + RecordBytes(recs[j]) + Encode(recs[j + 1..])
    ensures Encode(recs[..j] + recs[j + 1..]) == Encode(recs[..j]) + Encode(recs[j + 1..])
  {
    assert recs == recs[..j + 1] + recs[j + 1..];
    EncodeConcat(recs[..j + 1], recs[j + 1..]);
    EncodeSplit(recs, j);
    EncodeConcat(recs[..j], recs[j + 1..]);
  }

  /** A nonempty encoding ends in the zero of its last record's value. */
  lemma EncodeEndsInZero(recs: seq<Record>)
    requires recs != []
    ensures Encode(recs)[|Encode(recs)| - 1] == 0
  {
  }

  /** Dropping record j keeps the rest valid. */
  lemma DropValid(recs: seq<Record>, j: nat)
    requires RecordsValid(recs) && j < |recs|
    ensures RecordsValid(recs[..j] + recs[j + 1..])
  {
    var rest := recs[..j] + recs[j + 1..];
    forall i | 0 <= i < |rest|
      ensures RecordValid(rest[i])
    {
      assert rest[i] == recs[if i < j then i else i + 1];
    }
  }
}
