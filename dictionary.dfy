/**
 * The Dictionary: key/value records packed into one ByteArray as
 * `key 0x00 value 0x00 key 0x00 value 0x00 ...`, plus the `_keys` counter.
 *
 * The index helpers and `contains` only read, so they are functions of the
 * buffer's value view `Buf` (every byte of the storage and the used count);
 * `append` and `remove` write into the owned ByteArray's storage with loops,
 * so they are methods of the class, proved to change it as the functions on
 * `Buf` say. Positions are offsets from the start of the storage, standing for
 * the source's pointers into it.
 */
module Dictionaries {
  import opened Options
  import opened ByteArrays
  import opened DictionaryScan
  import opened UInt16

  /** Dictionary(void) allocates this many bytes. */
  const DefaultSize: nat := 256

  // ---------------------------------------------------------------------
  // Index helpers, as written

  /** key(n): skipNzeros over 2n zeros (`n << 1`, passed as a uint16_t). */
  function KeyAt(b: Buf, n: nat): (r: nat)
    requires BufValid(b)
    ensures 1 <= r <= b.count + 1
  {
    SkipNZeros(b.bytes, Low16(2 * n), b.count)
  }

  /** data(n): `1 + n << 1` is `(1 + n) << 1`, so skipNzeros over 2n + 2 zeros. */
  function DataAt(b: Buf, n: nat): (r: nat)
    requires BufValid(b)
    ensures 1 <= r <= b.count + 1
  {
    SkipNZeros(b.bytes, Low16(2 * (1 + n)), b.count)
  }

  /**
   * The scan limit sizeof_key and sizeof_data pass: count minus the
   * position, as a uint16_t (a position past count wraps round).
   */
  function Remaining(b: Buf, p: nat): nat {
    Low16(b.count - p)
  }

  /** sizeof_key(n): the zero-free run at key(n), at most up to count. */
  function SizeofKey(b: Buf, n: nat): (r: nat)
    requires BufValid(b)
    ensures r <= Remaining(b, KeyAt(b, n))
    ensures KeyAt(b, n) + r <= |b.bytes| || r == 0
    ensures forall j :: KeyAt(b, n) <= j < KeyAt(b, n) + r ==> b.bytes[j] != 0
    ensures r < Remaining(b, KeyAt(b, n)) && KeyAt(b, n) + r < |b.bytes| ==> b.bytes[KeyAt(b, n) + r] == 0
  {
    Scan0FromHere(b.bytes, KeyAt(b, n), Remaining(b, KeyAt(b, n)))
  }

  /** sizeof_data(n): the zero-free run at data(n), at most up to count. */
  function SizeofData(b: Buf, n: nat): (r: nat)
    requires BufValid(b)
    ensures r <= Remaining(b, DataAt(b, n))
    ensures DataAt(b, n) + r <= |b.bytes| || r == 0
    ensures forall j :: DataAt(b, n) <= j < DataAt(b, n) + r ==> b.bytes[j] != 0
    ensures r < Remaining(b, DataAt(b, n)) && DataAt(b, n) + r < |b.bytes| ==> b.bytes[DataAt(b, n) + r] == 0
  {
    Scan0FromHere(b.bytes, DataAt(b, n), Remaining(b, DataAt(b, n)))
  }

  // ---------------------------------------------------------------------
  // Index helpers as key()'s description intends: skipping n zeros stops
  // just past the n-th, and data(n) skips 2n + 1 zeros.

  function KeyAtCorrected(b: Buf, n: nat): nat
    requires BufValid(b)
  {
    SkipNZerosIntended(b.bytes, Low16(2 * n), b.count)
  }

  function DataAtCorrected(b: Buf, n: nat): nat
    requires BufValid(b)
  {
    SkipNZerosIntended(b.bytes, Low16(2 * n + 1), b.count)
  }

  function SizeofKeyCorrected(b: Buf, n: nat): nat
    requires BufValid(b)
  {
    Scan0FromHere(b.bytes, KeyAtCorrected(b, n), Remaining(b, KeyAtCorrected(b, n)))
  }

  function SizeofDataCorrected(b: Buf, n: nat): nat
    requires BufValid(b)
  {
    Scan0FromHere(b.bytes, DataAtCorrected(b, n), Remaining(b, DataAtCorrected(b, n)))
  }

  // ---------------------------------------------------------------------
  // The layout

  /** The used part of `b` holds exactly the records `recs`. */
  predicate Layout(b: Buf, recs: seq<Record>) {
    BufValid(b) && b.bytes[..b.count] == Encode(recs) && RecordsValid(recs)
  }

  /** A buffer of at most 65535 bytes holds fewer than 32768 records, so 2n + 2 never wraps. */
  lemma RecordsBound(b: Buf, recs: seq<Record>)
    requires Layout(b, recs)
    ensures 2 * |recs| <= b.count < U16
  {
    assert |Encode(recs)| == b.count;
  }

  /** Record n, read from the whole storage. */
  lemma RecordInBuffer(b: Buf, recs: seq<Record>, n: nat)
    requires Layout(b, recs) && n < |recs|
    ensures Start(recs, n + 1) == Start(recs, n) + |RecordBytes(recs[n])| <= b.count
    ensures b.bytes[Start(recs, n)..Start(recs, n) + |RecordBytes(recs[n])|] == RecordBytes(recs[n])
  {
    EncodeSplit(recs, n);
    assert b.bytes[Start(recs, n)..Start(recs, n + 1)] == b.bytes[..b.count][Start(recs, n)..Start(recs, n + 1)];
  }

  /** The four parts of a record that sits at `p`. */
  lemma RecordFields(buf: seq<bv8>, p: nat, r: Record)
    requires p + |RecordBytes(r)| <= |buf| && buf[p..p + |RecordBytes(r)|] == RecordBytes(r)
    ensures buf[p..p + |r.key|] == r.key && buf[p + |r.key|] == 0
    ensures buf[p + |r.key| + 1..p + |r.key| + 1 + |r.value|] == r.value
    ensures buf[p + |r.key| + 1 + |r.value|] == 0
  {
    var e := p + |RecordBytes(r)|;
    var rb := RecordBytes(r);
    var k, v := |r.key|, |r.value|;
    assert rb[..k] == r.key && rb[k] == 0 && rb[k + 1..k + 1 + v] == r.value && rb[k + 1 + v] == 0;
    assert buf[p..p + k] == buf[p..e][..k];
    assert buf[p + k] == buf[p..e][k];
    assert buf[p + k + 1..p + k + 1 + v] == buf[p..e][k + 1..k + 1 + v];
    assert buf[p + k + 1 + v] == buf[p..e][k + 1 + v];
  }

  /** Record n's key in the storage, followed by its zero, below count. */
  lemma KeyField(b: Buf, recs: seq<Record>, n: nat)
    requires Layout(b, recs) && n < |recs|
    ensures Start(recs, n) + |recs[n].key| < b.count
    ensures b.bytes[Start(recs, n)..Start(recs, n) + |recs[n].key|] == recs[n].key
    ensures b.bytes[Start(recs, n) + |recs[n].key|] == 0
    ensures 0 !in recs[n].key
  {
    RecordInBuffer(b, recs, n);
    RecordFields(b.bytes, Start(recs, n), recs[n]);
    assert RecordValid(recs[n]);
  }

  /** Record n's value in the storage, followed by its zero, below count. */
  lemma ValueField(b: Buf, recs: seq<Record>, n: nat)
    requires Layout(b, recs) && n < |recs|
    ensures ValueStart(recs, n) + |recs[n].value| < b.count
    ensures b.bytes[ValueStart(recs, n)..ValueStart(recs, n) + |recs[n].value|] == recs[n].value
    ensures b.bytes[ValueStart(recs, n) + |recs[n].value|] == 0
    ensures 0 !in recs[n].value
  {
    RecordInBuffer(b, recs, n);
    RecordFields(b.bytes, Start(recs, n), recs[n]);
    assert RecordValid(recs[n]);
  }

  /** No zero in a key, so none in its tail. */
  lemma TailNoZero(s: seq<bv8>)
    requires 0 !in s && s != []
    ensures 0 !in s[1..]
  {
    forall j | 0 <= j < |s[1..]| ensures s[1..][j] != 0 {
      assert s[1..][j] == s[j + 1];
    }
  }

  /**
   * Over a well-formed dictionary, key(n) as written points one byte into
   * record n's key, and data(n) one byte into record n + 1 (or one past
   * count after the last record).
   */
  lemma RecordPositionsAsWritten(b: Buf, recs: seq<Record>, n: nat)
    requires Layout(b, recs) && n < |recs|
    ensures KeyAt(b, n) == Start(recs, n) + 1
    ensures DataAt(b, n) == Start(recs, n + 1) + 1
  {
    RecordsBound(b, recs);
    assert Low16(2 * n) == 2 * n;
    assert Low16(2 * (1 + n)) == 2 * (n + 1);
    KeyPosition(b.bytes, b.count, recs, n);
    KeyPosition(b.bytes, b.count, recs, n + 1);
  }

  /** ... so sizeof_key(n) of a non-empty key comes out one short. */
  lemma KeySizeAsWritten(b: Buf, recs: seq<Record>, n: nat)
    requires Layout(b, recs) && n < |recs| && |recs[n].key| > 0
    ensures SizeofKey(b, n) == |recs[n].key| - 1
  {
    RecordPositionsAsWritten(b, recs, n);
    KeyField(b, recs, n);
    TailNoZero(recs[n].key);
    assert b.bytes[Start(recs, n) + 1..Start(recs, n) + |recs[n].key|] == recs[n].key[1..];
    ScanCString(b.bytes, Start(recs, n) + 1, recs[n].key[1..], Remaining(b, Start(recs, n) + 1));
  }

  /** data(n) with the intended skip but the precedence as written still lands on record n + 1. */
  lemma DataPrecedenceAsWritten(b: Buf, recs: seq<Record>, n: nat)
    requires Layout(b, recs) && n < |recs|
    ensures SkipNZerosIntended(b.bytes, Low16(2 * (1 + n)), b.count) == Start(recs, n + 1)
    ensures Start(recs, n + 1) != ValueStart(recs, n)
  {
    RecordsBound(b, recs);
    assert Low16(2 * (1 + n)) == 2 * (n + 1);
    KeyPosition(b.bytes, b.count, recs, n + 1);
    EncodeSplit(recs, n);
  }

  /** The corrected key(n) and data(n) are where record n's key and value begin. */
  lemma RecordPositionsCorrected(b: Buf, recs: seq<Record>, n: nat)
    requires Layout(b, recs) && n < |recs|
    ensures KeyAtCorrected(b, n) == Start(recs, n)
    ensures DataAtCorrected(b, n) == ValueStart(recs, n)
  {
    RecordsBound(b, recs);
    assert Low16(2 * n) == 2 * n;
    assert Low16(2 * n + 1) == 2 * n + 1;
    KeyPosition(b.bytes, b.count, recs, n);
    ValuePosition(b.bytes, b.count, recs, n);
  }

  /**
   * The corrected helpers recover record n's key: sizeof_key(n) is its
   * length and the bytes at key(n) are the key.
   */
  lemma KeyAccessCorrected(b: Buf, recs: seq<Record>, n: nat)
    requires Layout(b, recs) && n < |recs|
    ensures SizeofKeyCorrected(b, n) == |recs[n].key|
    ensures b.bytes[KeyAtCorrected(b, n)..KeyAtCorrected(b, n) + SizeofKeyCorrected(b, n)] == recs[n].key
  {
    RecordPositionsCorrected(b, recs, n);
    KeyField(b, recs, n);
    ScanCString(b.bytes, Start(recs, n), recs[n].key, Remaining(b, Start(recs, n)));
  }

  /** ... and its value: sizeof_data(n) is the value's length and the bytes at data(n) are the value. */
  lemma ValueAccessCorrected(b: Buf, recs: seq<Record>, n: nat)
    requires Layout(b, recs) && n < |recs|
    ensures SizeofDataCorrected(b, n) == |recs[n].value|
    ensures b.bytes[DataAtCorrected(b, n)..DataAtCorrected(b, n) + SizeofDataCorrected(b, n)] == recs[n].value
  {
    RecordPositionsCorrected(b, recs, n);
    ValueField(b, recs, n);
    ScanCString(b.bytes, ValueStart(recs, n), recs[n].value, Remaining(b, ValueStart(recs, n)));
  }

  // ---------------------------------------------------------------------
  // append

  function Min(x: nat, y: nat): nat {
    if x <= y then x else y
  }

  /**
   * append(key, data) on the storage: the bytes `key 0 data 0` are copied
   * from count on, stopping at the capacity; then the last byte of the
   * storage is forced to 0 and count becomes the position reached.
   */
  function AppendRecord(b: Buf, akey: seq<bv8>, value: seq<bv8>): (r: Buf)
    requires BufValid(b) && |b.bytes| > 0
    ensures BufValid(r) && |r.bytes| == |b.bytes|
    ensures r.count == Min(b.count + |akey| + |value| + 2, |b.bytes|)
    ensures r.bytes[|b.bytes| - 1] == 0
    ensures forall i :: 0 <= i < b.count && i != |b.bytes| - 1 ==> r.bytes[i] == b.bytes[i]
    ensures forall i :: b.count <= i < r.count && i != |b.bytes| - 1 ==>
              r.bytes[i] == RecordBytes(Record(akey, value))[i - b.count]
    ensures forall i :: r.count <= i < |b.bytes| - 1 ==> r.bytes[i] == b.bytes[i]
  {
    var rec := RecordBytes(Record(akey, value));
    var m := Min(|rec|, |b.bytes| - b.count);
    Buf((b.bytes[..b.count] + rec[..m] + b.bytes[b.count + m..])[|b.bytes| - 1 := 0], b.count + m)
  }

  /** When the record fits, the used part grows by exactly `key 0 data 0`. */
  lemma AppendFits(b: Buf, akey: seq<bv8>, value: seq<bv8>)
    requires BufValid(b) && b.count + |akey| + |value| + 2 <= |b.bytes|
    ensures BufContents(AppendRecord(b, akey, value)) == BufContents(b) + RecordBytes(Record(akey, value))
  {
    var r := AppendRecord(b, akey, value);
    var rec := RecordBytes(Record(akey, value));
    assert rec[|rec| - 1] == 0;
    forall i | 0 <= i < r.count
      ensures BufContents(r)[i] == (BufContents(b) + rec)[i]
    {
    }
  }

  /** append keeps the layout: a fitting record is added after the others. */
  lemma AppendLayout(b: Buf, recs: seq<Record>, akey: seq<bv8>, value: seq<bv8>)
    requires Layout(b, recs) && 0 !in akey && 0 !in value
    requires b.count + |akey| + |value| + 2 <= |b.bytes|
    ensures Layout(AppendRecord(b, akey, value), recs + [Record(akey, value)])
  {
    var recs' := recs + [Record(akey, value)];
    assert recs'[..|recs'| - 1] == recs;
    AppendFits(b, akey, value);
  }

  // ---------------------------------------------------------------------
  // contains

  /** The bytes contains compares: the key and its NUL, `sizeofkey` counted as a uint16_t. */
  function Pattern(akey: seq<bv8>): (pat: seq<bv8>)
    ensures 0 < |akey| < 0xFFFF ==> pat == akey + [0]
  {
    (akey + [0])[..Low16(Low16(|akey|) + 1)]
  }

  /**
   * The comparison loop succeeds at `p`. A comparison that would step past
   * the capacity counts as a mismatch: the source would read outside the
   * storage there.
   */
  predicate MatchesAt(buf: seq<bv8>, p: nat, pat: seq<bv8>) {
    p + |pat| <= |buf| && buf[p..p + |pat|] == pat
  }

  /** Where record k's key is looked for: key(k) as written, or the corrected key(k). */
  function KeyPos(b: Buf, k: nat, asWritten: bool): nat
    requires BufValid(b)
  {
    if asWritten then KeyAt(b, k) else KeyAtCorrected(b, k)
  }

  /** The loop over k < _keys: the first key position, from k on, where the pattern matches. */
  function FindFrom(b: Buf, keys: nat, pat: seq<bv8>, k: nat, asWritten: bool): (r: Option<nat>)
    requires BufValid(b)
    ensures r.Some? ==> MatchesAt(b.bytes, r.value, pat) && r.value <= b.count + 1
    ensures r.Some? && asWritten ==> 1 <= r.value
    decreases keys - k
  {
    if k >= keys then None
    else if MatchesAt(b.bytes, KeyPos(b, k, asWritten), pat) then Some(KeyPos(b, k, asWritten))
    else FindFrom(b, keys, pat, k + 1, asWritten)
  }

  /**
   * The position just after a match at `q` of a pattern of `len` bytes,
   * clamped to size - 1 when it passes the size (a uint16_t comparison).
   */
  function AfterMatch(b: Buf, q: Option<nat>, len: nat): Option<int> {
    match q {
      case None => None
      case Some(p) => Some(if Low16(p + len) > |b.bytes| then |b.bytes| - 1 else p + len)
    }
  }

  /** Within the storage the clamp is never taken. */
  lemma AfterMatchInside(b: Buf, q: Option<nat>, len: nat)
    requires BufValid(b) && q.Some? && q.value + len <= |b.bytes|
    ensures AfterMatch(b, q, len) == Some(q.value + len)
  {
    assert Low16(q.value + len) == q.value + len;
  }

  /**
   * contains(key): null for an empty key; otherwise the position just after
   * the first matching key and its NUL.
   */
  function ContainsWith(b: Buf, keys: nat, akey: seq<bv8>, asWritten: bool): (r: Option<int>)
    requires BufValid(b)
  {
    if Low16(|akey|) == 0 then None
    else AfterMatch(b, FindFrom(b, keys, Pattern(akey), 0, asWritten), |Pattern(akey)|)
  }

  /**
   * contains as written: nothing for an empty key; otherwise, when found, the
   * position just after a place where the key and its NUL appear, at or after
   * byte 1.
   */
  function ContainsKey(b: Buf, keys: nat, akey: seq<bv8>): (r: Option<int>)
    requires BufValid(b)
    ensures |akey| == 0 ==> r == None
    ensures r.Some? && |akey| < 0xFFFF ==>
              |akey| + 2 <= r.value <= |b.bytes| && MatchesAt(b.bytes, r.value - |akey| - 1, akey + [0])
  {
    ContainsBounds(b, keys, akey, true);
    ContainsWith(b, keys, akey, true)
  }

  /** contains over the corrected key(k). */
  function ContainsKeyCorrected(b: Buf, keys: nat, akey: seq<bv8>): Option<int>
    requires BufValid(b)
  {
    ContainsWith(b, keys, akey, false)
  }

  /**
   * What contains returns, for any storage: nothing for an empty key;
   * otherwise a position within the storage, just past the pattern it
   * matched (so the clamp to size - 1 is never taken).
   */
  lemma ContainsBounds(b: Buf, keys: nat, akey: seq<bv8>, asWritten: bool)
    requires BufValid(b)
    ensures Low16(|akey|) == 0 ==> ContainsWith(b, keys, akey, asWritten) == None
    ensures ContainsWith(b, keys, akey, asWritten).Some? ==>
              FindFrom(b, keys, Pattern(akey), 0, asWritten).Some? &&
              ContainsWith(b, keys, akey, asWritten).value ==
                FindFrom(b, keys, Pattern(akey), 0, asWritten).value + |Pattern(akey)| <= |b.bytes|
  {
    if Low16(|akey|) != 0 && FindFrom(b, keys, Pattern(akey), 0, asWritten).Some? {
      AfterMatchInside(b, FindFrom(b, keys, Pattern(akey), 0, asWritten), |Pattern(akey)|);
    }
  }

  /** Record k matches `akey` at the position looked at: as written one byte into its key. */
  predicate Matches(r: Record, akey: seq<bv8>, asWritten: bool) {
    if !asWritten then r.key == akey
    else if |r.key| > 0 then r.key[1..] == akey
    else r.value == akey
  }

  /** The first record from k on that matches. */
  function FirstMatch(recs: seq<Record>, akey: seq<bv8>, asWritten: bool, k: nat): (r: Option<nat>)
    requires k <= |recs|
    ensures r.Some? ==> k <= r.value < |recs| && Matches(recs[r.value], akey, asWritten)
    ensures r.Some? ==> forall j :: k <= j < r.value ==> !Matches(recs[j], akey, asWritten)
    ensures r.None? ==> forall j :: k <= j < |recs| ==> !Matches(recs[j], akey, asWritten)
    decreases |recs| - k
  {
    if k == |recs| then None
    else if Matches(recs[k], akey, asWritten) then Some(k)
    else FirstMatch(recs, akey, asWritten, k + 1)
  }

  /** A C string `s` sits at `p`: the key and its NUL match there exactly when the key is `s`. */
  lemma MatchAtCString(buf: seq<bv8>, p: nat, s: seq<bv8>, akey: seq<bv8>)
    requires p + |s| < |buf| && buf[p..p + |s|] == s && buf[p + |s|] == 0
    requires 0 !in s && 0 !in akey
    ensures MatchesAt(buf, p, akey + [0]) <==> s == akey
  {
    if s == akey {
      assert buf[p..p + |s| + 1] == buf[p..p + |s|] + [buf[p + |s|]];
    }
    if MatchesAt(buf, p, akey + [0]) {
      // both are the C string at p: their lengths are where the scan stops
      assert buf[p..p + |akey|] == buf[p..p + |akey| + 1][..|akey|];
      ScanCString(buf, p, s, |buf| - p);
      ScanCString(buf, p, akey, |buf| - p);
    }
  }

  /** Record j, looked at where contains looks: the pattern matches there exactly when the record matches. */
  lemma MatchAtRecord(b: Buf, recs: seq<Record>, j: nat, akey: seq<bv8>, asWritten: bool)
    requires Layout(b, recs) && j < |recs| && 0 !in akey
    ensures KeyPos(b, j, asWritten) == Start(recs, j) + (if asWritten then 1 else 0)
    ensures MatchesAt(b.bytes, KeyPos(b, j, asWritten), akey + [0]) <==> Matches(recs[j], akey, asWritten)
  {
    if !asWritten {
      RecordPositionsCorrected(b, recs, j);
      KeyField(b, recs, j);
      MatchAtCString(b.bytes, Start(recs, j), recs[j].key, akey);
    } else if |recs[j].key| > 0 {
      MatchAtKeyTail(b, recs, j, akey);
    } else {
      RecordPositionsAsWritten(b, recs, j);
      ValueField(b, recs, j);
      MatchAtCString(b.bytes, ValueStart(recs, j), recs[j].value, akey);
    }
  }

  /** As written, record j's key is compared from its second byte on. */
  lemma MatchAtKeyTail(b: Buf, recs: seq<Record>, j: nat, akey: seq<bv8>)
    requires Layout(b, recs) && j < |recs| && 0 !in akey && |recs[j].key| > 0
    ensures KeyAt(b, j) == Start(recs, j) + 1
    ensures MatchesAt(b.bytes, KeyAt(b, j), akey + [0]) <==> recs[j].key[1..] == akey
  {
    RecordPositionsAsWritten(b, recs, j);
    KeyField(b, recs, j);
    TailNoZero(recs[j].key);
    assert b.bytes[Start(recs, j) + 1..Start(recs, j) + |recs[j].key|] == recs[j].key[1..];
    MatchAtCString(b.bytes, Start(recs, j) + 1, recs[j].key[1..], akey);
  }

  /** The search loop over a well-formed dictionary finds the first matching record. */
  lemma {:induction false} FindFromLayout(b: Buf, recs: seq<Record>, akey: seq<bv8>, k: nat, asWritten: bool)
    requires Layout(b, recs) && k <= |recs| && 0 !in akey
    ensures FindFrom(b, |recs|, akey + [0], k, asWritten).Some? == FirstMatch(recs, akey, asWritten, k).Some?
    ensures FirstMatch(recs, akey, asWritten, k).Some? ==>
              FindFrom(b, |recs|, akey + [0], k, asWritten).value ==
              Start(recs, FirstMatch(recs, akey, asWritten, k).value) + (if asWritten then 1 else 0)
    decreases |recs| - k
  {
    if k < |recs| {
      MatchAtRecord(b, recs, k, akey, asWritten);
      if !Matches(recs[k], akey, asWritten) {
        FindFromLayout(b, recs, akey, k + 1, asWritten);
      }
    }
  }

  /**
   * contains over a well-formed dictionary holding `recs` with `_keys` =
   * |recs|: it finds the first record that matches and returns where that
   * record's value begins; as written, a record with an empty key can only
   * match by its value, and then the position is past the whole record.
   */
  lemma ContainsLayout(b: Buf, recs: seq<Record>, akey: seq<bv8>, asWritten: bool)
    requires Layout(b, recs) && 0 < |akey| < 0xFFFF && 0 !in akey
    ensures FirstMatch(recs, akey, asWritten, 0).None? ==> ContainsWith(b, |recs|, akey, asWritten) == None
    ensures FirstMatch(recs, akey, asWritten, 0).Some? ==>
              var j := FirstMatch(recs, akey, asWritten, 0).value;
              ContainsWith(b, |recs|, akey, asWritten) ==
                Some(if asWritten && |recs[j].key| == 0 then Start(recs, j + 1) else ValueStart(recs, j))
  {
    FindFromLayout(b, recs, akey, 0, asWritten);
    ContainsFound(b, |recs|, akey, asWritten);
    if FirstMatch(recs, akey, asWritten, 0).Some? {
      MatchEnd(recs, FirstMatch(recs, akey, asWritten, 0).value, akey, asWritten);
    }
  }

  /** Where a match at record j ends: the pattern is one byte longer than the key. */
  lemma MatchEnd(recs: seq<Record>, j: nat, akey: seq<bv8>, asWritten: bool)
    requires j < |recs| && Matches(recs[j], akey, asWritten)
    ensures Start(recs, j) + (if asWritten then 1 else 0) + |akey| + 1 ==
            if asWritten && |recs[j].key| == 0 then Start(recs, j + 1) else ValueStart(recs, j)
  {
    EncodeSplit(recs, j);
  }

  /** For a key of fewer than 65535 bytes, contains is the search for the key and its NUL. */
  lemma ContainsFound(b: Buf, keys: nat, akey: seq<bv8>, asWritten: bool)
    requires BufValid(b) && 0 < |akey| < 0xFFFF
    ensures FindFrom(b, keys, akey + [0], 0, asWritten).None? ==> ContainsWith(b, keys, akey, asWritten) == None
    ensures FindFrom(b, keys, akey + [0], 0, asWritten).Some? ==>
              ContainsWith(b, keys, akey, asWritten) == Some(FindFrom(b, keys, akey + [0], 0, asWritten).value + |akey| + 1)
  {
    assert Low16(|akey|) == |akey|;
    assert Pattern(akey) == akey + [0];
    if FindFrom(b, keys, akey + [0], 0, asWritten).Some? {
      AfterMatchInside(b, FindFrom(b, keys, akey + [0], 0, asWritten), |akey| + 1);
    }
  }

  /**
   * The key just appended to an empty dictionary is not found by contains as
   * written, since key(0) points past its first byte; the corrected contains
   * finds it and points at its value.
   */
  lemma AppendedKeyNotFound(b: Buf, akey: seq<bv8>, value: seq<bv8>)
    requires BufValid(b) && b.count == 0 && |akey| + |value| + 2 <= |b.bytes|
    requires 0 < |akey| && 0 !in akey && 0 !in value
    ensures ContainsKey(AppendRecord(b, akey, value), 1, akey) == None
    ensures ContainsKeyCorrected(AppendRecord(b, akey, value), 1, akey) == Some(|akey| + 1)
  {
    assert b.bytes[..b.count] == Encode([]);
    var recs := [Record(akey, value)];
    AppendLayout(b, [], akey, value);
    assert [] + [Record(akey, value)] == recs;
    assert !Matches(recs[0], akey, true) by {
      assert |akey[1..]| != |akey|;
    }
    assert FirstMatch(recs, akey, true, 1) == None;
    ContainsLayout(AppendRecord(b, akey, value), recs, akey, true);
    ContainsLayout(AppendRecord(b, akey, value), recs, akey, false);
    assert recs[..0] == [];
  }

  // ---------------------------------------------------------------------
  // remove

  /** What remove leaves in the buffer and what it returns. */
  datatype Removal = Removal(buf: Buf, deleted: nat)

  /** strlen at `p`, stopping at the capacity. */
  function StrLen(buf: seq<bv8>, p: nat): nat
    requires p <= |buf|
  {
    Scan0FromHere(buf, p, |buf| - p)
  }

  /**
   * The shift loop: bytes [last, count) move down to `first`, then the byte
   * before the copy's end (`*--first`) is set to 0; everything else stays.
   */
  function Shifted(bytes: seq<bv8>, first: nat, last: nat, count: nat): (r: seq<bv8>)
    requires first <= last <= count <= |bytes| && 1 <= first + (count - last)
    ensures |r| == |bytes|
  {
    (bytes[..first] + bytes[last..count] + bytes[first + (count - last)..])[first + (count - last) - 1 := 0]
  }

  /**
   * Shifted byte by byte: [first, first + (count - last)) holds what was at
   * [last, count), its last byte then zeroed; everything else is unchanged.
   */
  lemma ShiftedAt(bytes: seq<bv8>, first: nat, last: nat, count: nat)
    requires first <= last <= count <= |bytes| && 1 <= first + (count - last)
    ensures Shifted(bytes, first, last, count)[first + (count - last) - 1] == 0
    ensures forall i :: 0 <= i < |bytes| && i != first + (count - last) - 1 ==>
              Shifted(bytes, first, last, count)[i] ==
                if first <= i < first + (count - last) then bytes[i - first + last] else bytes[i]
  {
  }

  /**
   * The span remove deletes once the data is found at `p`: from `first` to
   * one past the data's zero, cut at count. A span short of count is shifted
   * out, leaving count as it is; otherwise the whole buffer is cleared.
   */
  function RemoveSpan(b: Buf, first: nat, p: nat): (r: Removal)
    requires BufValid(b) && 1 <= first <= b.count + 1 && first < p <= |b.bytes|
  {
    if Low16(SpanEnd(b, p) - first) < b.count then
      Removal(Buf(Shifted(b.bytes, first, SpanEnd(b, p), b.count), b.count), Low16(SpanEnd(b, p) - first))
    else Removal(Cleared(b), b.count)
  }

  /** `last`: one past the zero that ends the data at `p`, but never past count. */
  function SpanEnd(b: Buf, p: nat): (r: nat)
    requires BufValid(b) && p <= |b.bytes|
    ensures r <= b.count && (p <= b.count ==> p <= r)
  {
    if p + StrLen(b.bytes, p) + 1 > b.count then b.count else p + StrLen(b.bytes, p) + 1
  }

  /**
   * A key contains finds sits just before the position returned: the key
   * and its NUL start at or after byte 1 and no further than count + 1.
   */
  lemma ContainsFoundBounds(b: Buf, keys: nat, akey: seq<bv8>)
    requires BufValid(b) && 0 < |akey| < 0xFFFF
    ensures ContainsKey(b, keys, akey).Some? ==> FoundAt(b, akey, ContainsKey(b, keys, akey).value)
  {
    ContainsBounds(b, keys, akey, true);
    assert |Pattern(akey)| == |akey| + 1;
  }

  /** Where remove may take a found key and its data to be. */
  predicate FoundAt(b: Buf, akey: seq<bv8>, p: int) {
    1 <= p - |akey| - 1 <= b.count + 1 && p <= |b.bytes|
  }

  /** remove once contains has answered `found`. */
  function RemoveWith(b: Buf, akey: seq<bv8>, found: Option<int>): Removal
    requires BufValid(b) && (found.Some? ==> FoundAt(b, akey, found.value))
  {
    if found.None? then Removal(b, 0)
    else RemoveSpan(b, found.value - |akey| - 1, found.value)
  }

  /**
   * remove(key): nothing for an empty key or a key contains does not find;
   * otherwise the span from `first` = (the position contains returns) minus
   * the key's length minus 1. Either that span is shifted out, keeping count,
   * or the whole buffer is cleared and the old count returned; the capacity
   * never changes.
   */
  function Removed(b: Buf, keys: nat, akey: seq<bv8>): (r: Removal)
    requires BufValid(b) && |akey| < 0xFFFF
    ensures |akey| == 0 || ContainsKey(b, keys, akey).None? ==> r == Removal(b, 0)
    ensures BufValid(r.buf) && |r.buf.bytes| == |b.bytes| && r.deleted <= b.count
    ensures r.buf.count == b.count || (r.buf.count == 0 && r.deleted == b.count)
  {
    if |akey| == 0 then Removal(b, 0)
    else
      ContainsFoundBounds(b, keys, akey);
      RemoveWith(b, akey, ContainsKey(b, keys, akey))
  }

  /** The strlen remove takes at record j's value is the value's length, so `last` is where record j + 1 begins. */
  lemma SpanEndLayout(b: Buf, recs: seq<Record>, j: nat)
    requires Layout(b, recs) && j < |recs|
    ensures ValueStart(recs, j) < b.count
    ensures SpanEnd(b, ValueStart(recs, j)) == Start(recs, j + 1)
  {
    ValueField(b, recs, j);
    ScanCString(b.bytes, ValueStart(recs, j), recs[j].value, |b.bytes| - ValueStart(recs, j));
    RecordInBuffer(b, recs, j);
  }

  /**
   * remove as written, on well-formed storage, of a key that matches record
   * j one byte into its key: the span starts one byte into record j and ends
   * where record j + 1 begins; it is shifted out, one byte short of the
   * record, and count stays what it was.
   */
  lemma RemoveAsWrittenLayout(b: Buf, recs: seq<Record>, akey: seq<bv8>, j: nat)
    requires Layout(b, recs) && 0 < |akey| < 0xFFFF && 0 !in akey
    requires FirstMatch(recs, akey, true, 0) == Some(j) && |recs[j].key| > 0
    ensures Start(recs, j) + 1 <= Start(recs, j + 1) <= b.count
    ensures Removed(b, |recs|, akey) ==
              Removal(Buf(Shifted(b.bytes, Start(recs, j) + 1, Start(recs, j + 1), b.count), b.count),
                      |RecordBytes(recs[j])| - 1)
  {
    var p, first, last := ValueStart(recs, j), Start(recs, j) + 1, Start(recs, j + 1);
    assert ContainsKey(b, |recs|, akey) == Some(p) && p == first + |akey| + 1 by {
      ContainsLayout(b, recs, akey, true);
      MatchEnd(recs, j, akey, true);
    }
    assert SpanEnd(b, p) == last && last == first + |RecordBytes(recs[j])| - 1 <= b.count by {
      SpanEndLayout(b, recs, j);
      RecordInBuffer(b, recs, j);
    }
    RemovedShiftAt(b, |recs|, akey, first, p, last, |RecordBytes(recs[j])| - 1);
  }

  /** Found at `p`, with a span [first, last) shorter than count: remove shifts it out and keeps count. */
  lemma RemovedShiftAt(b: Buf, keys: nat, akey: seq<bv8>, first: nat, p: nat, last: nat, n: nat)
    requires BufValid(b) && 0 < |akey| < 0xFFFF && ContainsKey(b, keys, akey) == Some(p)
    requires p == first + |akey| + 1 && 1 <= first <= b.count + 1 && p <= |b.bytes|
    requires SpanEnd(b, p) == last && first <= last && n == last - first < b.count
    ensures Removed(b, keys, akey) == Removal(Buf(Shifted(b.bytes, first, last, b.count), b.count), n)
  {
    RemovedAt(b, keys, akey, p, RemoveSpan(b, first, p));
    RemoveSpanShift(b, first, p, last);
  }

  /** Once contains has answered `Some(p)`, remove deletes the span from `p` back over the key and its NUL. */
  lemma RemovedAt(b: Buf, keys: nat, akey: seq<bv8>, p: int, r: Removal)
    requires BufValid(b) && 0 < |akey| < 0xFFFF && ContainsKey(b, keys, akey) == Some(p)
    requires FoundAt(b, akey, p) && r == RemoveSpan(b, p - |akey| - 1, p)
    ensures Removed(b, keys, akey) == r
  {
  }

  /** The two outcomes of the span removal, by the wrapped span length. */
  lemma RemoveSpanCases(b: Buf, first: nat, p: nat)
    requires BufValid(b) && 1 <= first <= b.count + 1 && first < p <= |b.bytes|
    ensures Low16(SpanEnd(b, p) - first) < b.count ==>
              first <= SpanEnd(b, p) &&
              RemoveSpan(b, first, p) == Removal(Buf(Shifted(b.bytes, first, SpanEnd(b, p), b.count), b.count), Low16(SpanEnd(b, p) - first))
    ensures Low16(SpanEnd(b, p) - first) >= b.count ==> RemoveSpan(b, first, p) == Removal(Cleared(b), b.count)
  {
  }

  /** A span shorter than count, with `last` the span's end, is shifted out and count kept. */
  lemma RemoveSpanShift(b: Buf, first: nat, p: nat, last: nat)
    requires BufValid(b) && 1 <= first <= b.count + 1 && first < p <= |b.bytes|
    requires SpanEnd(b, p) == last && first <= last && last - first < b.count
    ensures RemoveSpan(b, first, p) == Removal(Buf(Shifted(b.bytes, first, last, b.count), b.count), last - first)
  {
  }

  // ---------------------------------------------------------------------
  // remove as its description intends: found through the corrected key(k),
  // and with count and _keys brought down by what was deleted.

  /** The corrected span removal: shift out [first, last) and shrink count by it, or clear. */
  function RemoveSpanCorrected(b: Buf, first: nat, p: nat): (r: Removal)
    requires BufValid(b) && first < p <= |b.bytes|
  {
    if SpanEnd(b, p) <= first then Removal(b, 0)
    else if SpanEnd(b, p) - first < b.count then
      Removal(Buf(Shifted(b.bytes, first, SpanEnd(b, p), b.count), b.count - (SpanEnd(b, p) - first)), SpanEnd(b, p) - first)
    else Removal(Cleared(b), b.count)
  }

  /** The corrected remove: the removal and the new key counter. */
  function RemovedCorrected(b: Buf, keys: nat, akey: seq<bv8>): (Removal, nat)
    requires BufValid(b) && |akey| < 0xFFFF
  {
    if |akey| == 0 then (Removal(b, 0), keys)
    else
      ContainsBounds(b, keys, akey, false);
      RemoveWithCorrected(b, keys, akey, ContainsKeyCorrected(b, keys, akey))
  }

  /** The corrected remove once contains has answered `found`. */
  function RemoveWithCorrected(b: Buf, keys: nat, akey: seq<bv8>, found: Option<int>): (Removal, nat)
    requires BufValid(b) && (found.Some? ==> found.value <= |b.bytes|)
  {
    if found.None? || found.value < |akey| + 1 then (Removal(b, 0), keys)
    else (RemoveSpanCorrected(b, found.value - |akey| - 1, found.value), if keys == 0 then 0 else keys - 1)
  }

  /** With record j's span shifted out and count shrunk by it, the storage holds the other records. */
  lemma ShiftLayout(b: Buf, recs: seq<Record>, j: nat)
    requires Layout(b, recs) && j < |recs| && |RecordBytes(recs[j])| < b.count
    ensures Start(recs, j + 1) == Start(recs, j) + |RecordBytes(recs[j])| <= b.count
    ensures Layout(Buf(Shifted(b.bytes, Start(recs, j), Start(recs, j + 1), b.count), b.count - |RecordBytes(recs[j])|),
                   recs[..j] + recs[j + 1..])
  {
    RecordInBuffer(b, recs, j);
    EncodeAround(recs, j);
    DropValid(recs, j);
    var rest := recs[..j] + recs[j + 1..];
    assert |Encode(rest)| == b.count - |RecordBytes(recs[j])|;
    EncodeEndsInZero(rest);
    ShiftedKeeps(b.bytes, b.count, Encode(recs[..j]), RecordBytes(recs[j]), Encode(recs[j + 1..]),
                 Start(recs, j), Start(recs, j + 1), b.count - |RecordBytes(recs[j])|);
    LayoutOf(Buf(Shifted(b.bytes, Start(recs, j), Start(recs, j + 1), b.count), b.count - |RecordBytes(recs[j])|), rest);
  }

  /** Layout, from its three parts. */
  lemma LayoutOf(b: Buf, recs: seq<Record>)
    requires BufValid(b) && b.bytes[..b.count] == Encode(recs) && RecordsValid(recs)
    ensures Layout(b, recs)
  {
  }

  /**
   * Shifting [|x|, |x| + |r|) out of storage whose used part is x + r + y,
   * with x + y ending in 0, leaves x + y in front.
   */
  lemma ShiftedKeeps(bytes: seq<bv8>, count: nat, x: seq<bv8>, r: seq<bv8>, y: seq<bv8>, first: nat, last: nat, n: nat)
    requires count <= |bytes| && bytes[..count] == x + r + y && 1 <= |x| + |y|
    requires (x + y)[|x| + |y| - 1] == 0
    requires first == |x| && last == |x| + |r| && n == |x| + |y|
    ensures Shifted(bytes, first, last, count)[..n] == x + y
  {
    var t := Shifted(bytes, first, last, count);
    ShiftedAt(bytes, first, last, count);
    forall i | 0 <= i < n
      ensures t[i] == (x + y)[i]
    {
      if i < |x| {
        assert bytes[i] == bytes[..count][i];
      } else if i != |x| + |y| - 1 {
        assert bytes[i - |x| + |x| + |r|] == bytes[..count][i + |r|];
      }
    }
  }

  /**
   * The corrected remove on well-formed storage: a key that matches no
   * record changes nothing; the first record whose key is `akey` is removed,
   * with its whole length, and the storage then holds the other records in
   * order, with one key fewer.
   */
  lemma RemoveCorrectedLayout(b: Buf, recs: seq<Record>, akey: seq<bv8>)
    requires Layout(b, recs) && 0 < |akey| < 0xFFFF && 0 !in akey
    ensures FirstMatch(recs, akey, false, 0).None? ==> RemovedCorrected(b, |recs|, akey) == (Removal(b, 0), |recs|)
    ensures FirstMatch(recs, akey, false, 0).Some? ==>
              var j := FirstMatch(recs, akey, false, 0).value;
              Layout(RemovedCorrected(b, |recs|, akey).0.buf, recs[..j] + recs[j + 1..]) &&
              RemovedCorrected(b, |recs|, akey).0.deleted == |RecordBytes(recs[j])| &&
              RemovedCorrected(b, |recs|, akey).1 == |recs| - 1
  {
    ContainsLayout(b, recs, akey, false);
    if FirstMatch(recs, akey, false, 0).Some? {
      var j := FirstMatch(recs, akey, false, 0).value;
      SpanEndLayout(b, recs, j);
      assert recs[j].key == akey;
      RecordInBuffer(b, recs, j);
      RemovedCorrectedSpan(b, |recs|, akey, Start(recs, j), ValueStart(recs, j), Start(recs, j + 1), |RecordBytes(recs[j])|);
      if |RecordBytes(recs[j])| < b.count {
        ShiftLayout(b, recs, j);
      } else {
        OnlyRecord(b, recs, j);
      }
    }
  }

  /**
   * Found at `p`, with the key from `first` and the span [first, last) of
   * length n: the corrected remove shifts the span out and shrinks count by
   * n, or clears a span that covers count; either way one key fewer.
   */
  lemma RemovedCorrectedSpan(b: Buf, keys: nat, akey: seq<bv8>, first: nat, p: nat, last: nat, n: nat)
    requires BufValid(b) && 0 < |akey| < 0xFFFF && ContainsKeyCorrected(b, keys, akey) == Some(p)
    requires p == first + |akey| + 1 && p <= |b.bytes|
    requires SpanEnd(b, p) == last && first < last && n == last - first
    ensures RemovedCorrected(b, keys, akey).1 == if keys == 0 then 0 else keys - 1
    ensures n < b.count ==>
              RemovedCorrected(b, keys, akey).0 == Removal(Buf(Shifted(b.bytes, first, last, b.count), b.count - n), n)
    ensures n >= b.count ==> RemovedCorrected(b, keys, akey).0 == Removal(Cleared(b), b.count)
  {
    RemovedCorrectedAt(b, keys, akey, first, p);
    if n < b.count {
      RemoveSpanCorrectedShift(b, first, p, last);
    }
  }

  /** A nonempty span shorter than count is shifted out and count shrunk by its length. */
  lemma RemoveSpanCorrectedShift(b: Buf, first: nat, p: nat, last: nat)
    requires BufValid(b) && first < p <= |b.bytes|
    requires SpanEnd(b, p) == last && first < last && last - first < b.count
    ensures RemoveSpanCorrected(b, first, p) ==
              Removal(Buf(Shifted(b.bytes, first, last, b.count), b.count - (last - first)), last - first)
  {
  }

  /**
   * Once the corrected contains has answered `Some(p)`, with the key taking
   * the bytes from `first` to p, the corrected remove deletes the span from
   * `first`.
   */
  lemma RemovedCorrectedAt(b: Buf, keys: nat, akey: seq<bv8>, first: nat, p: nat)
    requires BufValid(b) && 0 < |akey| < 0xFFFF && ContainsKeyCorrected(b, keys, akey) == Some(p)
    requires p == first + |akey| + 1 && p <= |b.bytes|
    ensures RemovedCorrected(b, keys, akey) == (RemoveSpanCorrected(b, first, p), if keys == 0 then 0 else keys - 1)
  {
  }

  /** A record as long as the whole used part is the only one; removing it leaves nothing. */
  lemma OnlyRecord(b: Buf, recs: seq<Record>, j: nat)
    requires Layout(b, recs) && j < |recs| && |RecordBytes(recs[j])| >= b.count
    ensures recs[..j] + recs[j + 1..] == [] && Layout(Cleared(b), [])
    ensures |RecordBytes(recs[j])| == b.count
  {
    RecordInBuffer(b, recs, j);
    EncodeAround(recs, j);
    assert |Encode(recs[..j])| == 0 && |Encode(recs[j + 1..])| == 0;
    assert |recs[..j]| == 0 && |recs[j + 1..]| == 0;
  }

  /**
   * The bytes append leaves, given pointwise: the key's copy, then the data's
   * copy, then the old bytes, with the last byte of the storage forced to 0.
   */
  lemma AppendRecordFrom(b: Buf, akey: seq<bv8>, value: seq<bv8>, d: seq<bv8>, middle: nat, end: nat)
    requires BufValid(b) && |b.bytes| > 0 && |d| == |b.bytes|
    requires middle == b.count + Min(|akey| + 1, |b.bytes| - b.count)
    requires end == middle + Min(|value| + 1, |b.bytes| - middle)
    requires d[|d| - 1] == 0
    requires forall k :: 0 <= k < |d| - 1 ==>
               d[k] == if b.count <= k < middle then (akey + [0])[k - b.count]
                       else if middle <= k < end then (value + [0])[k - middle]
                       else b.bytes[k]
    ensures end == AppendRecord(b, akey, value).count
    ensures d == AppendRecord(b, akey, value).bytes
  {
    var r := AppendRecord(b, akey, value);
    var rec := RecordBytes(Record(akey, value));
    forall k | 0 <= k < |d|
      ensures d[k] == r.bytes[k]
    {
      if k != |d| - 1 && b.count <= k < end {
        if k < middle {
          assert (akey + [0])[k - b.count] == rec[k - b.count];
        } else {
          assert (value + [0])[k - middle] == rec[k - b.count];
        }
      }
    }
  }

  /**
   * One of append's copy loops: bytes of `s` and then its NUL go to `a` from
   * `start` on, stopping after the NUL or at the end of the array.
   */
  method CopyTerminated(a: array<bv8>, start: nat, s: seq<bv8>) returns (end: nat)
    requires start <= a.Length && 0 !in s
    modifies a
    ensures end == start + Min(|s| + 1, a.Length - start)
    ensures forall k :: 0 <= k < a.Length ==>
              a[k] == if start <= k < end then (s + [0])[k - start] else old(a[k])
  {
    end := start;
    var done := false;
    while end < a.Length && !done
      invariant start <= end <= a.Length && end - start <= |s| + 1
      invariant done <==> end - start == |s| + 1
      invariant forall k :: 0 <= k < a.Length ==>
                  a[k] == if start <= k < end then (s + [0])[k - start] else old(a[k])
      decreases a.Length - end
    {
      var c: bv8 := if end - start < |s| then s[end - start] else 0;
      assert c == (s + [0])[end - start];
      a[end] := c;
      end := end + 1;
      done := c == 0;
    }
  }

  /** remove's shift loop: bytes [last, count) move down to `first`, then `*--first = 0`. */
  method ShiftDown(a: array<bv8>, first: nat, last: nat, count: nat)
    requires first <= last <= count <= a.Length && 1 <= first + (count - last)
    modifies a
    ensures a[..] == Shifted(old(a[..]), first, last, count)
  {
    ghost var a0 := a[..];
    var s := last;
    var f := first;
    while s < count
      invariant last <= s <= count && f - first == s - last
      invariant forall k :: 0 <= k < first ==> a[k] == a0[k]
      invariant forall k :: first <= k < f ==> a[k] == a0[k - first + last]
      invariant forall k :: f <= k < a.Length ==> a[k] == a0[k]
    {
      a[f] := a[s];
      f := f + 1;
      s := s + 1;
    }
    ShiftedFrom(a[..], a0, first, last, count);
    a[f - 1] := 0;
  }

  /** Storage that agrees with Shifted outside the one byte remove zeroes becomes Shifted once it is zeroed. */
  lemma ShiftedFrom(a1: seq<bv8>, a0: seq<bv8>, first: nat, last: nat, count: nat)
    requires first <= last <= count <= |a0| == |a1| && 1 <= first + (count - last)
    requires forall k :: 0 <= k < first ==> a1[k] == a0[k]
    requires forall k :: first <= k < first + (count - last) ==> a1[k] == a0[k - first + last]
    requires forall k :: first + (count - last) <= k < |a1| ==> a1[k] == a0[k]
    ensures a1[first + (count - last) - 1 := 0] == Shifted(a0, first, last, count)
  {
    var t := Shifted(a0, first, last, count);
    ShiftedAt(a0, first, last, count);
    forall k | 0 <= k < |a1|
      ensures a1[first + (count - last) - 1 := 0][k] == t[k]
    {
    }
  }

  /** ShiftDown on a ByteArray's storage, up to its count, which stays. */
  method ShiftOut(ba: ByteArray, first: nat, last: nat)
    requires ba.Valid() && first <= last <= ba.count && 1 <= first + (ba.count - last)
    modifies ba.data
    ensures ba.Valid()
    ensures ba.Model() == Buf(Shifted(old(ba.Model()).bytes, first, last, ba.count), ba.count)
  {
    ShiftDown(ba.data, first, last, ba.count);
  }

  /**
   * The body of remove on the storage: find the key with contains, then
   * shift the record's span out in place, or clear the buffer when the span
   * covers all of count.
   */
  method RemoveFrom(ba: ByteArray, keys: nat, akey: seq<bv8>) returns (deleted: nat)
    requires ba.Valid() && |akey| < 0xFFFF
    modifies ba, ba.data
    ensures ba.Valid()
    ensures Removal(ba.Model(), deleted) == Removed(old(ba.Model()), keys, akey)
  {
    var b := ba.Model();
    deleted := 0;
    if |akey| == 0 {
      return;
    }
    var found := ContainsKey(b, keys, akey);
    if found.None? {
      return;
    }
    ContainsFoundBounds(b, keys, akey);
    var p := found.value;
    var first := p - |akey| - 1;
    RemovedAt(b, keys, akey, p, RemoveSpan(b, first, p));
    deleted := RemoveSpanIn(ba, first, p, b);
  }

  /** remove once the data is found at `p`: shift the span from `first` out, or clear. */
  method RemoveSpanIn(ba: ByteArray, first: nat, p: nat, ghost b: Buf) returns (deleted: nat)
    requires ba.Valid() && ba.Model() == b && 1 <= first <= ba.count + 1 && first < p <= ba.data.Length
    modifies ba, ba.data
    ensures ba.Valid()
    ensures Removal(ba.Model(), deleted) == RemoveSpan(b, first, p)
  {
    var last := SpanEnd(ba.Model(), p);
    RemoveSpanCases(b, first, p);
    deleted := Low16(last - first);
    if deleted < ba.count {
      ShiftOut(ba, first, last);
      assert ba.count == b.count;
    } else {
      deleted := ba.count;
      ba.Clear();
    }
  }

  // ---------------------------------------------------------------------
  // The class

  class Dictionary {
    /** _ByteArray: the owned storage. */
    const bytes: ByteArray
    /** _keys: how many appends there have been since the last clear, as a uint16_t. */
    var keys: nat

    ghost predicate Valid()
      reads this, bytes
    {
      bytes.Valid() && keys < U16
    }

    /** The storage's value view. */
    function Model(): Buf
      reads bytes, bytes.data
    {
      bytes.Model()
    }

    /** Dictionary(bufferSize): an empty dictionary over a fresh buffer of that capacity. */
    constructor (bufferSize: nat)
      requires bufferSize <= MaxU16
      ensures Valid() && fresh(bytes) && fresh(bytes.data)
      ensures |Model().bytes| == bufferSize && Model().count == 0 && keys == 0
    {
      bytes := new ByteArray(bufferSize);
      keys := 0;
    }

    /** Dictionary(void): the same with 256 bytes. */
    constructor Default()
      ensures Valid() && fresh(bytes) && fresh(bytes.data)
      ensures |Model().bytes| == DefaultSize && Model().count == 0 && keys == 0
    {
      bytes := new ByteArray(DefaultSize);
      keys := 0;
    }

    /** count(), size() and keys() read the buffer and the counter. */
    function Count(): nat
      reads bytes
    {
      bytes.count
    }

    function Size(): nat
      reads bytes
    {
      bytes.Size()
    }

    function Keys(): nat
      reads this
    {
      keys
    }

    /** key(n), data(n), sizeof_key(n), sizeof_data(n) and contains(key) read the storage. */
    function Key(n: nat): (r: nat)
      reads this, bytes, bytes.data
      requires Valid()
      ensures r == KeyAt(Model(), n) && 1 <= r <= Count() + 1
    {
      KeyAt(Model(), n)
    }

    function Data(n: nat): (r: nat)
      reads this, bytes, bytes.data
      requires Valid()
      ensures r == DataAt(Model(), n) && 1 <= r <= Count() + 1
    {
      DataAt(Model(), n)
    }

    function SizeOfKey(n: nat): (r: nat)
      reads this, bytes, bytes.data
      requires Valid()
      ensures Key(n) + r <= Size() || r == 0
      ensures forall j :: Key(n) <= j < Key(n) + r ==> Model().bytes[j] != 0
    {
      SizeofKey(Model(), n)
    }

    function SizeOfData(n: nat): (r: nat)
      reads this, bytes, bytes.data
      requires Valid()
      ensures Data(n) + r <= Size() || r == 0
      ensures forall j :: Data(n) <= j < Data(n) + r ==> Model().bytes[j] != 0
    {
      SizeofData(Model(), n)
    }

    function Contains(akey: seq<bv8>): (r: Option<int>)
      reads this, bytes, bytes.data
      requires Valid()
      ensures |akey| == 0 ==> r == None
      ensures r.Some? && |akey| < 0xFFFF ==>
                |akey| + 2 <= r.value <= Size() && MatchesAt(Model().bytes, r.value - |akey| - 1, akey + [0])
    {
      ContainsKey(Model(), keys, akey)
    }

    /**
     * append(key, data): bump _keys, copy the key and its NUL, then the data
     * and its NUL, from count on while there is room; force the last byte of
     * the storage to 0, and make count the position reached.
     */
    method Append(akey: seq<bv8>, value: seq<bv8>) returns (r: nat)
      requires Valid() && bytes.Size() > 0 && 0 !in akey && 0 !in value
      modifies this, bytes, bytes.data
      ensures Valid()
      ensures Model() == AppendRecord(old(Model()), akey, value)
      ensures keys == Low16(old(keys) + 1)
      ensures r == bytes.count
    {
      ghost var b0 := Model();
      keys := Low16(keys + 1);
      var plimit := bytes.data.Length;
      var middle := CopyTerminated(bytes.data, bytes.count, akey);
      var pactual := CopyTerminated(bytes.data, middle, value);
      bytes.data[plimit - 1] := 0;
      AppendRecordFrom(b0, akey, value, bytes.data[..], middle, pactual);
      r := bytes.UpdateCount(pactual);
    }

    /**
     * remove(key): find the key with contains; shift the record's span out
     * in place, or clear the buffer when the span covers all of count.
     * Neither count (in the shift case) nor _keys is updated.
     */
    method Remove(akey: seq<bv8>) returns (deleted: nat)
      requires Valid() && |akey| < 0xFFFF
      modifies bytes, bytes.data
      ensures Valid() && keys == old(keys)
      ensures Removal(Model(), deleted) == Removed(old(Model()), keys, akey)
    {
      deleted := RemoveFrom(bytes, keys, akey);
    }

    /** clear(): empty the buffer and reset _keys. */
    method Clear()
      requires Valid()
      modifies this, bytes
      ensures Valid() && Model() == Cleared(old(Model())) && keys == 0
    {
      bytes.Clear();
      keys := 0;
    }
  }
}
