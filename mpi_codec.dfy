/** One database alignment as it crosses a node boundary: the record written by
    `dbAlignmentToBytes` and read back by `dbAlignmentFromBytes`. The record
    carries the query and target as indices into the `queries` and `database`
    collections that every node holds; the receiver resolves them. */
module MpiCodec {
  import opened Bytes

  /** A traceback path whose length fits the `int pathLen` field. */
  type Path = p: seq<byte> | |p| < 0x8000_0000

  /** The fields of a `DbAlignment` that travel on the wire. `value` is the
      ranking value (a C `float`), kept here as the integer key it holds. */
  datatype DbAlignment = DbAlignment(
    queryStart: int32, queryEnd: int32, queryIdx: int32,
    targetStart: int32, targetEnd: int32, targetIdx: int32,
    score: int32, value: int32, path: Path)

  /** Bytes of the fixed part: eight `int` fields and one `float`. */
  const FIXED_SIZE: nat := 8 * INT_SIZE + FLOAT_SIZE

  function RecordSize(a: DbAlignment): nat
  {
    FIXED_SIZE + |a.path|
  }

  /** The `int` fields of the fixed part in wire order: queryStart, queryEnd,
      queryIdx, targetStart, targetEnd, targetIdx, score, value, pathLen. */
  function Header(a: DbAlignment): (h: seq<int32>)
    ensures |h| == HEADER_FIELDS
  {
    [a.queryStart, a.queryEnd, a.queryIdx, a.targetStart, a.targetEnd, a.targetIdx,
     a.score, a.value, |a.path|]
  }

  const HEADER_FIELDS: nat := 9

  /** Consecutive `int` fields. */
  function EncodeInts(xs: seq<int32>): (r: seq<byte>)
    ensures |r| == INT_SIZE * |xs|
  {
    if xs == [] then [] else EncodeInt32(xs[0]) + EncodeInts(xs[1..])
  }

  /** The record layout: the header fields, then the path bytes. */
  function EncodeRecord(a: DbAlignment): (r: seq<byte>)
    ensures |r| == RecordSize(a)
  {
    EncodeInts(Header(a)) + a.path
  }

  /** The rest of a record read from `s`, the bytes after the header fields
      already read (`fields`, in wire order): the remaining fields one `int`
      at a time, then `pathLen` path bytes. The query and target indices are
      resolved against collections of `queriesLen` and `databaseLen` entries. */
  function ReadRecord(s: seq<byte>, fields: seq<int32>, queriesLen: nat, databaseLen: nat): (r: Result<DbAlignment>)
    requires |fields| <= HEADER_FIELDS
    ensures r.Ok? ==> INT_SIZE * (HEADER_FIELDS - |fields|) + |r.value.path| <= |s|
    ensures r.Ok? ==> 0 <= r.value.queryIdx < queriesLen && 0 <= r.value.targetIdx < databaseLen
    decreases HEADER_FIELDS - |fields|
  {
    if |fields| < HEADER_FIELDS then
      if |s| < INT_SIZE then Err(Truncated)
      else ReadRecord(s[INT_SIZE..], fields + [DecodeInt32(s[..INT_SIZE])], queriesLen, databaseLen)
    else
      var pathLen := fields[8];
      if pathLen < 0 then Err(NegativeLength)
      else if |s| < pathLen then Err(Truncated)
      else if !(0 <= fields[2] < queriesLen && 0 <= fields[5] < databaseLen) then Err(IndexOutOfRange)
      else Ok(DbAlignment(fields[0], fields[1], fields[2], fields[3], fields[4], fields[5],
                          fields[6], fields[7], s[..pathLen]))
  }

  /** Reads one record from the front of `s`. */
  function DecodeRecord(s: seq<byte>, queriesLen: nat, databaseLen: nat): (r: Result<DbAlignment>)
    ensures r.Ok? ==> FIXED_SIZE + |r.value.path| <= |s|
    ensures r.Ok? ==> 0 <= r.value.queryIdx < queriesLen && 0 <= r.value.targetIdx < databaseLen
  {
    ReadRecord(s, [], queriesLen, databaseLen)
  }

  /** One header field read off the front. */
  lemma ReadRecordStep(s: seq<byte>, fields: seq<int32>, x: int32, tail: seq<byte>, queriesLen: nat, databaseLen: nat)
    requires |fields| < HEADER_FIELDS && s == EncodeInt32(x) + tail
    ensures ReadRecord(s, fields, queriesLen, databaseLen) == ReadRecord(tail, fields + [x], queriesLen, databaseLen)
  {
    assert s[..INT_SIZE] == EncodeInt32(x);
    assert s[INT_SIZE..] == tail;
    Int32RoundTrip(x);
  }

  /** With every header field read, the path follows. */
  lemma ReadRecordEnd(a: DbAlignment, rest: seq<byte>, queriesLen: nat, databaseLen: nat)
    ensures ReadRecord(a.path + rest, Header(a), queriesLen, databaseLen)
      == if 0 <= a.queryIdx < queriesLen && 0 <= a.targetIdx < databaseLen then Ok(a) else Err(IndexOutOfRange)
  {
    assert (a.path + rest)[..|a.path|] == a.path;
  }

  /** Reading encoded header fields from `k` on yields those fields, and
      leaves the bytes after them to be read. */
  lemma {:induction false} ReadFields(h: seq<int32>, k: nat, tail: seq<byte>, queriesLen: nat, databaseLen: nat)
    requires |h| == HEADER_FIELDS && k <= HEADER_FIELDS
    ensures ReadRecord(EncodeInts(h[k..]) + tail, h[..k], queriesLen, databaseLen)
      == ReadRecord(tail, h, queriesLen, databaseLen)
    decreases HEADER_FIELDS - k
  {
    if k < HEADER_FIELDS {
      assert h[k..][1..] == h[k + 1..];
      var next := EncodeInts(h[k + 1..]) + tail;
      assert EncodeInts(h[k..]) + tail == EncodeInt32(h[k]) + next;
      ReadRecordStep(EncodeInts(h[k..]) + tail, h[..k], h[k], next, queriesLen, databaseLen);
      assert h[..k] + [h[k]] == h[..k + 1];
      ReadFields(h, k + 1, tail, queriesLen, databaseLen);
    } else {
      assert h[k..] == [] && h[..k] == h;
      assert EncodeInts(h[k..]) + tail == tail;
    }
  }

  /** Reading an encoded record gives back the record, or refuses it when an
      index is out of range. */
  lemma ReadRoundTrip(a: DbAlignment, rest: seq<byte>, queriesLen: nat, databaseLen: nat)
    ensures DecodeRecord(EncodeRecord(a) + rest, queriesLen, databaseLen)
      == if 0 <= a.queryIdx < queriesLen && 0 <= a.targetIdx < databaseLen then Ok(a) else Err(IndexOutOfRange)
  {
    var h := Header(a);
    ReadFields(h, 0, a.path + rest, queriesLen, databaseLen);
    assert h[0..] == h && h[..0] == [];
    assert EncodeRecord(a) + rest == EncodeInts(h[0..]) + (a.path + rest);
    ReadRecordEnd(a, rest, queriesLen, databaseLen);
  }

  /** Decoding what was encoded gives back every field and the path, whatever
      bytes follow the record, as long as both indices are in range. */
  lemma RecordRoundTrip(a: DbAlignment, rest: seq<byte>, queriesLen: nat, databaseLen: nat)
    requires 0 <= a.queryIdx < queriesLen && 0 <= a.targetIdx < databaseLen
    ensures DecodeRecord(EncodeRecord(a) + rest, queriesLen, databaseLen) == Ok(a)
  {
    ReadRoundTrip(a, rest, queriesLen, databaseLen);
  }

  /** A record whose query or target index is outside the collections is refused. */
  lemma BadIndexRefused(a: DbAlignment, rest: seq<byte>, queriesLen: nat, databaseLen: nat)
    requires !(0 <= a.queryIdx < queriesLen && 0 <= a.targetIdx < databaseLen)
    ensures DecodeRecord(EncodeRecord(a) + rest, queriesLen, databaseLen) == Err(IndexOutOfRange)
  {
    ReadRoundTrip(a, rest, queriesLen, databaseLen);
  }

  /** Fewer bytes than the header fields still to read: the record is truncated. */
  lemma {:induction false} ShortHeader(s: seq<byte>, fields: seq<int32>, queriesLen: nat, databaseLen: nat)
    requires |fields| <= HEADER_FIELDS && |s| < INT_SIZE * (HEADER_FIELDS - |fields|)
    ensures ReadRecord(s, fields, queriesLen, databaseLen) == Err(Truncated)
    decreases HEADER_FIELDS - |fields|
  {
    if INT_SIZE <= |s| {
      ShortHeader(s[INT_SIZE..], fields + [DecodeInt32(s[..INT_SIZE])], queriesLen, databaseLen);
    }
  }

  /** The record is the nine fields, four bytes each and in wire order
      (field `k` at byte `INT_SIZE * k`), followed by the path. */
  lemma RecordLayout(a: DbAlignment)
    ensures forall k :: 0 <= k < HEADER_FIELDS ==>
      EncodeRecord(a)[INT_SIZE * k..INT_SIZE * k + INT_SIZE] == EncodeInt32(Header(a)[k])
    ensures EncodeRecord(a)[FIXED_SIZE..] == a.path
  {
    var h := Header(a);
    forall k | 0 <= k < HEADER_FIELDS
      ensures EncodeRecord(a)[INT_SIZE * k..INT_SIZE * k + INT_SIZE] == EncodeInt32(h[k])
    {
      EncodeIntsAt(h, k);
    }
  }

  /** Field `k` of consecutive fields sits at byte `INT_SIZE * k`. */
  lemma {:induction false} EncodeIntsAt(xs: seq<int32>, k: nat)
    requires k < |xs|
    ensures EncodeInts(xs)[INT_SIZE * k..INT_SIZE * k + INT_SIZE] == EncodeInt32(xs[k])
  {
    var head, tail := EncodeInt32(xs[0]), EncodeInts(xs[1..]);
    if k > 0 {
      EncodeIntsAt(xs[1..], k - 1);
      assert (head + tail)[INT_SIZE * k..INT_SIZE * k + INT_SIZE] == tail[INT_SIZE * (k - 1)..INT_SIZE * (k - 1) + INT_SIZE];
    } else {
      assert (head + tail)[..INT_SIZE] == head;
    }
  }

  /** Appending a field appends its four bytes. */
  lemma {:induction false} EncodeIntsSnoc(xs: seq<int32>, x: int32)
    ensures EncodeInts(xs + [x]) == EncodeInts(xs) + EncodeInt32(x)
  {
    if xs == [] {
      assert [x][1..] == [];
      assert xs + [x] == [x];
    } else {
      assert (xs + [x])[1..] == xs[1..] + [x];
      EncodeIntsSnoc(xs[1..], x);
    }
  }

  /** The first `k + 1` fields are the first `k` followed by field `k`. */
  lemma EncodeIntsPrefix(h: seq<int32>, k: nat)
    requires k < |h|
    ensures EncodeInts(h[..k + 1]) == EncodeInts(h[..k]) + EncodeInt32(h[k])
  {
    assert h[..k + 1] == h[..k] + [h[k]];
    EncodeIntsSnoc(h[..k], h[k]);
  }

  /** `dbAlignmentToBytes`: allocates `size` bytes and copies the fields in at
      a moving write position. */
  method DbAlignmentToBytes(a: DbAlignment) returns (bytes: array<byte>, size: nat)
    ensures fresh(bytes)
    ensures size == bytes.Length == RecordSize(a)
    ensures bytes[..] == EncodeRecord(a)
  {
    size := FIXED_SIZE + |a.path|;
    bytes := new byte[size];
    var ptr := PutHeader(bytes, a);
    CopyInto(bytes, ptr, a.path);
    assert bytes[..] == bytes[..ptr + |a.path|];
  }

  /** The nine field writes of `dbAlignmentToBytes`, each at the moving write
      position. */
  method PutHeader(bytes: array<byte>, a: DbAlignment) returns (ptr: nat)
    requires FIXED_SIZE <= bytes.Length
    modifies bytes
    ensures ptr == FIXED_SIZE
    ensures bytes[..ptr] == EncodeInts(Header(a))
  {
    ptr := 0;
    assert Header(a)[..0] == [];
    ptr := PutField(bytes, ptr, a, 0);  // queryStart
    ptr := PutField(bytes, ptr, a, 1);  // queryEnd
    ptr := PutField(bytes, ptr, a, 2);  // queryIdx
    ptr := PutField(bytes, ptr, a, 3);  // targetStart
    ptr := PutField(bytes, ptr, a, 4);  // targetEnd
    ptr := PutField(bytes, ptr, a, 5);  // targetIdx
    ptr := PutField(bytes, ptr, a, 6);  // score
    ptr := PutField(bytes, ptr, a, 7);  // value
    ptr := PutField(bytes, ptr, a, 8);  // pathLen
    assert Header(a)[..9] == Header(a);
  }

  /** Writes header field `k` of `a` after the `k` fields already written. */
  method PutField(bytes: array<byte>, ptr: nat, a: DbAlignment, k: nat) returns (next: nat)
    requires k < HEADER_FIELDS && ptr == INT_SIZE * k && ptr + INT_SIZE <= bytes.Length
    requires bytes[..ptr] == EncodeInts(Header(a)[..k])
    modifies bytes
    ensures next == ptr + INT_SIZE
    ensures bytes[..next] == EncodeInts(Header(a)[..k + 1])
  {
    next := PutInt(bytes, ptr, Header(a)[k]);
    EncodeIntsPrefix(Header(a), k);
  }

  /** One `memcpy` of an `int` field out of `bytes + ptr`. */
  function GetInt(bytes: seq<byte>, ptr: nat): int32
    requires ptr + INT_SIZE <= |bytes|
  {
    DecodeInt32(bytes[ptr..ptr + INT_SIZE])
  }

  /** Reading the `int` at `ptr` moves the reader on by one field. */
  lemma ReadStep(bytes: seq<byte>, ptr: nat, fields: seq<int32>, queriesLen: nat, databaseLen: nat)
    requires |fields| < HEADER_FIELDS && ptr + INT_SIZE <= |bytes|
    ensures ReadRecord(bytes[ptr..], fields, queriesLen, databaseLen)
      == ReadRecord(bytes[ptr + INT_SIZE..], fields + [GetInt(bytes, ptr)], queriesLen, databaseLen)
  {
    assert bytes[ptr..][..INT_SIZE] == bytes[ptr..ptr + INT_SIZE];
    assert bytes[ptr..][INT_SIZE..] == bytes[ptr + INT_SIZE..];
  }

  /** One `memcpy` of an `int` field at `ptr`, followed by `ptr += sizeof(int)`. */
  method PutInt(bytes: array<byte>, ptr: nat, x: int32) returns (next: nat)
    requires ptr + INT_SIZE <= bytes.Length
    modifies bytes
    ensures next == ptr + INT_SIZE
    ensures bytes[..next] == old(bytes[..ptr]) + EncodeInt32(x)
  {
    next := Append(bytes, ptr, EncodeInt32(x));
  }

  /** The nine `int` reads of `dbAlignmentFromBytes`, at byte `INT_SIZE * k`
      for field `k`, are the header fields the reader takes in. */
  lemma HeaderRead(bytes: seq<byte>, queriesLen: nat, databaseLen: nat)
    requires FIXED_SIZE <= |bytes|
    ensures DecodeRecord(bytes, queriesLen, databaseLen)
      == ReadRecord(bytes[FIXED_SIZE..],
                    [GetInt(bytes, 0), GetInt(bytes, 4), GetInt(bytes, 8), GetInt(bytes, 12), GetInt(bytes, 16),
                     GetInt(bytes, 20), GetInt(bytes, 24), GetInt(bytes, 28), GetInt(bytes, 32)],
                    queriesLen, databaseLen)
  {
    ReadHeaderFrom(bytes, 0, queriesLen, databaseLen);
    assert bytes[0..] == bytes && HeaderAt(bytes)[..0] == [];
    HeaderAtFields(bytes);
  }

  /** The nine `int` fields at the front of `bytes`, field `k` at byte
      `INT_SIZE * k`. */
  function HeaderAt(bytes: seq<byte>): (h: seq<int32>)
    requires FIXED_SIZE <= |bytes|
    ensures |h| == HEADER_FIELDS
  {
    seq(HEADER_FIELDS, k requires 0 <= k < HEADER_FIELDS => GetInt(bytes, INT_SIZE * k))
  }

  /** Reading the header from field `k` on takes in the fields at their
      offsets and stops after byte `FIXED_SIZE`. */
  lemma {:induction false} ReadHeaderFrom(bytes: seq<byte>, k: nat, queriesLen: nat, databaseLen: nat)
    requires FIXED_SIZE <= |bytes| && k <= HEADER_FIELDS
    ensures ReadRecord(bytes[INT_SIZE * k..], HeaderAt(bytes)[..k], queriesLen, databaseLen)
      == ReadRecord(bytes[FIXED_SIZE..], HeaderAt(bytes), queriesLen, databaseLen)
    decreases HEADER_FIELDS - k
  {
    if k < HEADER_FIELDS {
      ReadFieldAt(bytes, k, queriesLen, databaseLen);
      ReadHeaderFrom(bytes, k + 1, queriesLen, databaseLen);
    } else {
      assert HeaderAt(bytes)[..k] == HeaderAt(bytes);
    }
  }

  /** Reading field `k` of the header takes in the `int` at byte `INT_SIZE * k`. */
  lemma ReadFieldAt(bytes: seq<byte>, k: nat, queriesLen: nat, databaseLen: nat)
    requires FIXED_SIZE <= |bytes| && k < HEADER_FIELDS
    ensures ReadRecord(bytes[INT_SIZE * k..], HeaderAt(bytes)[..k], queriesLen, databaseLen)
      == ReadRecord(bytes[INT_SIZE * (k + 1)..], HeaderAt(bytes)[..k + 1], queriesLen, databaseLen)
  {
    var h, ptr := HeaderAt(bytes), INT_SIZE * k;
    ReadStep(bytes, ptr, h[..k], queriesLen, databaseLen);
    TakeSnoc(h, k);
    assert h[k] == GetInt(bytes, ptr) && ptr + INT_SIZE == INT_SIZE * (k + 1);
  }

  lemma TakeSnoc<T>(s: seq<T>, k: nat)
    requires k < |s|
    ensures s[..k] + [s[k]] == s[..k + 1]
  {
  }

  lemma HeaderAtFields(bytes: seq<byte>)
    requires FIXED_SIZE <= |bytes|
    ensures HeaderAt(bytes) == [GetInt(bytes, 0), GetInt(bytes, 4), GetInt(bytes, 8), GetInt(bytes, 12), GetInt(bytes, 16),
                                GetInt(bytes, 20), GetInt(bytes, 24), GetInt(bytes, 28), GetInt(bytes, 32)]
  {
  }

  /** `dbAlignmentFromBytes`: reads the fields at a moving read position from
      the bytes the record starts at, and copies the path out. */
  method DbAlignmentFromBytes(bytes: seq<byte>, queriesLen: nat, databaseLen: nat)
    returns (r: Result<DbAlignment>)
    ensures r == DecodeRecord(bytes, queriesLen, databaseLen)
  {
    if |bytes| < FIXED_SIZE {
      ShortHeader(bytes, [], queriesLen, databaseLen);
      return Err(Truncated);
    }
    HeaderRead(bytes, queriesLen, databaseLen);
    var ptr := 0;
    var queryStart := GetInt(bytes, ptr);
    ptr := ptr + INT_SIZE;
    var queryEnd := GetInt(bytes, ptr);
    ptr := ptr + INT_SIZE;
    var queryIdx := GetInt(bytes, ptr);
    ptr := ptr + INT_SIZE;
    var targetStart := GetInt(bytes, ptr);
    ptr := ptr + INT_SIZE;
    var targetEnd := GetInt(bytes, ptr);
    ptr := ptr + INT_SIZE;
    var targetIdx := GetInt(bytes, ptr);
    ptr := ptr + INT_SIZE;
    var score := GetInt(bytes, ptr);
    ptr := ptr + INT_SIZE;
    var value := GetInt(bytes, ptr);
    ptr := ptr + INT_SIZE;
    var pathLen := GetInt(bytes, ptr);
    ptr := ptr + INT_SIZE;
    if pathLen < 0 {
      return Err(NegativeLength);
    }
    if |bytes| - ptr < pathLen {
      return Err(Truncated);
    }
    var path := bytes[ptr..ptr + pathLen];
    if !(0 <= queryIdx < queriesLen && 0 <= targetIdx < databaseLen) {
      return Err(IndexOutOfRange);
    }
    assert path == bytes[FIXED_SIZE..][..pathLen];
    r := Ok(DbAlignment(queryStart, queryEnd, queryIdx, targetStart, targetEnd, targetIdx, score, value, path));
  }
}
