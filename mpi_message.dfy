/** The message one node sends to the master: for every query, in the fixed
    query order, an `int` record count followed by that many (`size_t` size,
    record) pairs. `SendMpiData` builds it in a growable buffer; `DecodeNode`
    is how the master reads it back. */
module MpiMessage {
  import opened Bytes
  import opened MpiCodec

  /** One query's results on one node; its length travels as an `int`. */
  type RecordList = l: seq<DbAlignment> | |l| < 0x8000_0000

  /** `bufferStep` in `sendMpiData`: the initial capacity and the slack added
      on every growth. */
  const BUFFER_STEP: nat := 4096

  /** A record preceded by its `size_t` size. */
  function EncodeEntry(a: DbAlignment): (r: seq<byte>)
    ensures |r| == SIZE_T_SIZE + RecordSize(a)
  {
    EncodeSize(RecordSize(a)) + EncodeRecord(a)
  }

  function EncodeList(recs: seq<DbAlignment>): seq<byte>
  {
    if recs == [] then [] else EncodeEntry(recs[0]) + EncodeList(recs[1..])
  }

  function EncodeMessage(lists: seq<RecordList>): seq<byte>
  {
    if lists == [] then [] else EncodeInt32(|lists[0]|) + EncodeList(lists[0]) + EncodeMessage(lists[1..])
  }

  /** Bytes taken by one query's part of the message, not counting its count. */
  function ListSize(recs: seq<DbAlignment>): nat
  {
    if recs == [] then 0 else SIZE_T_SIZE + RecordSize(recs[0]) + ListSize(recs[1..])
  }

  /** The sum over queries of sizeof(int) plus, per record, sizeof(size_t)
      plus the record's size. */
  function MessageSize(lists: seq<RecordList>): nat
  {
    if lists == [] then 0 else INT_SIZE + ListSize(lists[0]) + MessageSize(lists[1..])
  }

  lemma {:induction false} ListLength(recs: seq<DbAlignment>)
    ensures |EncodeList(recs)| == ListSize(recs)
  {
    if recs != [] {
      ListLength(recs[1..]);
    }
  }

  lemma {:induction false} MessageLength(lists: seq<RecordList>)
    ensures |EncodeMessage(lists)| == MessageSize(lists)
  {
    if lists != [] {
      ListLength(lists[0]);
      MessageLength(lists[1..]);
    }
  }

  lemma {:induction false} ListSnoc(recs: seq<DbAlignment>, a: DbAlignment)
    ensures EncodeList(recs + [a]) == EncodeList(recs) + EncodeEntry(a)
    ensures ListSize(recs + [a]) == ListSize(recs) + SIZE_T_SIZE + RecordSize(a)
  {
    if recs == [] {
      assert [a][1..] == [];
    } else {
      assert (recs + [a])[1..] == recs[1..] + [a];
      ListSnoc(recs[1..], a);
    }
  }

  /** The bytes of the first `j + 1` entries extend those of the first `j`. */
  lemma ListPrefix(prefix: seq<byte>, recs: seq<DbAlignment>, j: nat)
    requires j < |recs|
    ensures prefix + EncodeList(recs[..j]) + EncodeEntry(recs[j]) == prefix + EncodeList(recs[..j + 1])
  {
    assert recs[..j + 1] == recs[..j] + [recs[j]];
    ListSnoc(recs[..j], recs[j]);
  }

  lemma {:induction false} MessageSnoc(lists: seq<RecordList>, l: RecordList)
    ensures EncodeMessage(lists + [l]) == EncodeMessage(lists) + EncodeInt32(|l|) + EncodeList(l)
    ensures MessageSize(lists + [l]) == MessageSize(lists) + INT_SIZE + ListSize(l)
  {
    if lists == [] {
      assert [l][1..] == [];
    } else {
      assert (lists + [l])[1..] == lists[1..] + [l];
      MessageSnoc(lists[1..], l);
    }
  }

  /** `sendMpiData` up to the two sends: the buffer starts at `BUFFER_STEP`
      bytes and, whenever the running size reaches the capacity, grows to the
      running size plus `BUFFER_STEP`. Returns the length sent first, the
      payload sent second, and the final capacity of the buffer. */
  method SendMpiData(lists: seq<RecordList>) returns (size: nat, message: seq<byte>, capacity: nat)
    ensures message == EncodeMessage(lists)
    ensures size == |message| == MessageSize(lists)
    ensures size < capacity <= size + BUFFER_STEP
  {
    var bufferSize := BUFFER_STEP;
    var realSize: nat := 0;
    var buffer := new byte[bufferSize];
    var ptr: nat := 0;
    for i := 0 to |lists|
      invariant fresh(buffer)
      invariant ptr == realSize && buffer.Length == bufferSize
      invariant realSize < bufferSize <= realSize + BUFFER_STEP
      invariant buffer[..ptr] == EncodeMessage(lists[..i])
    {
      realSize := realSize + INT_SIZE;
      buffer, bufferSize := Reserve(buffer, bufferSize, realSize, ptr);
      ptr := Append(buffer, ptr, EncodeInt32(|lists[i]|));
      buffer, bufferSize, realSize, ptr := AppendRecords(buffer, bufferSize, realSize, ptr, lists[i]);
      assert lists[..i + 1] == lists[..i] + [lists[i]];
      MessageSnoc(lists[..i], lists[i]);
    }
    assert lists[..|lists|] == lists;
    MessageLength(lists);
    size := realSize;
    message := buffer[..realSize];
    capacity := bufferSize;
  }

  /** The inner loop of `sendMpiData`: appends each record of one query. */
  method AppendRecords(buffer: array<byte>, bufferSize: nat, realSize: nat, ptr: nat, recs: seq<DbAlignment>)
    returns (buffer': array<byte>, bufferSize': nat, realSize': nat, ptr': nat)
    requires ptr == realSize && buffer.Length == bufferSize
    requires realSize < bufferSize <= realSize + BUFFER_STEP
    modifies buffer
    ensures buffer' == buffer || fresh(buffer')
    ensures ptr' == realSize' && buffer'.Length == bufferSize'
    ensures realSize' < bufferSize' <= realSize' + BUFFER_STEP
    ensures buffer'[..ptr'] == old(buffer[..ptr]) + EncodeList(recs)
  {
    buffer', bufferSize', realSize', ptr' := buffer, bufferSize, realSize, ptr;
    ghost var prefix := buffer[..ptr];
    for j := 0 to |recs|
      invariant buffer' == buffer || fresh(buffer')
      invariant ptr' == realSize' && buffer'.Length == bufferSize'
      invariant realSize' < bufferSize' <= realSize' + BUFFER_STEP
      invariant buffer'[..ptr'] == prefix + EncodeList(recs[..j])
    {
      buffer', bufferSize', realSize', ptr' := AppendRecord(buffer', bufferSize', realSize', ptr', recs[j]);
      ListPrefix(prefix, recs, j);
    }
    assert recs[..|recs|] == recs;
  }

  /** One iteration of that loop: serialise the record, add `sizeof(size_t)`
      and its size to the running size, grow if needed, then write the size
      and the bytes at the cursor. */
  method AppendRecord(buffer: array<byte>, bufferSize: nat, realSize: nat, ptr: nat, a: DbAlignment)
    returns (buffer': array<byte>, bufferSize': nat, realSize': nat, ptr': nat)
    requires ptr == realSize && buffer.Length == bufferSize
    requires realSize < bufferSize <= realSize + BUFFER_STEP
    modifies buffer
    ensures buffer' == buffer || fresh(buffer')
    ensures ptr' == realSize' && buffer'.Length == bufferSize'
    ensures realSize' < bufferSize' <= realSize' + BUFFER_STEP
    ensures buffer'[..ptr'] == old(buffer[..ptr]) + EncodeEntry(a)
    ensures realSize' == realSize + SIZE_T_SIZE + RecordSize(a)
  {
    var bytes, bytesSize := DbAlignmentToBytes(a);

    realSize' := realSize + SIZE_T_SIZE;
    realSize' := realSize' + bytesSize;
    buffer', bufferSize' := Reserve(buffer, bufferSize, realSize', ptr);

    ptr' := Append(buffer', ptr, EncodeSize(bytesSize));
    ptr' := Append(buffer', ptr', bytes[..]);
  }

  /** The growth check that precedes every write in `sendMpiData`: once the
      running size `realSize` has reached the capacity, the buffer is
      reallocated to `realSize + BUFFER_STEP` bytes, keeping its first `ptr`. */
  method Reserve(buffer: array<byte>, bufferSize: nat, realSize: nat, ptr: nat)
    returns (grown: array<byte>, grownSize: nat)
    requires buffer.Length == bufferSize && ptr <= bufferSize
    ensures grown.Length == grownSize
    ensures grownSize == if realSize >= bufferSize then realSize + BUFFER_STEP else bufferSize
    ensures grown[..ptr] == buffer[..ptr]
    ensures grown == buffer || fresh(grown)
  {
    grown, grownSize := buffer, bufferSize;
    if realSize >= bufferSize {
      grownSize := bufferSize + (realSize - bufferSize) + BUFFER_STEP;
      grown := Grow(buffer, grownSize);
      assert grown[..ptr] == grown[..buffer.Length][..ptr];
    }
  }

  /** The unread bytes after the read position moves on by `n`. The C code
      moves its pointer without a check; once it is past the end nothing more
      can be read, which is what an empty remainder says. */
  function Skip(s: seq<byte>, n: nat): (r: seq<byte>)
    ensures |r| <= |s|
  {
    if n <= |s| then s[n..] else []
  }

  /** Reads `count` (size, record) pairs from the front of `s`. Returns the
      records, each of which resolves in the collections, and the bytes
      still unread. */
  function DecodeRecords(s: seq<byte>, count: nat, queriesLen: nat, databaseLen: nat)
    : (r: Result<(seq<DbAlignment>, seq<byte>)>)
    ensures r.Ok? ==> |r.value.0| == count && RecordIndicesIn(r.value.0, queriesLen, databaseLen)
    decreases count, 1
  {
    if count == 0 then Ok(([], s))
    else DecodeEntries(s, count, queriesLen, databaseLen)
  }

  /** `DecodeRecords` for at least one pair: the record of the first pair is
      decoded where it starts, then the read position moves on by the size
      that precedes it, and the other `count - 1` pairs follow. */
  function DecodeEntries(s: seq<byte>, count: nat, queriesLen: nat, databaseLen: nat)
    : (r: Result<(seq<DbAlignment>, seq<byte>)>)
    requires count > 0
    ensures r.Ok? ==> |r.value.0| == count && RecordIndicesIn(r.value.0, queriesLen, databaseLen)
    decreases count, 0
  {
    if |s| < SIZE_T_SIZE then Err(Truncated)
    else
      var bytesSize := DecodeNat(s[..SIZE_T_SIZE]);
      var a :- DecodeRecord(s[SIZE_T_SIZE..], queriesLen, databaseLen);
      var (rest, unread) :- DecodeRecords(Skip(s, SIZE_T_SIZE + bytesSize), count - 1, queriesLen, databaseLen);
      Ok(([a] + rest, unread))
  }

  /** Reads the lists of `queries` queries from the front of `s`: an `int`
      count, then that many entries, per query. Returns one list per query
      and the bytes still unread. */
  function DecodeQueries(s: seq<byte>, queries: nat, queriesLen: nat, databaseLen: nat)
    : (r: Result<(seq<seq<DbAlignment>>, seq<byte>)>)
    ensures r.Ok? ==> |r.value.0| == queries && IndicesIn(r.value.0, queriesLen, databaseLen)
    decreases queries, 1
  {
    if queries == 0 then Ok(([], s))
    else DecodeLists(s, queries, queriesLen, databaseLen)
  }

  /** `DecodeQueries` for at least one query: the first query's count and
      list, then the lists of the other `queries - 1`. */
  function DecodeLists(s: seq<byte>, queries: nat, queriesLen: nat, databaseLen: nat)
    : (r: Result<(seq<seq<DbAlignment>>, seq<byte>)>)
    requires queries > 0
    ensures r.Ok? ==> |r.value.0| == queries && IndicesIn(r.value.0, queriesLen, databaseLen)
    decreases queries, 0
  {
    if |s| < INT_SIZE then Err(Truncated)
    else
      var length := DecodeInt32(s[..INT_SIZE]);
      if length < 0 then Err(NegativeLength)
      else
        var (recs, next) :- DecodeRecords(s[INT_SIZE..], length, queriesLen, databaseLen);
        var (lists, unread) :- DecodeQueries(next, queries - 1, queriesLen, databaseLen);
        Ok(([recs] + lists, unread))
  }

  /** The master's reading of one node's message: one list per query, every
      record of which resolves in the collections. */
  function DecodeNode(message: seq<byte>, queriesLen: nat, databaseLen: nat): (r: Result<seq<seq<DbAlignment>>>)
    ensures r.Ok? ==> |r.value| == queriesLen && IndicesIn(r.value, queriesLen, databaseLen)
  {
    var (lists, _) :- DecodeQueries(message, queriesLen, queriesLen, databaseLen);
    Ok(lists)
  }

  /** Every record's query and target index resolves in the collections. */
  predicate IndicesIn(lists: seq<seq<DbAlignment>>, queriesLen: nat, databaseLen: nat)
  {
    forall i, j :: 0 <= i < |lists| && 0 <= j < |lists[i]| ==>
      0 <= lists[i][j].queryIdx < queriesLen && 0 <= lists[i][j].targetIdx < databaseLen
  }

  predicate RecordIndicesIn(recs: seq<DbAlignment>, queriesLen: nat, databaseLen: nat)
  {
    forall j :: 0 <= j < |recs| ==> 0 <= recs[j].queryIdx < queriesLen && 0 <= recs[j].targetIdx < databaseLen
  }

  /** Splitting `a + b` after `a`. */
  lemma AppendParts(a: seq<byte>, b: seq<byte>)
    ensures (a + b)[..|a|] == a
    ensures (a + b)[|a|..] == b
  {
  }

  lemma ListParts(recs: seq<DbAlignment>, rest: seq<byte>)
    requires recs != []
    ensures EncodeList(recs) + rest == EncodeEntry(recs[0]) + (EncodeList(recs[1..]) + rest)
  {
  }

  lemma MessageParts(lists: seq<RecordList>, rest: seq<byte>)
    requires lists != []
    ensures EncodeMessage(lists) + rest
         == EncodeInt32(|lists[0]|) + (EncodeList(lists[0]) + (EncodeMessage(lists[1..]) + rest))
  {
  }

  /** One (size, record) pair reads back as its size and its record. */
  lemma EntryRoundTrip(a: DbAlignment, rest: seq<byte>, queriesLen: nat, databaseLen: nat)
    requires 0 <= a.queryIdx < queriesLen && 0 <= a.targetIdx < databaseLen
    ensures var s := EncodeEntry(a) + rest;
      && |s| >= SIZE_T_SIZE
      && DecodeNat(s[..SIZE_T_SIZE]) == RecordSize(a)
      && DecodeRecord(s[SIZE_T_SIZE..], queriesLen, databaseLen) == Ok(a)
      && Skip(s, SIZE_T_SIZE + DecodeNat(s[..SIZE_T_SIZE])) == rest
  {
    var size := EncodeSize(RecordSize(a));
    var s := EncodeEntry(a) + rest;
    assert s == size + (EncodeRecord(a) + rest);
    AppendParts(size, EncodeRecord(a) + rest);
    SizeRoundTrip(RecordSize(a));
    RecordRoundTrip(a, rest, queriesLen, databaseLen);
    assert s[SIZE_T_SIZE + RecordSize(a)..] == rest;
  }

  /** One unfolding of `DecodeRecords` once the first record is known. */
  lemma RecordsStep(s: seq<byte>, queriesLen: nat, databaseLen: nat, recs: seq<DbAlignment>, unread: seq<byte>)
    requires recs != [] && |s| >= SIZE_T_SIZE
    requires DecodeRecord(s[SIZE_T_SIZE..], queriesLen, databaseLen) == Ok(recs[0])
    requires DecodeRecords(Skip(s, SIZE_T_SIZE + DecodeNat(s[..SIZE_T_SIZE])), |recs[1..]|, queriesLen, databaseLen)
          == Ok((recs[1..], unread))
    ensures DecodeRecords(s, |recs|, queriesLen, databaseLen) == Ok((recs, unread))
  {
    assert [recs[0]] + recs[1..] == recs;
  }

  /** One unfolding of `DecodeQueries` once the first list is known. */
  lemma QueriesStep(count: seq<byte>, tail: seq<byte>, queriesLen: nat, databaseLen: nat,
                    lists: seq<seq<DbAlignment>>, next: seq<byte>, unread: seq<byte>)
    requires lists != [] && |count| == INT_SIZE
    requires DecodeInt32(count) == |lists[0]|
    requires DecodeRecords(tail, |lists[0]|, queriesLen, databaseLen) == Ok((lists[0], next))
    requires DecodeQueries(next, |lists[1..]|, queriesLen, databaseLen) == Ok((lists[1..], unread))
    ensures DecodeQueries(count + tail, |lists|, queriesLen, databaseLen) == Ok((lists, unread))
  {
    AppendParts(count, tail);
    assert [lists[0]] + lists[1..] == lists;
  }

  lemma {:induction false} RecordsRoundTrip(recs: seq<DbAlignment>, rest: seq<byte>, queriesLen: nat, databaseLen: nat)
    requires RecordIndicesIn(recs, queriesLen, databaseLen)
    ensures DecodeRecords(EncodeList(recs) + rest, |recs|, queriesLen, databaseLen) == Ok((recs, rest))
  {
    if recs != [] {
      var tail := EncodeList(recs[1..]) + rest;
      var s := EncodeEntry(recs[0]) + tail;
      ListParts(recs, rest);
      EntryRoundTrip(recs[0], tail, queriesLen, databaseLen);
      RecordsRoundTrip(recs[1..], rest, queriesLen, databaseLen);
      RecordsStep(s, queriesLen, databaseLen, recs, rest);
    } else {
      assert EncodeList(recs) + rest == rest;
    }
  }

  lemma {:induction false} QueriesRoundTrip(lists: seq<RecordList>, rest: seq<byte>, queriesLen: nat, databaseLen: nat)
    requires IndicesIn(lists, queriesLen, databaseLen)
    ensures DecodeQueries(EncodeMessage(lists) + rest, |lists|, queriesLen, databaseLen) == Ok((lists, rest))
  {
    if lists != [] {
      var count := EncodeInt32(|lists[0]|);
      var next := EncodeMessage(lists[1..]) + rest;
      var tail := EncodeList(lists[0]) + next;
      MessageParts(lists, rest);
      Int32RoundTrip(|lists[0]|);
      IndicesInParts(lists, queriesLen, databaseLen);
      RecordsRoundTrip(lists[0], next, queriesLen, databaseLen);
      QueriesRoundTrip(lists[1..], rest, queriesLen, databaseLen);
      QueriesStep(count, tail, queriesLen, databaseLen, lists, next, rest);
    } else {
      assert EncodeMessage(lists) + rest == rest;
    }
  }

  lemma IndicesInParts(lists: seq<seq<DbAlignment>>, queriesLen: nat, databaseLen: nat)
    requires lists != [] && IndicesIn(lists, queriesLen, databaseLen)
    ensures RecordIndicesIn(lists[0], queriesLen, databaseLen)
    ensures IndicesIn(lists[1..], queriesLen, databaseLen)
  {
    forall i, j | 0 <= i < |lists[1..]| && 0 <= j < |lists[1..][i]|
      ensures 0 <= lists[1..][i][j].queryIdx < queriesLen && 0 <= lists[1..][i][j].targetIdx < databaseLen
    {
      assert lists[1..][i] == lists[i + 1];
    }
  }

  /** The master reads back, query by query, the same counts and the same
      records that the node sent, provided every index resolves. */
  lemma MessageRoundTrip(lists: seq<RecordList>, databaseLen: nat)
    requires IndicesIn(lists, |lists|, databaseLen)
    ensures DecodeNode(EncodeMessage(lists), |lists|, databaseLen) == Ok(lists)
  {
    assert EncodeMessage(lists) + [] == EncodeMessage(lists);
    QueriesRoundTrip(lists, [], |lists|, databaseLen);
  }
}
