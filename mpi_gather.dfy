/** The master's half of `gatherMpiData`: read every node's message at a
    moving read position, join the lists of each query across nodes in rank
    order, sort each joined list by ranking value with `dbAlignmentCmp`, and
    keep the best `maxAlignments`. */
module MpiGather {
  import opened Bytes
  import opened MpiCodec
  import opened MpiMessage

  // ---------------------------------------------------------------------------
  // Reading a node's message

  /** A decoding result with `acc` put in front of what it decoded. */
  function Prepend<T>(acc: seq<T>, r: Result<(seq<T>, seq<byte>)>): (p: Result<(seq<T>, seq<byte>)>)
    ensures p.Ok? <==> r.Ok?
    ensures p.Ok? ==> p.value.0 == acc + r.value.0 && p.value.1 == r.value.1
    ensures p.Err? ==> p.error == r.error
  {
    match r
    case Ok((rest, unread)) => Ok((acc + rest, unread))
    case Err(e) => Err(e)
  }

  lemma PrependPrepend<T>(acc: seq<T>, x: T, r: Result<(seq<T>, seq<byte>)>)
    ensures Prepend(acc, Prepend([x], r)) == Prepend(acc + [x], r)
  {
    if r.Ok? {
      assert acc + ([x] + r.value.0) == (acc + [x]) + r.value.0;
    }
  }

  lemma PrependNil<T>(r: Result<(seq<T>, seq<byte>)>)
    ensures Prepend([], r) == r
  {
    if r.Ok? {
      assert [] + r.value.0 == r.value.0;
    }
  }

  /** The first entry read from the front of `t`. */
  lemma RecordsUnfold(t: seq<byte>, count: nat, queriesLen: nat, databaseLen: nat, a: DbAlignment)
    requires count > 0 && SIZE_T_SIZE <= |t|
    requires DecodeRecord(t[SIZE_T_SIZE..], queriesLen, databaseLen) == Ok(a)
    ensures DecodeEntries(t, count, queriesLen, databaseLen)
      == Prepend([a], DecodeRecords(Skip(t, SIZE_T_SIZE + DecodeNat(t[..SIZE_T_SIZE])), count - 1, queriesLen, databaseLen))
  {
  }

  lemma RecordsUnfoldErr(t: seq<byte>, count: nat, queriesLen: nat, databaseLen: nat)
    requires count > 0 && SIZE_T_SIZE <= |t|
    requires DecodeRecord(t[SIZE_T_SIZE..], queriesLen, databaseLen).Err?
    ensures DecodeEntries(t, count, queriesLen, databaseLen) == Err(DecodeRecord(t[SIZE_T_SIZE..], queriesLen, databaseLen).error)
  {
  }

  lemma RecordsTruncated(t: seq<byte>, count: nat, queriesLen: nat, databaseLen: nat)
    requires count > 0 && |t| < SIZE_T_SIZE
    ensures DecodeEntries(t, count, queriesLen, databaseLen) == Err(Truncated)
  {
  }

  lemma InvariantStep<T>(whole: Result<(seq<T>, seq<byte>)>, acc: seq<T>, here: Result<(seq<T>, seq<byte>)>,
                         x: T, rest: Result<(seq<T>, seq<byte>)>)
    requires whole == Prepend(acc, here) && here == Prepend([x], rest)
    ensures whole == Prepend(acc + [x], rest)
  {
    PrependPrepend(acc, x, rest);
  }

  /** One pass of the inner loop of the receive phase: a `size_t` size and a
      record read from the front of `unread` (the C code's `buffer + ptr`);
      the record is decoded where it starts, and `next` is what is left once
      the read position has moved on by the size. */
  method ReceiveEntry(unread: seq<byte>, ghost count: nat, queriesLen: nat, databaseLen: nat)
    returns (a: Result<DbAlignment>, next: seq<byte>)
    requires count > 0
    ensures DecodeEntries(unread, count, queriesLen, databaseLen)
      == if a.Ok? then Prepend([a.value], DecodeRecords(next, count - 1, queriesLen, databaseLen)) else Err(a.error)
  {
    if |unread| < SIZE_T_SIZE {
      RecordsTruncated(unread, count, queriesLen, databaseLen);
      return Err(Truncated), unread;
    }
    var bytesSize := DecodeNat(unread[..SIZE_T_SIZE]);
    a := DbAlignmentFromBytes(unread[SIZE_T_SIZE..], queriesLen, databaseLen);
    if a.Err? {
      RecordsUnfoldErr(unread, count, queriesLen, databaseLen);
      return a, unread;
    }
    RecordsUnfold(unread, count, queriesLen, databaseLen, a.value);
    next := Skip(unread, SIZE_T_SIZE + bytesSize);
  }

  /** The inner loop of the receive phase: `length` entries read from the
      front of `p`. `unread` is what follows the last entry. */
  method ReceiveRecords(p: seq<byte>, length: nat, queriesLen: nat, databaseLen: nat)
    returns (r: Result<seq<DbAlignment>>, unread: seq<byte>)
    ensures DecodeRecords(p, length, queriesLen, databaseLen)
      == if r.Ok? then Ok((r.value, unread)) else Err(r.error)
  {
    ghost var whole := DecodeRecords(p, length, queriesLen, databaseLen);
    var aligns: seq<DbAlignment> := [];
    unread := p;
    ghost var left := length;
    PrependNil(whole);
    for k := 0 to length
      invariant left == length - k
      invariant whole == Prepend(aligns, DecodeRecords(unread, left, queriesLen, databaseLen))
    {
      var a, next := ReceiveEntry(unread, left, queriesLen, databaseLen);
      if a.Err? {
        return Err(a.error), unread;
      }
      InvariantStep(whole, aligns, DecodeRecords(unread, left, queriesLen, databaseLen), a.value,
                    DecodeRecords(next, left - 1, queriesLen, databaseLen));
      aligns := aligns + [a.value];
      unread := next;
      left := left - 1;
    }
    assert aligns + [] == aligns;
    r := Ok(aligns);
  }

  /** One pass of the outer loop of the receive phase: the `int` count of one
      query's list at the front of `unread`, then the list. */
  method ReceiveQuery(unread: seq<byte>, ghost count: nat, queriesLen: nat, databaseLen: nat)
    returns (recs: Result<seq<DbAlignment>>, next: seq<byte>)
    requires count > 0
    ensures DecodeLists(unread, count, queriesLen, databaseLen)
      == if recs.Ok? then Prepend([recs.value], DecodeQueries(next, count - 1, queriesLen, databaseLen))
         else Err(recs.error)
  {
    if |unread| < INT_SIZE {
      return Err(Truncated), unread;
    }
    var length := DecodeInt32(unread[..INT_SIZE]);
    if length < 0 {
      return Err(NegativeLength), unread;
    }
    recs, next := ReceiveRecords(unread[INT_SIZE..], length, queriesLen, databaseLen);
  }

  /** The receive phase for one node: the lists of all `queriesLen` queries,
      read in query order from the node's message. */
  method ReceiveNode(buffer: seq<byte>, queriesLen: nat, databaseLen: nat)
    returns (r: Result<seq<seq<DbAlignment>>>)
    ensures r == DecodeNode(buffer, queriesLen, databaseLen)
  {
    ghost var whole := DecodeQueries(buffer, queriesLen, queriesLen, databaseLen);
    var lists: seq<seq<DbAlignment>> := [];
    var unread := buffer;
    ghost var left := queriesLen;
    PrependNil(whole);
    for j := 0 to queriesLen
      invariant left == queriesLen - j
      invariant whole == Prepend(lists, DecodeQueries(unread, left, queriesLen, databaseLen))
    {
      var recs, next := ReceiveQuery(unread, left, queriesLen, databaseLen);
      if recs.Err? {
        return Err(recs.error);
      }
      InvariantStep(whole, lists, DecodeQueries(unread, left, queriesLen, databaseLen), recs.value,
                    DecodeQueries(next, left - 1, queriesLen, databaseLen));
      lists := lists + [recs.value];
      unread := next;
      left := left - 1;
    }
    assert lists + [] == lists;
    r := Ok(lists);
  }

  // ---------------------------------------------------------------------------
  // All nodes

  /** Every node's lists, in rank order. When a message cannot be read, the
      lowest-ranked such node decides the error. */
  function DecodeAll(messages: seq<seq<byte>>, queriesLen: nat, databaseLen: nat)
    : (r: Result<seq<seq<seq<DbAlignment>>>>)
    ensures r.Ok? ==> |r.value| == |messages| && Shaped(r.value, queriesLen)
  {
    if messages == [] then Ok([])
    else
      var init :- DecodeAll(messages[..|messages| - 1], queriesLen, databaseLen);
      var last :- DecodeNode(messages[|messages| - 1], queriesLen, databaseLen);
      Ok(init + [last])
  }

  /** Every node holds one list per query. */
  predicate Shaped(all: seq<seq<seq<DbAlignment>>>, queriesLen: nat)
  {
    forall n :: 0 <= n < |all| ==> |all[n]| == queriesLen
  }

  /** Once a node's message cannot be read, reading more messages does not
      change the error. */
  lemma {:induction false} ErrorPersists(messages: seq<seq<byte>>, i: nat, j: nat, queriesLen: nat, databaseLen: nat)
    requires i <= j <= |messages|
    requires DecodeAll(messages[..i], queriesLen, databaseLen).Err?
    ensures DecodeAll(messages[..j], queriesLen, databaseLen) == DecodeAll(messages[..i], queriesLen, databaseLen)
    decreases j - i
  {
    if i < j {
      ErrorPersists(messages, i, j - 1, queriesLen, databaseLen);
      assert messages[..j][..j - 1] == messages[..j - 1];
    }
  }

  /** The messages are read independently: all of them are read when each
      node's message is, and then node `n`'s lists are what its message holds. */
  lemma {:induction false} DecodeAllNodes(messages: seq<seq<byte>>, queriesLen: nat, databaseLen: nat)
    ensures DecodeAll(messages, queriesLen, databaseLen).Ok?
        <==> forall n :: 0 <= n < |messages| ==> DecodeNode(messages[n], queriesLen, databaseLen).Ok?
    ensures DecodeAll(messages, queriesLen, databaseLen).Ok? ==>
      forall n :: 0 <= n < |messages| ==>
        DecodeAll(messages, queriesLen, databaseLen).value[n] == DecodeNode(messages[n], queriesLen, databaseLen).value
  {
    if messages != [] {
      var init := messages[..|messages| - 1];
      DecodeAllNodes(init, queriesLen, databaseLen);
      assert forall n :: 0 <= n < |init| ==> init[n] == messages[n];
    }
  }

  /** What the nodes send, in rank order. */
  function EncodeAll(nodes: seq<seq<RecordList>>): (r: seq<seq<byte>>)
    ensures |r| == |nodes|
  {
    if nodes == [] then [] else EncodeAll(nodes[..|nodes| - 1]) + [EncodeMessage(nodes[|nodes| - 1])]
  }

  /** The master reads back every node's lists as the node sent them,
      provided every node sent one list per query and every index resolves. */
  lemma {:induction false} GatherRoundTrip(nodes: seq<seq<RecordList>>, queriesLen: nat, databaseLen: nat)
    requires forall n :: 0 <= n < |nodes| ==> |nodes[n]| == queriesLen && IndicesIn(nodes[n], queriesLen, databaseLen)
    ensures DecodeAll(EncodeAll(nodes), queriesLen, databaseLen) == Ok(nodes)
  {
    if nodes != [] {
      var init := nodes[..|nodes| - 1];
      var last := nodes[|nodes| - 1];
      GatherRoundTrip(init, queriesLen, databaseLen);
      var m := EncodeAll(nodes);
      assert m[..|m| - 1] == EncodeAll(init);
      MessageRoundTrip(last, databaseLen);
      assert init + [last] == nodes;
    }
  }

  /** Query `q`'s lists of all nodes, joined in rank order. */
  function Joined(all: seq<seq<seq<DbAlignment>>>, q: nat): (r: seq<DbAlignment>)
    requires forall n :: 0 <= n < |all| ==> q < |all[n]|
  {
    if all == [] then [] else Joined(all[..|all| - 1], q) + all[|all| - 1][q]
  }

  /** An alignment is in the joined list exactly when some node found it. */
  lemma {:induction false} JoinedMembers(all: seq<seq<seq<DbAlignment>>>, q: nat, x: DbAlignment)
    requires forall n :: 0 <= n < |all| ==> q < |all[n]|
    ensures x in Joined(all, q) <==> exists n :: 0 <= n < |all| && x in all[n][q]
  {
    if all != [] {
      var init := all[..|all| - 1];
      JoinedMembers(init, q, x);
      if x in Joined(all, q) && x !in all[|all| - 1][q] {
        var n :| 0 <= n < |init| && x in init[n][q];
        assert all[n] == init[n];
      }
      if exists n :: 0 <= n < |all| && x in all[n][q] {
        var n :| 0 <= n < |all| && x in all[n][q];
        if n < |init| {
          assert init[n] == all[n];
        }
      }
    }
  }

  /** The nodes before rank `j` contribute a prefix of the joined list. */
  lemma {:induction false} JoinedPrefix(all: seq<seq<seq<DbAlignment>>>, q: nat, j: nat)
    requires forall n :: 0 <= n < |all| ==> q < |all[n]|
    requires j <= |all|
    ensures |Joined(all[..j], q)| <= |Joined(all, q)|
    ensures Joined(all, q)[..|Joined(all[..j], q)|] == Joined(all[..j], q)
  {
    if j == |all| {
      assert all[..j] == all;
    } else {
      var init := all[..|all| - 1];
      JoinedPrefix(init, q, j);
      assert init[..j] == all[..j];
      assert Joined(all, q) == Joined(init, q) + all[|all| - 1][q];
    }
  }

  /** The join for query `q`: a first pass adds up the node lengths, a second
      copies each node's list in at the running offset. */
  method JoinQuery(all: seq<seq<seq<DbAlignment>>>, q: nat) returns (merged: array<DbAlignment>)
    requires forall n :: 0 <= n < |all| ==> q < |all[n]|
    ensures fresh(merged)
    ensures merged[..] == Joined(all, q)
  {
    var length := 0;
    for j := 0 to |all|
      invariant length == |Joined(all[..j], q)|
    {
      assert all[..j + 1][..j] == all[..j];
      length := length + |all[j][q]|;
    }
    assert all[..|all|] == all;
    merged := new DbAlignment[length];
    var offset := 0;
    for j := 0 to |all|
      invariant offset == |Joined(all[..j], q)| <= merged.Length
      invariant merged[..offset] == Joined(all[..j], q)
    {
      assert all[..j + 1][..j] == all[..j];
      JoinedPrefix(all, q, j + 1);
      CopyInto(merged, offset, all[j][q]);
      offset := offset + |all[j][q]|;
    }
    assert merged[..] == merged[..offset];
  }

  // ---------------------------------------------------------------------------
  // Sorting and keeping the best

  /** `dbAlignmentCmp`: the sign of the comparison of the two ranking values. */
  function DbAlignmentCmp(a: DbAlignment, b: DbAlignment): (r: int)
    ensures -1 <= r <= 1
    ensures r < 0 <==> a.value < b.value
    ensures r > 0 <==> a.value > b.value
  {
    if a.value < b.value then -1
    else if a.value > b.value then 1
    else 0
  }

  /** In non-decreasing order of ranking value. */
  predicate Sorted(s: seq<DbAlignment>)
  {
    forall i, j :: 0 <= i < j < |s| ==> s[i].value <= s[j].value
  }

  /** The `qsort` of a joined list with `dbAlignmentCmp`: ascending by ranking
      value, the same alignments. */
  method SortByValue(a: array<DbAlignment>)
    modifies a
    ensures Sorted(a[..])
    ensures multiset(a[..]) == multiset(old(a[..]))
  {
    for i := 0 to a.Length
      invariant forall p, q :: 0 <= p < q < i ==> a[p].value <= a[q].value
      invariant multiset(a[..]) == multiset(old(a[..]))
    {
      Sink(a, i);
    }
  }

  /** Moves `a[i]` down past every larger value before it, one exchange at a
      time, so that the first `i + 1` are in order. */
  method Sink(a: array<DbAlignment>, i: nat)
    requires i < a.Length
    requires forall p, q :: 0 <= p < q < i ==> a[p].value <= a[q].value
    modifies a
    ensures forall p, q :: 0 <= p < q <= i ==> a[p].value <= a[q].value
    ensures multiset(a[..]) == multiset(old(a[..]))
  {
    var j := i;
    while j > 0 && DbAlignmentCmp(a[j - 1], a[j]) > 0
      invariant 0 <= j <= i
      invariant forall p, q :: 0 <= p < q <= i && p != j && q != j ==> a[p].value <= a[q].value
      invariant forall q :: j < q <= i ==> a[j].value < a[q].value
      invariant multiset(a[..]) == multiset(old(a[..]))
    {
      Exchange(a, j - 1, j);
      j := j - 1;
    }
  }

  /** Exchanges two entries: the same alignments afterwards. */
  method Exchange(a: array<DbAlignment>, i: nat, j: nat)
    requires i < j < a.Length
    modifies a
    ensures a[..] == old(a[..])[i := old(a[j])][j := old(a[i])]
    ensures multiset(a[..]) == multiset(old(a[..]))
  {
    a[i], a[j] := a[j], a[i];
  }

  /** `kept` is what the master returns for a query whose joined list is
      `joined`: sorted, at most `maxAlignments` long and no shorter than the
      joined list allows, drawn from the joined list, and no alignment left
      out ranks before one kept. */
  predicate TopOf(kept: seq<DbAlignment>, joined: seq<DbAlignment>, maxAlignments: nat)
  {
    && Sorted(kept)
    && |kept| == (if |joined| >= maxAlignments then maxAlignments else |joined|)
    && multiset(kept) <= multiset(joined)
    && forall x, y :: x in kept && y in multiset(joined) - multiset(kept) ==> x.value <= y.value
  }

  /** The first `maxAlignments` of a sorted rearrangement of the joined list
      are its best. */
  lemma TopOfSorted(s: seq<DbAlignment>, joined: seq<DbAlignment>, maxAlignments: nat)
    requires Sorted(s) && multiset(s) == multiset(joined)
    ensures TopOf(s[..if |s| >= maxAlignments then maxAlignments else |s|], joined, maxAlignments)
  {
    var m := if |s| >= maxAlignments then maxAlignments else |s|;
    assert |joined| == |s| by {
      assert |multiset(joined)| == |multiset(s)|;
    }
    SplitMultiset(s, m);
    KeptBeforeDropped(s, m);
  }

  lemma SplitMultiset(s: seq<DbAlignment>, m: nat)
    requires m <= |s|
    ensures multiset(s[..m]) <= multiset(s)
    ensures multiset(s) - multiset(s[..m]) == multiset(s[m..])
  {
    assert s == s[..m] + s[m..];
  }

  /** In a sorted list, everything before position `m` ranks no later than
      anything from `m` on. */
  lemma KeptBeforeDropped(s: seq<DbAlignment>, m: nat)
    requires Sorted(s) && m <= |s|
    ensures Sorted(s[..m])
    ensures forall x, y :: x in s[..m] && y in multiset(s[m..]) ==> x.value <= y.value
  {
    forall x, y | x in s[..m] && y in multiset(s[m..])
      ensures x.value <= y.value
    {
      var i :| 0 <= i < m && s[..m][i] == x;
      var j :| 0 <= j < |s| - m && s[m..][j] == y;
      assert s[i] == x && s[m + j] == y;
    }
  }

  /** `gatherMpiData`: reads every node's message in rank order, then for each
      query joins the nodes' lists, sorts the joined list and keeps its first
      `maxAlignments`. */
  method GatherMpiData(messages: seq<seq<byte>>, queriesLen: nat, databaseLen: nat, maxAlignments: nat)
    returns (r: Result<seq<seq<DbAlignment>>>)
    ensures r.Ok? <==> DecodeAll(messages, queriesLen, databaseLen).Ok?
    ensures r.Err? ==> r.error == DecodeAll(messages, queriesLen, databaseLen).error
    ensures r.Ok? ==> |r.value| == queriesLen
    ensures r.Ok? ==> forall q :: 0 <= q < queriesLen ==>
      TopOf(r.value[q], Joined(DecodeAll(messages, queriesLen, databaseLen).value, q), maxAlignments)
  {
    var all: seq<seq<seq<DbAlignment>>> := [];
    for i := 0 to |messages|
      invariant DecodeAll(messages[..i], queriesLen, databaseLen) == Ok(all)
    {
      assert messages[..i + 1][..i] == messages[..i];
      var lists := ReceiveNode(messages[i], queriesLen, databaseLen);
      if lists.Err? {
        ErrorPersists(messages, i + 1, |messages|, queriesLen, databaseLen);
        assert messages[..|messages|] == messages;
        return Err(lists.error);
      }
      all := all + [lists.value];
    }
    assert messages[..|messages|] == messages;

    var result: seq<seq<DbAlignment>> := [];
    for q := 0 to queriesLen
      invariant |result| == q
      invariant forall p :: 0 <= p < q ==> TopOf(result[p], Joined(all, p), maxAlignments)
    {
      var merged := JoinQuery(all, q);
      SortByValue(merged);
      var length := merged.Length;
      if length >= maxAlignments {
        length := maxAlignments;
      }
      TopOfSorted(merged[..], Joined(all, q), maxAlignments);
      assert merged[..length] == merged[..][..length];
      result := result + [merged[..length]];
    }
    r := Ok(result);
  }
}
