/**
 Why a journal survives torn writes, in terms of its view: for each block, the valid
 entry that starts there, if any. The invariant relates the view to the in-memory
 state and is kept by every update, however it ends, and by reopening.
 */
module CrashSafety {
  import opened Blocks
  import opened Entries
  import opened JournalModel

  /** The first block after the entry at `p`. */
  function End(bs: nat, v: View, p: nat): nat
    requires bs > 0 && p < |v| && v[p].Some?
  {
    p + BlocksFor(bs, v[p].value.data)
  }

  // ---------------------------------------------------------------------
  // Size bound

  lemma MaxBlocksIs(bs: nat, length: nat)
    requires bs >= 3
    ensures MaxBlocks(bs, length) == length / 3 + if length % 3 == 0 then 0 else 1
  {
    var q, m := length / 3, length % 3;
    assert length * bs == 3 * (q * bs) + m * bs;
    assert length * bs / 3 == q * bs + m * bs / 3;
    assert (q + 1) * bs == q * bs + bs;
    CeilDivUnique(length * bs / 3, bs, if m == 0 then q else q + 1);
  }

  /** A record that wraps stays clear of the current one, but for one block when length % 3 == 1. */
  lemma WrapClearance(bs: nat, length: nat, pos: nat, end: nat)
    requires bs >= 3
    requires end <= pos + MaxBlocks(bs, length)
    requires length < end + MaxBlocks(bs, length)
    ensures MaxBlocks(bs, length) <= pos + if length % 3 == 1 then 1 else 0
  {
    MaxBlocksIs(bs, length);
  }

  // ---------------------------------------------------------------------
  // Views

  /** The entry at `p` obeys the size bound, lies inside the journal and holds no other entry. */
  ghost predicate Intact(bs: nat, v: View, p: nat)
    requires bs > 0 && p < |v| && v[p].Some?
  {
    && BlocksFor(bs, v[p].value.data) <= MaxBlocks(bs, |v|)
    && End(bs, v, p) <= |v|
    && forall i | p < i < End(bs, v, p) :: v[i].None?
  }

  ghost predicate Clean(bs: nat, v: View)
    requires bs > 0
  {
    forall p | 0 <= p < |v| && v[p].Some? :: Intact(bs, v, p)
  }

  /** `w` is the view after the first `n` blocks of record `r` were written at `at`. */
  ghost predicate Overlaid(bs: nat, v: View, w: View, at: nat, r: Record, n: nat)
    requires bs > 0 && |w| == |v| && at + n <= |v|
  {
    Covered(bs, v, w, at, r, n) && (n == BlocksFor(bs, r.data) ==> w[at] == Some(r))
  }

  /** The same, whether or not the record can be read once it is written whole. */
  ghost predicate Covered(bs: nat, v: View, w: View, at: nat, r: Record, n: nat)
    requires bs > 0 && |w| == |v| && at + n <= |v|
  {
    && (n == 0 ==> w == v)
    && (n > 0 ==> w[at] == None || w[at] == Some(r))
    && (forall i | at < i < at + n :: w[i].None?)
    && (forall i | 0 <= i < at ::
          w[i] == if n > 0 && v[i].Some? && End(bs, v, i) > at then None else v[i])
    && (forall i | at + n <= i < |v| :: w[i] == v[i])
  }

  /** Entries follow each other from `p` to `end` with growing revisions; the last one is `last`. */
  ghost predicate Chain(bs: nat, v: View, p: nat, low: nat, last: Record, end: nat)
    requires bs > 0
    decreases end - p
  {
    && p < end <= |v|
    && v[p].Some?
    && low < v[p].value.revision
    && if End(bs, v, p) >= end
       then End(bs, v, p) == end && v[p].value == last
       else Chain(bs, v, End(bs, v, p), v[p].value.revision, last, end)
  }

  /**
   The journal invariant. `first` is where the run of entries that ends in the current
   one begins, `pos` is where the current one lies, and `pending` holds the data of the
   failed attempts since it was written.
   */
  ghost predicate Inv(bs: nat, v: View, mem: Memory, pending: set<Bytes>, first: nat, pos: nat)
    requires bs > 0
  {
    var c := mem.current.revision;
    && Clean(bs, v)
    && if c == 0 then
         && mem == Memory(NO_RECORD, 0)
         && forall i | 0 <= i < |v| && v[i].Some? ::
              i == 0 && v[i].value.revision == 1 && v[i].value.data in pending
       else
         var end := pos + BlocksFor(bs, mem.current.data);
         && first <= pos < end <= |v|
         && v[pos] == Some(mem.current)
         && Chain(bs, v, first, 0, mem.current, end)
         && (forall i | 0 <= i < first && v[i].Some? :: Retry(mem, pending, v[i].value, i))
         && (forall i | end <= i < |v| && v[i].Some? :: Stale(mem, pending, end, v[i].value, i))
         && (mem.next == end || (mem.next == 0 && |v| < end + MaxBlocks(bs, |v|)))
  }

  /** A failed attempt that reached the disk whole, at the start of the journal. */
  ghost predicate Retry(mem: Memory, pending: set<Bytes>, e: Record, i: nat) {
    i == 0 == mem.next && e.revision == mem.current.revision + 1 && e.data in pending
  }

  /** An entry after the current one: older, or a failed attempt that reached the disk whole. */
  ghost predicate Stale(mem: Memory, pending: set<Bytes>, end: nat, e: Record, i: nat) {
    var c := mem.current.revision;
    || e.revision < c
    || (e.revision == c && end < i)
    || (e.revision == c + 1 && i == end && e.data in pending)
  }

  // ---------------------------------------------------------------------
  // Chains

  /** A chain only depends on the blocks from its start to its end. */
  lemma {:induction false} ChainFrame(bs: nat, v: View, w: View, p: nat, low: nat, last: Record, end: nat)
    requires bs > 0 && |w| == |v|
    requires Chain(bs, v, p, low, last, end)
    requires forall i | p <= i < end :: w[i] == v[i]
    ensures Chain(bs, w, p, low, last, end)
    decreases end - p
  {
    if End(bs, v, p) < end {
      ChainFrame(bs, v, w, End(bs, v, p), v[p].value.revision, last, end);
    }
  }

  lemma {:induction false} ChainExtend(bs: nat, v: View, p: nat, low: nat, last: Record, end: nat)
    requires bs > 0
    requires Chain(bs, v, p, low, last, end)
    requires end < |v| && v[end].Some? && last.revision < v[end].value.revision
    requires End(bs, v, end) <= |v|
    ensures Chain(bs, v, p, low, v[end].value, End(bs, v, end))
    decreases end - p
  {
    if End(bs, v, p) < end {
      ChainExtend(bs, v, End(bs, v, p), v[p].value.revision, last, end);
    }
  }

  /** Inside a chain no revision exceeds the last one. */
  lemma {:induction false} ChainBound(bs: nat, v: View, p: nat, low: nat, last: Record, end: nat, i: nat)
    requires bs > 0 && Clean(bs, v)
    requires Chain(bs, v, p, low, last, end)
    requires p <= i < end && v[i].Some?
    ensures low < v[i].value.revision <= last.revision
    decreases end - p
  {
    assert Intact(bs, v, p);
    ChainTop(bs, v, p, low, last, end);
    if i != p {
      ChainBound(bs, v, End(bs, v, p), v[p].value.revision, last, end, i);
    }
  }

  lemma {:induction false} ChainTop(bs: nat, v: View, p: nat, low: nat, last: Record, end: nat)
    requires bs > 0
    requires Chain(bs, v, p, low, last, end)
    ensures v[p].value.revision <= last.revision
    decreases end - p
  {
    if End(bs, v, p) < end {
      ChainTop(bs, v, End(bs, v, p), v[p].value.revision, last, end);
    }
  }

  /** What is left of a chain when everything before block `n` is lost, up to its last entry at `pos`. */
  lemma {:induction false} ChainSuffix(bs: nat, v: View, p: nat, low: nat, last: Record, end: nat, pos: nat, n: nat)
    returns (first: nat)
    requires bs > 0 && Clean(bs, v)
    requires Chain(bs, v, p, low, last, end)
    requires p <= pos < end && v[pos] == Some(last) && pos + BlocksFor(bs, last.data) == end
    requires n <= pos
    ensures n <= first <= pos && p <= first
    ensures Chain(bs, v, first, 0, last, end)
    ensures forall i | n <= i < first && p <= i :: v[i].None?
    decreases end - p
  {
    assert Intact(bs, v, p);
    if n <= p {
      first := p;
    } else {
      first := ChainSuffix(bs, v, End(bs, v, p), v[p].value.revision, last, end, pos, n);
    }
  }

  // ---------------------------------------------------------------------
  // Scanning

  /** Blocks without entries are skipped while nothing has been found. */
  lemma {:induction false} ScanGap(bs: nat, v: View, lba: nat, stop: nat)
    requires bs > 0 && lba <= stop <= |v|
    requires forall i | lba <= i < stop :: v[i].None?
    ensures ScanFrom(bs, v, lba, NO_RECORD, 0) == ScanFrom(bs, v, stop, NO_RECORD, 0)
    decreases stop - lba
  {
    if lba < stop {
      ScanGap(bs, v, lba + 1, stop);
    }
  }

  lemma {:induction false} ScanChain(bs: nat, v: View, p: nat, last: Record, next: nat, cur: Record, end: nat)
    requires bs > 0
    requires Chain(bs, v, p, last.revision, cur, end)
    ensures ScanFrom(bs, v, p, last, next) == ScanFrom(bs, v, end, cur, end)
    decreases end - p
  {
    if End(bs, v, p) < end {
      ScanChain(bs, v, End(bs, v, p), v[p].value, End(bs, v, p), cur, end);
    }
  }

  /** Without entries the journal is empty. */
  lemma ScanNothing(bs: nat, v: View)
    requires bs > 0 && forall i | 0 <= i < |v| :: v[i].None?
    ensures Scan(bs, v) == Opened(Memory(NO_RECORD, 0))
  {
    ScanGap(bs, v, 0, |v|);
  }

  /** The run of entries from `p` on goes no further than `end`. */
  ghost predicate Ends(v: View, last: Record, end: nat) {
    end == |v| || (end < |v| && (v[end].None? || v[end].value.revision <= last.revision))
  }

  /** The entry at `p` begins a longest run of entries with growing revisions. */
  lemma {:induction false} LongestRun(bs: nat, v: View, p: nat, low: nat) returns (last: Record, end: nat)
    requires bs > 0 && Clean(bs, v) && p < |v| && v[p].Some? && low < v[p].value.revision
    ensures Chain(bs, v, p, low, last, end) && Ends(v, last, end)
    decreases |v| - p
  {
    assert Intact(bs, v, p);
    last, end := v[p].value, End(bs, v, p);
    if !Ends(v, last, end) {
      last, end := LongestRun(bs, v, end, last.revision);
    }
  }

  /**
   What the scan finds, said without it: the last entry of the longest run with growing
   revisions that begins at the first entry; or corruption if that is followed by an entry of
   the same revision. The next write goes right behind the entry, or to the start.
   */
  lemma ScanMeans(bs: nat, v: View, first: nat, last: Record, end: nat)
    requires bs > 0 && first <= |v| && (forall i | 0 <= i < first :: v[i].None?)
    requires Chain(bs, v, first, 0, last, end) && Ends(v, last, end)
    ensures Scan(bs, v)
         == if end < |v| && v[end].Some? && v[end].value.revision == last.revision then Corrupt(last.revision)
            else Opened(Memory(last, if end == |v| then 0 else end))
  {
    ScanGap(bs, v, 0, first);
    ScanChain(bs, v, first, NO_RECORD, 0, last, end);
    ChainTop(bs, v, first, 0, last, end);
  }

  /** `mem` is what a scan that finds the entry at `pos` leaves behind. */
  ghost predicate Adopted(bs: nat, v: View, mem: Memory, pos: nat)
    requires bs > 0 && pos < |v|
  {
    && v[pos].Some?
    && mem.current == v[pos].value
    && mem.next == if End(bs, v, pos) >= |v| then 0 else End(bs, v, pos)
  }

  /** Every valid entry has at most this revision. */
  ghost predicate Bounded(v: View, revision: nat) {
    forall i | 0 <= i < |v| && v[i].Some? :: v[i].value.revision <= revision
  }

  /** `r` is the current record or a pending attempt to replace it. */
  ghost predicate CurrentOrPending(current: Record, pending: set<Bytes>, r: Record) {
    r == current || (r.revision == current.revision + 1 && r.data in pending)
  }

  /**
   Reopening succeeds with `mem'`: the current record or a pending attempt, of maximal
   revision among the valid entries, with the next write right after it. Pending attempts
   that were not found are gone for good.
   */
  ghost predicate Reopened(bs: nat, v: View, mem: Memory, pending: set<Bytes>,
                           mem': Memory, first': nat, pos': nat)
    requires bs > 0
  {
    && Scan(bs, v) == Opened(mem')
    && Inv(bs, v, mem', {}, first', pos')
    && CurrentOrPending(mem.current, pending, mem'.current)
    && Bounded(v, mem'.current.revision)
    && (mem'.current.revision > 0 ==> pos' < |v| && Adopted(bs, v, mem', pos'))
  }

  lemma Reopen(bs: nat, v: View, mem: Memory, pending: set<Bytes>, first: nat, pos: nat)
    returns (mem': Memory, first': nat, pos': nat)
    requires bs >= 3
    requires Inv(bs, v, mem, pending, first, pos)
    ensures Reopened(bs, v, mem, pending, mem', first', pos')
    ensures mem.current.revision > 0 && mem'.current == mem.current ==> pos' == pos
  {
    var end := pos + BlocksFor(bs, mem.current.data);
    if mem.current.revision == 0 {
      mem' := ReopenEmpty(bs, v, mem, pending);
      first', pos' := 0, 0;
    } else if first > 0 && v[0].Some? {
      mem' := ReopenAtStart(bs, v, mem, pending, first, pos);
      first', pos' := 0, 0;
    } else if end < |v| && v[end].Some? && v[end].value.revision > mem.current.revision {
      mem' := ReopenAppended(bs, v, mem, pending, first, pos);
      first', pos' := first, end;
    } else {
      mem' := ReopenCurrent(bs, v, mem, pending, first, pos);
      first', pos' := first, pos;
    }
  }

  lemma ReopenEmpty(bs: nat, v: View, mem: Memory, pending: set<Bytes>) returns (mem': Memory)
    requires bs >= 3
    requires mem.current.revision == 0 && Inv(bs, v, mem, pending, 0, 0)
    ensures Reopened(bs, v, mem, pending, mem', 0, 0)
  {
    if |v| == 0 || v[0].None? {
      mem' := mem;
      ScanGap(bs, v, 0, |v|);
    } else {
      assert Intact(bs, v, 0);
      var end := End(bs, v, 0);
      mem' := Memory(v[0].value, if end >= |v| then 0 else end);
      assert Scan(bs, v) == ScanFrom(bs, v, end, v[0].value, end);
      assert Chain(bs, v, 0, 0, v[0].value, end);
    }
  }

  lemma ReopenAtStart(bs: nat, v: View, mem: Memory, pending: set<Bytes>, first: nat, pos: nat)
    returns (mem': Memory)
    requires bs >= 3
    requires mem.current.revision > 0 && Inv(bs, v, mem, pending, first, pos)
    requires first > 0 && v[0].Some?
    ensures Reopened(bs, v, mem, pending, mem', 0, 0)
  {
    var e := v[0].value;
    assert Retry(mem, pending, e, 0);
    assert Intact(bs, v, 0);
    var end := End(bs, v, 0);
    assert end <= first;
    mem' := Memory(e, if end >= |v| then 0 else end);
    forall i | end <= i < |v| && v[i].Some?
      ensures v[i].value.revision <= e.revision && Stale(mem', {}, end, v[i].value, i)
    {
      if first <= i < pos + BlocksFor(bs, mem.current.data) {
        ChainBound(bs, v, first, 0, mem.current, pos + BlocksFor(bs, mem.current.data), i);
      }
    }
    assert Scan(bs, v) == ScanFrom(bs, v, end, e, end);
    assert Chain(bs, v, 0, 0, e, end);
  }

  /** The scan walks the chain and reaches the block after the current record. */
  lemma ScanToEnd(bs: nat, v: View, mem: Memory, pending: set<Bytes>, first: nat, pos: nat)
    requires bs > 0
    requires mem.current.revision > 0 && Inv(bs, v, mem, pending, first, pos)
    requires first == 0 || v[0].None?
    ensures
      var end := pos + BlocksFor(bs, mem.current.data);
      && Scan(bs, v) == ScanFrom(bs, v, end, mem.current, end)
      && (forall i | 0 <= i < first :: v[i].None?)
      && Bounded(v[..end], mem.current.revision)
  {
    var end := pos + BlocksFor(bs, mem.current.data);
    ScanGap(bs, v, 0, first);
    ScanChain(bs, v, first, NO_RECORD, 0, mem.current, end);
    forall i | first <= i < end && v[i].Some?
      ensures v[i].value.revision <= mem.current.revision
    {
      ChainBound(bs, v, first, 0, mem.current, end, i);
    }
  }

  lemma ReopenAppended(bs: nat, v: View, mem: Memory, pending: set<Bytes>, first: nat, pos: nat)
    returns (mem': Memory)
    requires bs >= 3
    requires mem.current.revision > 0 && Inv(bs, v, mem, pending, first, pos)
    requires first == 0 || v[0].None?
    requires
      var end := pos + BlocksFor(bs, mem.current.data);
      end < |v| && v[end].Some? && v[end].value.revision > mem.current.revision
    ensures Reopened(bs, v, mem, pending, mem', first, pos + BlocksFor(bs, mem.current.data))
  {
    var end := pos + BlocksFor(bs, mem.current.data);
    var e := v[end].value;
    assert Stale(mem, pending, end, e, end);
    assert Intact(bs, v, end);
    var end' := End(bs, v, end);
    mem' := Memory(e, if end' >= |v| then 0 else end');
    AppendedIsLatest(bs, v, mem, pending, first, pos);
    ScanAppended(bs, v, mem, pending, first, pos);
    AppendedInv(bs, v, mem, pending, first, pos, mem');
  }

  lemma NoneBefore(bs: nat, v: View, mem: Memory, pending: set<Bytes>, first: nat, pos: nat)
    requires bs > 0
    requires mem.current.revision > 0 && Inv(bs, v, mem, pending, first, pos)
    requires first == 0 || v[0].None?
    ensures forall i | 0 <= i < first :: v[i].None?
  {
  }

  lemma AppendedInv(bs: nat, v: View, mem: Memory, pending: set<Bytes>, first: nat, pos: nat, mem': Memory)
    requires bs >= 3
    requires mem.current.revision > 0 && Inv(bs, v, mem, pending, first, pos)
    requires first == 0 || v[0].None?
    requires
      var end := pos + BlocksFor(bs, mem.current.data);
      && end < |v| && v[end].Some? && v[end].value.revision > mem.current.revision
      && Adopted(bs, v, mem', end)
    ensures Inv(bs, v, mem', {}, first, pos + BlocksFor(bs, mem.current.data))
  {
    var end := pos + BlocksFor(bs, mem.current.data);
    assert Intact(bs, v, end);
    AppendedIsLatest(bs, v, mem, pending, first, pos);
    NoneBefore(bs, v, mem, pending, first, pos);
    ChainExtend(bs, v, first, 0, mem.current, end);
  }

  lemma ScanAppended(bs: nat, v: View, mem: Memory, pending: set<Bytes>, first: nat, pos: nat)
    requires bs > 0
    requires mem.current.revision > 0 && Inv(bs, v, mem, pending, first, pos)
    requires first == 0 || v[0].None?
    requires
      var end := pos + BlocksFor(bs, mem.current.data);
      end < |v| && v[end].Some? && v[end].value.revision > mem.current.revision
    ensures
      var end := pos + BlocksFor(bs, mem.current.data);
      Scan(bs, v) == Stop(v, v[end].value, End(bs, v, end))
  {
    var end := pos + BlocksFor(bs, mem.current.data);
    var end' := End(bs, v, end);
    ScanToEnd(bs, v, mem, pending, first, pos);
    AppendedIsLatest(bs, v, mem, pending, first, pos);
    assert ScanFrom(bs, v, end, mem.current, end) == ScanFrom(bs, v, end', v[end].value, end');
  }

  lemma AppendedIsLatest(bs: nat, v: View, mem: Memory, pending: set<Bytes>, first: nat, pos: nat)
    requires bs > 0
    requires mem.current.revision > 0 && Inv(bs, v, mem, pending, first, pos)
    requires first == 0 || v[0].None?
    requires
      var end := pos + BlocksFor(bs, mem.current.data);
      end < |v| && v[end].Some? && v[end].value.revision > mem.current.revision
    ensures
      var end := pos + BlocksFor(bs, mem.current.data);
      forall i | 0 <= i < |v| && i != end && v[i].Some? :: v[i].value.revision < v[end].value.revision
  {
    var end := pos + BlocksFor(bs, mem.current.data);
    ScanToEnd(bs, v, mem, pending, first, pos);
    forall i | 0 <= i < |v| && i != end && v[i].Some?
      ensures v[i].value.revision < v[end].value.revision
    {
      assert i < end ==> v[..end][i] == v[i];
      assert end <= i ==> Stale(mem, pending, end, v[i].value, i);
    }
  }

  lemma ReopenCurrent(bs: nat, v: View, mem: Memory, pending: set<Bytes>, first: nat, pos: nat)
    returns (mem': Memory)
    requires bs >= 3
    requires mem.current.revision > 0 && Inv(bs, v, mem, pending, first, pos)
    requires first == 0 || v[0].None?
    requires
      var end := pos + BlocksFor(bs, mem.current.data);
      end < |v| && v[end].Some? ==> v[end].value.revision <= mem.current.revision
    ensures Reopened(bs, v, mem, pending, mem', first, pos)
  {
    var end := pos + BlocksFor(bs, mem.current.data);
    mem' := Memory(mem.current, if end >= |v| then 0 else end);
    ScanToEnd(bs, v, mem, pending, first, pos);
    forall i | 0 <= i < |v| && v[i].Some?
      ensures v[i].value.revision <= mem.current.revision
    {
      assert i < end ==> v[..end][i] == v[i];
      assert end <= i ==> Stale(mem, pending, end, v[i].value, i);
    }
    assert end < |v| && v[end].Some? ==> Stale(mem, pending, end, v[end].value, end);
    assert Inv(bs, v, mem', {}, first, pos) by {
      assert forall i | end <= i < |v| && v[i].Some? :: Stale(mem, pending, end, v[i].value, i);
    }
  }

  // ---------------------------------------------------------------------
  // Updating

  /** The record and address `Update(data)` writes from this state. */
  ghost predicate Writes(bs: nat, v: View, mem: Memory, data: Bytes, r: Record, at: nat)
    requires bs > 0
  {
    && mem.next <= |v|
    && |data| <= MaxData(bs, |v|)
    && r == Record(mem.current.revision + 1, data)
    && at == Target(bs, |v|, mem.next, data)
  }

  /** The `n` blocks from `at` hold no part of the current record. */
  ghost predicate Spares(bs: nat, mem: Memory, pos: nat, at: nat, n: nat)
    requires bs > 0
  {
    mem.current.revision > 0 ==> at + n <= pos || pos + BlocksFor(bs, mem.current.data) <= at
  }

  /** An update goes right after the current record, or to the start because it would not fit there. */
  lemma WriteAddress(bs: nat, v: View, mem: Memory, pending: set<Bytes>, first: nat, pos: nat,
                     data: Bytes, r: Record, at: nat)
    requires bs > 0
    requires Inv(bs, v, mem, pending, first, pos) && Writes(bs, v, mem, data, r, at)
    ensures BlocksFor(bs, data) <= MaxBlocks(bs, |v|) && at + BlocksFor(bs, data) <= |v|
    ensures mem.current.revision == 0 ==> at == 0
    ensures mem.current.revision > 0 ==>
      var end := pos + BlocksFor(bs, mem.current.data);
      (at == end == mem.next) || (at == 0 && |v| < end + MaxBlocks(bs, |v|))
  {
    TargetFits(bs, |v|, mem.next, data);
    NoRoom(bs, |v| - mem.next, data);
  }

  lemma NoRoom(bs: nat, room: nat, data: Bytes)
    requires bs > 0
    ensures room * bs < HEADER_SIZE + |data| ==> room < BlocksFor(bs, data)
  {
    var k := BlocksFor(bs, data);
    if k <= room {
      MulLe(k, room, bs);
    }
  }

  lemma Committed(bs: nat, v: View, w: View, mem: Memory, pending: set<Bytes>, first: nat, pos: nat,
                  data: Bytes, r: Record, at: nat)
    returns (first': nat)
    requires bs >= 3 && |w| == |v|
    requires Inv(bs, v, mem, pending, first, pos) && Writes(bs, v, mem, data, r, at)
    requires at + BlocksFor(bs, data) <= |v| && Overlaid(bs, v, w, at, r, BlocksFor(bs, data))
    requires Clean(bs, w)
    ensures Inv(bs, w, Memory(r, at + BlocksFor(bs, data)), {}, first', at)
  {
    WriteAddress(bs, v, mem, pending, first, pos, data, r, at);
    if at == 0 {
      first' := 0;
      CommittedAtStart(bs, v, w, mem, pending, first, pos, data, r);
    } else {
      first' := first;
      CommittedAfter(bs, v, w, mem, pending, first, pos, data, r, at);
    }
  }

  lemma CommittedAtStart(bs: nat, v: View, w: View, mem: Memory, pending: set<Bytes>, first: nat, pos: nat,
                         data: Bytes, r: Record)
    requires bs >= 3 && |w| == |v|
    requires Inv(bs, v, mem, pending, first, pos) && Writes(bs, v, mem, data, r, 0)
    requires BlocksFor(bs, data) <= |v| && Overlaid(bs, v, w, 0, r, BlocksFor(bs, data))
    requires Clean(bs, w)
    ensures Inv(bs, w, Memory(r, BlocksFor(bs, data)), {}, 0, 0)
  {
    WriteAddress(bs, v, mem, pending, first, pos, data, r, 0);
    var k := BlocksFor(bs, data);
    var mem' := Memory(r, k);
    forall i | k <= i < |w| && w[i].Some?
      ensures Stale(mem', {}, k, w[i].value, i)
    {
      if mem.current.revision > 0 {
        var end := pos + BlocksFor(bs, mem.current.data);
        if first <= i < end {
          ChainBound(bs, v, first, 0, mem.current, end, i);
        } else if end <= i {
          assert Stale(mem, pending, end, v[i].value, i);
          MaxBlocksIs(bs, |v|);
        }
      }
    }
    assert Chain(bs, w, 0, 0, r, k);
  }

  lemma CommittedAfter(bs: nat, v: View, w: View, mem: Memory, pending: set<Bytes>, first: nat, pos: nat,
                       data: Bytes, r: Record, at: nat)
    requires bs >= 3 && |w| == |v|
    requires Inv(bs, v, mem, pending, first, pos) && Writes(bs, v, mem, data, r, at)
    requires at > 0
    requires at + BlocksFor(bs, data) <= |v| && Overlaid(bs, v, w, at, r, BlocksFor(bs, data))
    requires Clean(bs, w)
    ensures Inv(bs, w, Memory(r, at + BlocksFor(bs, data)), {}, first, at)
  {
    WriteAddress(bs, v, mem, pending, first, pos, data, r, at);
    KeepsBefore(bs, v, w, mem, pending, first, pos, r, at, BlocksFor(bs, data));
    ChainExtend(bs, w, first, 0, mem.current, at);
  }

  /** Writing right after the current record leaves everything before it alone. */
  lemma KeepsBefore(bs: nat, v: View, w: View, mem: Memory, pending: set<Bytes>, first: nat, pos: nat,
                    r: Record, at: nat, n: nat)
    requires bs >= 3 && |w| == |v| && mem.current.revision > 0
    requires Inv(bs, v, mem, pending, first, pos)
    requires at == mem.next == pos + BlocksFor(bs, mem.current.data)
    requires at + n <= |v| && Covered(bs, v, w, at, r, n)
    ensures forall i | 0 <= i < at :: w[i] == v[i]
    ensures forall i | 0 <= i < first :: w[i].None?
    ensures Chain(bs, w, first, 0, mem.current, at)
  {
    forall i | 0 <= i < at && v[i].Some?
      ensures End(bs, v, i) <= at
    {
      assert Intact(bs, v, i);
    }
    ChainFrame(bs, v, w, first, 0, mem.current, at);
  }

  lemma Torn(bs: nat, v: View, w: View, mem: Memory, pending: set<Bytes>, first: nat, pos: nat,
             data: Bytes, r: Record, at: nat, n: nat)
    returns (first': nat)
    requires bs >= 3 && |w| == |v|
    requires Inv(bs, v, mem, pending, first, pos) && Writes(bs, v, mem, data, r, at)
    requires n <= BlocksFor(bs, data) && at + n <= |v| && Covered(bs, v, w, at, r, n)
    requires Clean(bs, w)
    requires Spares(bs, mem, pos, at, n)
    ensures Inv(bs, w, mem.(next := at), pending + {data}, first', pos)
  {
    WriteAddress(bs, v, mem, pending, first, pos, data, r, at);
    if mem.current.revision == 0 || n == 0 {
      first' := first;
    } else if at == 0 {
      first' := TornAtStart(bs, v, w, mem, pending, first, pos, data, r, n);
    } else {
      first' := first;
      TornAfter(bs, v, w, mem, pending, first, pos, data, r, at, n);
    }
  }

  lemma TornAfter(bs: nat, v: View, w: View, mem: Memory, pending: set<Bytes>, first: nat, pos: nat,
                  data: Bytes, r: Record, at: nat, n: nat)
    requires bs >= 3 && |w| == |v|
    requires mem.current.revision > 0
    requires Inv(bs, v, mem, pending, first, pos) && Writes(bs, v, mem, data, r, at)
    requires at > 0
    requires 0 < n <= BlocksFor(bs, data) && at + n <= |v| && Covered(bs, v, w, at, r, n)
    requires Clean(bs, w)
    ensures Inv(bs, w, mem.(next := at), pending + {data}, first, pos)
  {
    WriteAddress(bs, v, mem, pending, first, pos, data, r, at);
    KeepsBefore(bs, v, w, mem, pending, first, pos, r, at, n);
  }

  lemma TornAtStart(bs: nat, v: View, w: View, mem: Memory, pending: set<Bytes>, first: nat, pos: nat,
                    data: Bytes, r: Record, n: nat)
    returns (first': nat)
    requires bs >= 3 && |w| == |v|
    requires mem.current.revision > 0
    requires Inv(bs, v, mem, pending, first, pos) && Writes(bs, v, mem, data, r, 0)
    requires 0 < n <= BlocksFor(bs, data) && n <= |v| && Covered(bs, v, w, 0, r, n)
    requires Clean(bs, w)
    requires n <= pos
    ensures Inv(bs, w, mem.(next := 0), pending + {data}, first', pos)
  {
    WriteAddress(bs, v, mem, pending, first, pos, data, r, 0);
    var end := pos + BlocksFor(bs, mem.current.data);
    first' := ChainSuffix(bs, v, first, 0, mem.current, end, pos, n);
    ChainFrame(bs, v, w, first', 0, mem.current, end);
  }
}
