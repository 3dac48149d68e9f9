/**
 What the storage guarantees over whole runs: the allocator's and the directory's
 invariants, no lost updates, and that a stored checkpoint is found again.
 */
module Durability {
  import opened Blocks
  import opened Entries
  import opened JournalModel
  import Runs
  import opened SlotModel
  import opened Directory
  import opened Persistence

  // ---------------------------------------------------------------------
  // Book-keeping of one slot

  lemma ChainedMore(env: Env, h: seq<Bytes>, attempts: seq<Attempt>, a: Attempt)
    requires Chained(env, h, attempts)
    ensures Chained(env, h, attempts + [a])
  {
    forall k | 0 <= k < |h|
      ensures Explained(env, h[..k], h[k], attempts + [a])
    {
      ExplainedMore(env, h[..k], h[k], attempts, a);
    }
  }

  lemma ExplainedMore(env: Env, h: seq<Bytes>, data: Bytes, attempts: seq<Attempt>, a: Attempt)
    requires Explained(env, h, data, attempts)
    ensures Explained(env, h, data, attempts + [a])
  {
    var j :| 0 <= j < |attempts| && attempts[j].version == |h| && NewData(env, Last(h), attempts[j].f) == Some(data);
    assert (attempts + [a])[j] == attempts[j];
  }

  lemma ChainedNext(env: Env, h: seq<Bytes>, attempts: seq<Attempt>, data: Bytes)
    requires Chained(env, h, attempts) && Explained(env, h, data, attempts)
    ensures Chained(env, h + [data], attempts) && Last(h + [data]) == data
  {
    var h' := h + [data];
    forall k | 0 <= k < |h'|
      ensures Explained(env, h'[..k], h'[k], attempts)
    {
      if k < |h| {
        assert h'[..k] == h[..k];
      } else {
        assert h'[..k] == h;
      }
    }
  }

  /** A slot moves to a committed record that was attempted, or keeps the one it has. */
  lemma NotedHistory(env: Env, b: Book, i: nat, l: Runs.Ledger)
    requires b.Sized(|b.ledgers|) && i < |b.ledgers| && HistoryOk(env, b)
    requires i > 0 ==>
      if l.committed == b.ledgers[i].committed
      then forall data | data in l.pending :: Explained(env, b.history[i], data, b.attempts[i])
      else l.pending == {} && Explained(env, b.history[i], l.committed.data, b.attempts[i])
    ensures HistoryOk(env, Noted(b, i, l))
  {
    if i > 0 && l.committed != b.ledgers[i].committed {
      ChainedNext(env, b.history[i], b.attempts[i], l.committed.data);
    }
  }

  /** Opening a slot keeps its history in order. */
  lemma OpenedHistory(env: Env, s: Sys, b: Book, i: nat)
    requires SameSize(s, b) && HistoryOk(env, b) && i < |s.slots|
    requires Opens(env.c.f, s.slots[i], b.ledgers[i])
    ensures HistoryOk(env, Noted(b, i, OpenLedger(env.c.f, s.slots[i], b.ledgers[i])))
  {
    NotedHistory(env, b, i, OpenLedger(env.c.f, s.slots[i], b.ledgers[i]));
  }

  // ---------------------------------------------------------------------
  // Steps keep the invariant

  /** Only slot `i` and its ledger changed. */
  lemma OneSlot(env: Env, s: Sys, b: Book, s': Sys, b': Book, i: nat)
    requires SameSize(s, b) && SlotsOk(env, s, b) && i < |s.slots| == |s'.slots| && SameSize(s', b')
    requires forall j | 0 <= j < |s.slots| && j != i :: s'.slots[j] == s.slots[j] && b'.ledgers[j] == b.ledgers[j]
    requires SlotOk(env.c, s'.slots[i], b'.ledgers[i])
    ensures SlotsOk(env, s', b')
  {
  }

  lemma RestartKeeps(env: Env, s: Sys, b: Book)
    requires SysInv(env, s, b)
    ensures SysInv(env, Stopped(s), b)
  {
    forall i | 0 <= i < |s.slots|
      ensures SlotOk(env.c, Stopped(s).slots[i], b.ledgers[i])
    {
      CloseOk(env.c, s.slots[i], b.ledgers[i]);
    }
  }

  lemma BootConsistent(env: Env, s: Sys, b: Book)
    requires Consistent(env, s, b) && s.dir.None? && Opens(env.c.f, s.slots[0], b.ledgers[0])
    ensures
      var s' := Booted(env, s);
      var b' := Track(env, s, b, Boot);
      Consistent(env, s', b') && s'.dir.Some? && s'.dir.value.table.ids == Stored(env, b')
  {
    var l' := OpenLedger(env.c.f, s.slots[0], b.ledgers[0]);
    OpenedHistory(env, s, b, 0);
    assert Newer(env, |s.slots|, Stored(env, b), l'.committed.data);
    assert Stored(env, Track(env, s, b, Boot)) == env.codec.decode(l'.committed.data).value;
  }

  lemma BootKeeps(env: Env, s: Sys, b: Book)
    requires SysInv(env, s, b) && env.c.f.Valid()
    ensures SysInv(env, Booted(env, s), Track(env, s, b, Boot))
  {
    if s.dir.None? {
      OpenOk(env.c, s.slots[0], b.ledgers[0]);
      BootConsistent(env, s, b);
      OneSlot(env, s, b, Booted(env, s), Track(env, s, b, Boot), 0);
    }
  }

  lemma FetchConsistent(env: Env, s: Sys, b: Book, t: nat)
    requires Consistent(env, s, b) && t in s.calls && s.calls[t].Located?
    requires Opens(env.c.f, s.slots[s.calls[t].slot], b.ledgers[s.calls[t].slot])
    ensures Consistent(env, FetchedBy(env, s, t), Track(env, s, b, Fetch(t)))
  {
    OpenedHistory(env, s, b, s.calls[t].slot);
    assert CallOk(s, s.calls[t]);
    FetchCalls(env, s, t);
  }

  /** Opening the slot and noting what is in it. */
  lemma FetchCalls(env: Env, s: Sys, t: nat)
    requires env.c.f.bs > 0 && s.Valid() && CallsOk(s) && t in s.calls && s.calls[t].Located?
    requires Open(env.c.f, s.slots[s.calls[t].slot]).mem.Some?
    ensures FetchedBy(env, s, t).Valid() && CallsOk(FetchedBy(env, s, t))
  {
    var s' := FetchedBy(env, s, t);
    assert CallOk(s, s.calls[t]);
    forall u | u in s'.calls
      ensures CallOk(s', s'.calls[u])
    {
      if u != t {
        assert CallOk(s, s.calls[u]);
      }
    }
  }

  lemma FetchKeeps(env: Env, s: Sys, b: Book, t: nat)
    requires SysInv(env, s, b) && env.c.f.Valid()
    ensures SysInv(env, FetchedBy(env, s, t), Track(env, s, b, Fetch(t)))
  {
    if t in s.calls && s.calls[t].Located? {
      var i := s.calls[t].slot;
      OpenOk(env.c, s.slots[i], b.ledgers[i]);
      FetchConsistent(env, s, b, t);
      OneSlot(env, s, b, FetchedBy(env, s, t), Track(env, s, b, Fetch(t)), i);
    }
  }

  /** A call for a log that has a slot, or that gets none. */
  lemma LocateKnown(env: Env, s: Sys, b: Book, t: nat, id: string, outcome: Outcome)
    requires Consistent(env, s, b) && env.c.f.Valid() && !NeedsSlot(s, t, id)
    ensures Consistent(env, LocatedAt(env, s, t, id, outcome), b)
    ensures LocatedAt(env, s, t, id, outcome).slots == s.slots
  {
    var s' := LocatedAt(env, s, t, id, outcome);
    forall u | u in s'.calls
      ensures CallOk(s', s'.calls[u])
    {
      if u in s.calls {
        assert CallOk(s, s.calls[u]);
      }
    }
  }

  /** The directory once slot 0 was written, or a write to it failed. */
  lemma DirectoryWritten(env: Env, n: nat, d: Running, l: Runs.Ledger, id: string)
    requires env.codec.Valid() && DirectorySlotOk(env, n, l) && RunningOk(env, n, l, d)
    requires id !in d.table.ids && d.table.free != []
    ensures
      var table, data := Assign(d.table, id), NewDirectory(env, d, id);
      var stored := Runs.Ledger(Record(l.committed.revision + 1, data), {});
      var failed := l.(pending := l.pending + {data});
      && 1 <= d.table.free[0] < n
      && Extends(d.table.ids, table.ids)
      && DirectorySlotOk(env, n, stored) && RunningOk(env, n, stored, Running(table, d.token + 1))
      && MapIn(env, data) == table.ids
      && DirectorySlotOk(env, n, failed) && RunningOk(env, n, failed, Running(table, d.token))
      && RunningOk(env, n, l, Running(table, d.token))
  {
    AssignPartitions(n, d.table, id);
    assert d.table.free[0] in d.table.free;
  }

  /** A new log's directory entry is written to slot 0, or the write fails. */
  ghost predicate SlotZeroWritten(env: Env, s: Sys, b: Book, data: Bytes, outcome: Outcome)
    requires s.slots != [] && b.ledgers != []
  {
    && env.c.f.Valid() && s.slots[0].Valid() && s.slots[0].mem.Some?
    && Landed(env.c.f.bs, data, outcome) <= BlocksFor(env.c.f.bs, data)
    && (Accepted(env, s, data) ==> Replaces(env.c.f, s.slots[0], b.ledgers[0], data, outcome))
    && (!Accepted(env, s, data) ==> SlotModel.Write(env.c.f, s.slots[0], data, outcome) == s.slots[0])
  }

  /** What a new log changes outside its slot 0 write, and that the directory stays in order. */
  ghost predicate LocatedNew(env: Env, s: Sys, s': Sys, b': Book, t: nat, id: string, stored: bool)
    requires s.dir.Some? && s.dir.value.table.free != []
  {
    var d := s.dir.value;
    && s'.Valid() && SameSize(s', b')
    && DirectoryOk(env, s', b')
    && s'.dir.Some? && s'.dir.value.table == Assign(d.table, id)
    && Extends(d.table.ids, s'.dir.value.table.ids)
    && s'.calls == (if stored then s.calls[t := Located(id, d.table.free[0])] else s.calls)
  }

  lemma LocateStored(env: Env, s: Sys, b: Book, t: nat, id: string, outcome: Outcome)
    requires Consistent(env, s, b) && NeedsSlot(s, t, id)
    requires SlotZeroWritten(env, s, b, NewDirectory(env, s.dir.value, id), outcome)
    requires Stores(env, s, id, outcome)
    ensures
      var s', b' := LocatedAt(env, s, t, id, outcome), Track(env, s, b, Locate(t, id, outcome));
      LocatedNew(env, s, s', b', t, id, true)
  {
    DirectoryWritten(env, |s.slots|, s.dir.value, b.ledgers[0], id);
  }

  lemma LocateNotStored(env: Env, s: Sys, b: Book, t: nat, id: string, outcome: Outcome)
    requires Consistent(env, s, b) && NeedsSlot(s, t, id)
    requires SlotZeroWritten(env, s, b, NewDirectory(env, s.dir.value, id), outcome)
    requires !Stores(env, s, id, outcome)
    ensures
      var s', b' := LocatedAt(env, s, t, id, outcome), Track(env, s, b, Locate(t, id, outcome));
      LocatedNew(env, s, s', b', t, id, false)
  {
    DirectoryWritten(env, |s.slots|, s.dir.value, b.ledgers[0], id);
  }

  lemma LocateNew(env: Env, s: Sys, b: Book, t: nat, id: string, outcome: Outcome)
    requires Consistent(env, s, b) && NeedsSlot(s, t, id)
    requires SlotZeroWritten(env, s, b, NewDirectory(env, s.dir.value, id), outcome)
    ensures Consistent(env, LocatedAt(env, s, t, id, outcome), Track(env, s, b, Locate(t, id, outcome)))
  {
    var s', b' := LocatedAt(env, s, t, id, outcome), Track(env, s, b, Locate(t, id, outcome));
    if Stores(env, s, id, outcome) {
      LocateStored(env, s, b, t, id, outcome);
    } else {
      LocateNotStored(env, s, b, t, id, outcome);
    }
    NotedHistory(env, b, 0, b'.ledgers[0]);
    forall u | u in s'.calls
      ensures CallOk(s', s'.calls[u])
    {
      if u in s.calls {
        assert CallOk(s, s.calls[u]);
      }
    }
  }

  predicate Accepted(env: Env, s: Sys, data: Bytes)
    requires s.slots != []
  {
    Runs.Accepted(env.c.f.bs, |s.slots[0].disk|, data)
  }

  /** Only slot 0 is written. */
  lemma LocateSlots(env: Env, s: Sys, b: Book, t: nat, id: string, outcome: Outcome)
    requires WellFormed(env, s, Locate(t, id, outcome)) && SameSize(s, b) && SlotsOk(env, s, b) && NeedsSlot(s, t, id)
    requires
      var data := NewDirectory(env, s.dir.value, id);
      SlotOk(env.c, SlotModel.Write(env.c.f, s.slots[0], data, outcome),
             WriteLedger(env.c.f.bs, s.slots[0], b.ledgers[0], data, outcome))
    ensures SlotsOk(env, LocatedAt(env, s, t, id, outcome), Track(env, s, b, Locate(t, id, outcome)))
  {
    OneSlot(env, s, b, LocatedAt(env, s, t, id, outcome), Track(env, s, b, Locate(t, id, outcome)), 0);
  }

  lemma LocateKeeps(env: Env, s: Sys, b: Book, t: nat, id: string, outcome: Outcome)
    requires SysInv(env, s, b) && Legal(env, s, Locate(t, id, outcome))
    ensures SysInv(env, LocatedAt(env, s, t, id, outcome), Track(env, s, b, Locate(t, id, outcome)))
  {
    if NeedsSlot(s, t, id) {
      var data := NewDirectory(env, s.dir.value, id);
      WriteOk(env.c, s.slots[0], b.ledgers[0], data, outcome);
      LocateNew(env, s, b, t, id, outcome);
      LocateSlots(env, s, b, t, id, outcome);
    } else {
      LocateKnown(env, s, b, t, id, outcome);
    }
  }

  /** A call that writes nothing just ends. */
  lemma CommitNothing(env: Env, s: Sys, b: Book, t: nat, f: Function, outcome: Outcome)
    requires Consistent(env, s, b) && WellFormed(env, s, Commit(t, f, outcome))
    requires Writes(env, s, t, f) ==> s.calls[t].token != s.slots[s.calls[t].slot].Current().revision
    ensures Consistent(env, CommittedBy(env, s, t, f, outcome), b)
    ensures CommittedBy(env, s, t, f, outcome).slots == s.slots
  {
    var s' := CommittedBy(env, s, t, f, outcome);
    assert Writes(env, s, t, f) ==> s.slots[s.calls[t].slot := s.slots[s.calls[t].slot]] == s.slots;
    forall u | u in s'.calls
      ensures CallOk(s', s'.calls[u])
    {
      assert CallOk(s, s.calls[u]);
    }
  }

  /** The write of a call whose token is current: what it replaces is what it fetched. */
  lemma CommitHistory(env: Env, b: Book, i: nat, id: string, f: Function, data: Bytes, l': Runs.Ledger)
    requires b.Sized(|b.ledgers|) && HistoryOk(env, b) && 0 < i < |b.ledgers|
    requires NewData(env, b.ledgers[i].committed.data, f) == Some(data)
    requires
      var l := b.ledgers[i];
      || l' == l
      || l' == Runs.Ledger(Record(l.committed.revision + 1, data), {})
      || l' == l.(pending := l.pending + {data})
    ensures HistoryOk(env, Noted(Attempted(b, i, id, f), i, l'))
  {
    var b1, a := Attempted(b, i, id, f), Attempt(|b.history[i]|, id, f);
    assert b1.attempts[i][|b.attempts[i]|] == a;
    assert Explained(env, b.history[i], data, b1.attempts[i]);
    ChainedMore(env, b.history[i], b.attempts[i], a);
    forall x | x in b.ledgers[i].pending
      ensures Explained(env, b.history[i], x, b1.attempts[i])
    {
      ExplainedMore(env, b.history[i], x, b.attempts[i], a);
    }
    NotedHistory(env, b1, i, l');
  }

  lemma CommitConsistent(env: Env, s: Sys, b: Book, t: nat, f: Function, outcome: Outcome)
    requires Consistent(env, s, b) && WellFormed(env, s, Commit(t, f, outcome)) && Writes(env, s, t, f)
    requires
      var p := s.calls[t];
      var slot, data := s.slots[p.slot], NewData(env, p.base, f).value;
      && p.token == slot.Current().revision
      && slot.Current() == b.ledgers[p.slot].committed
      && (if Runs.Accepted(env.c.f.bs, |slot.disk|, data)
          then Replaces(env.c.f, slot, b.ledgers[p.slot], data, outcome)
          else SlotModel.Write(env.c.f, slot, data, outcome) == slot)
    ensures Consistent(env, CommittedBy(env, s, t, f, outcome), Track(env, s, b, Commit(t, f, outcome)))
  {
    var p := s.calls[t];
    var s', b' := CommittedBy(env, s, t, f, outcome), Track(env, s, b, Commit(t, f, outcome));
    assert CallOk(s, p);
    CommitHistory(env, b, p.slot, p.id, f, NewData(env, p.base, f).value, b'.ledgers[p.slot]);
    CommitCalls(env, s, t, f, outcome);
  }

  /** Other calls on the slot are outdated by the write, if it succeeds, and not touched otherwise. */
  lemma CommitCalls(env: Env, s: Sys, t: nat, f: Function, outcome: Outcome)
    requires WellFormed(env, s, Commit(t, f, outcome)) && CallsOk(s) && Writes(env, s, t, f)
    requires
      var p := s.calls[t];
      var slot, slot' := s.slots[p.slot], CommittedBy(env, s, t, f, outcome).slots[p.slot];
      slot'.Current() == slot.Current() || slot'.Current().revision == slot.Current().revision + 1
    ensures CommittedBy(env, s, t, f, outcome).Valid() && CallsOk(CommittedBy(env, s, t, f, outcome))
  {
    var s' := CommittedBy(env, s, t, f, outcome);
    forall u | u in s'.calls
      ensures CallOk(s', s'.calls[u])
    {
      assert CallOk(s, s.calls[u]);
    }
  }

  lemma CommitKeeps(env: Env, s: Sys, b: Book, t: nat, f: Function, outcome: Outcome)
    requires SysInv(env, s, b) && Legal(env, s, Commit(t, f, outcome))
    ensures SysInv(env, CommittedBy(env, s, t, f, outcome), Track(env, s, b, Commit(t, f, outcome)))
  {
    if Writes(env, s, t, f) && s.calls[t].token == s.slots[s.calls[t].slot].Current().revision {
      var p := s.calls[t];
      WriteOk(env.c, s.slots[p.slot], b.ledgers[p.slot], NewData(env, p.base, f).value, outcome);
      CommitConsistent(env, s, b, t, f, outcome);
      OneSlot(env, s, b, CommittedBy(env, s, t, f, outcome), Track(env, s, b, Commit(t, f, outcome)), p.slot);
    } else {
      CommitNothing(env, s, b, t, f, outcome);
    }
  }

  lemma StepKeeps(env: Env, s: Sys, b: Book, e: Event)
    requires SysInv(env, s, b) && Legal(env, s, e)
    ensures SysInv(env, Step(env, s, e), Track(env, s, b, e))
  {
    match e
    case Restart => RestartKeeps(env, s, b);
    case Boot => BootKeeps(env, s, b);
    case Locate(t, id, outcome) => LocateKeeps(env, s, b, t, id, outcome);
    case Fetch(t) => FetchKeeps(env, s, b, t);
    case Commit(t, f, outcome) => CommitKeeps(env, s, b, t, f, outcome);
  }
}
