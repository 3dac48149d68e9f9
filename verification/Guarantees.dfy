/**
 Guarantees of the storage over whole runs, from a zeroed partition on: the invariant,
 no lost updates, durability of stored checkpoints, and tidy allocation.
 */
module Guarantees {
  import opened Blocks
  import opened Entries
  import opened JournalModel
  import Runs
  import opened SlotModel
  import opened Directory
  import opened Persistence
  import opened Durability

  // ---------------------------------------------------------------------
  // Runs

  ghost predicate LegalRun(env: Env, s: Sys, events: seq<Event>)
    decreases |events|
  {
    events != [] ==> Legal(env, s, events[0]) && LegalRun(env, Step(env, s, events[0]), events[1..])
  }

  ghost function Run(env: Env, s: Sys, events: seq<Event>): Sys
    requires LegalRun(env, s, events)
    decreases |events|
  {
    if events == [] then s else Run(env, Step(env, s, events[0]), events[1..])
  }

  ghost function TrackAll(env: Env, s: Sys, b: Book, events: seq<Event>): (b': Book)
    requires LegalRun(env, s, events) && SameSize(s, b)
    ensures b'.Sized(|s.slots|)
    decreases |events|
  {
    if events == [] then b else TrackAll(env, Step(env, s, events[0]), Track(env, s, b, events[0]), events[1..])
  }

  lemma {:induction false} RunKeeps(env: Env, s: Sys, b: Book, events: seq<Event>)
    requires SysInv(env, s, b) && LegalRun(env, s, events)
    ensures SysInv(env, Run(env, s, events), TrackAll(env, s, b, events))
    decreases |events|
  {
    if events != [] {
      StepKeeps(env, s, b, events[0]);
      RunKeeps(env, Step(env, s, events[0]), Track(env, s, b, events[0]), events[1..]);
    }
  }

  /** A zeroed partition with slots of the given lengths, before the first start. */
  function Blank(f: Format, lengths: seq<nat>): Sys {
    Sys(seq(|lengths|, i requires 0 <= i < |lengths| => Slot(Runs.Fresh(f, lengths[i]).disk, None)), None, map[])
  }

  function BlankBook(n: nat): Book {
    Book(seq(n, _ => Runs.EMPTY), seq(n, _ => []), seq(n, _ => []))
  }

  lemma BlankOk(env: Env, lengths: seq<nat>)
    requires env.c.f.Valid() && env.codec.Valid() && lengths != []
    requires forall i | 0 <= i < |lengths| :: lengths[i] * env.c.f.bs < TWO32
    ensures SysInv(env, Blank(env.c.f, lengths), BlankBook(|lengths|))
  {
    var s, b := Blank(env.c.f, lengths), BlankBook(|lengths|);
    forall i | 0 <= i < |s.slots|
      ensures SlotOk(env.c, s.slots[i], b.ledgers[i])
    {
      FreshSlotOk(env.c, lengths[i]);
    }
  }

  // ---------------------------------------------------------------------
  // No lost updates

  /** A call's write is tried: its token is current. */
  predicate Tries(env: Env, s: Sys, t: nat, f: Function) {
    && Writes(env, s, t, f)
    && var p := s.calls[t];
       && p.slot < |s.slots|
       && s.slots[p.slot].mem.Some?
       && p.token == s.slots[p.slot].Current().revision
  }

  /** And goes through: the data is accepted and the device succeeds. */
  predicate Wins(env: Env, s: Sys, t: nat, f: Function, outcome: Outcome) {
    && Tries(env, s, t, f)
    && var p := s.calls[t];
       Succeeds(env.c.f.bs, s.slots[p.slot], NewData(env, p.base, f).value, outcome)
  }

  /** The event is a call's write to slot `i`, made when the slot had held `a.version` checkpoints. */
  ghost predicate Makes(env: Env, s: Sys, b: Book, e: Event, i: nat, a: Attempt)
    requires SameSize(s, b)
  {
    && e.Commit?
    && Tries(env, s, e.t, e.f)
    && s.calls[e.t].slot == i
    && a == Attempt(|b.history[i]|, s.calls[e.t].id, e.f)
  }

  ghost predicate MadeIn(env: Env, s: Sys, b: Book, events: seq<Event>, i: nat, a: Attempt)
    requires LegalRun(env, s, events) && SameSize(s, b)
    decreases |events|
  {
    && events != []
    && (|| Makes(env, s, b, events[0], i, a)
        || MadeIn(env, Step(env, s, events[0]), Track(env, s, b, events[0]), events[1..], i, a))
  }

  /** The book's attempts are exactly commits of the run. */
  lemma {:induction false} AttemptsMade(env: Env, s: Sys, b: Book, events: seq<Event>, i: nat, a: Attempt)
    requires LegalRun(env, s, events) && SameSize(s, b) && i < |s.slots|
    requires a in TrackAll(env, s, b, events).attempts[i]
    ensures a in b.attempts[i] || MadeIn(env, s, b, events, i, a)
    decreases |events|
  {
    if events != [] {
      var s', b' := Step(env, s, events[0]), Track(env, s, b, events[0]);
      AttemptsMade(env, s', b', events[1..], i, a);
      if a in b'.attempts[i] {
        StepAttempts(env, s, b, events[0], i, a);
      }
    }
  }

  lemma StepAttempts(env: Env, s: Sys, b: Book, e: Event, i: nat, a: Attempt)
    requires WellFormed(env, s, e) && SameSize(s, b) && i < |s.slots|
    requires a in Track(env, s, b, e).attempts[i]
    ensures a in b.attempts[i] || Makes(env, s, b, e, i, a)
  {
  }

  /** Checkpoints are only ever added to a slot's history. */
  lemma {:induction false} HistoryGrows(env: Env, s: Sys, b: Book, events: seq<Event>, i: nat)
    requires LegalRun(env, s, events) && SameSize(s, b) && i < |s.slots|
    ensures b.history[i] <= TrackAll(env, s, b, events).history[i]
    decreases |events|
  {
    if events != [] {
      HistoryGrows(env, Step(env, s, events[0]), Track(env, s, b, events[0]), events[1..], i);
    }
  }

  /**
   In every state of every run: log slots and free list partition the slots 1 to n - 1,
   the write token is the directory slot's revision, the stored map is part of the one in
   memory, and each slot's checkpoints form a chain: each was computed from the one right
   before it by the function of a commit of this run to this slot.
   */
  lemma EveryRun(env: Env, lengths: seq<nat>, events: seq<Event>)
    requires env.c.f.Valid() && env.codec.Valid() && lengths != []
    requires forall i | 0 <= i < |lengths| :: lengths[i] * env.c.f.bs < TWO32
    requires LegalRun(env, Blank(env.c.f, lengths), events)
    ensures
      var s0, b0 := Blank(env.c.f, lengths), BlankBook(|lengths|);
      var s, b := Run(env, s0, events), TrackAll(env, s0, b0, events);
      && SameSize(s, b) && s.Valid()
      && (s.dir.Some? ==>
            && Partitioned(|s.slots|, s.dir.value.table)
            && s.dir.value.token == s.slots[0].Current().revision
            && Extends(Stored(env, b), s.dir.value.table.ids))
      && (forall i | 1 <= i < |s.slots| ::
            && Chained(env, b.history[i], b.attempts[i])
            && (s.slots[i].mem.Some? ==> s.slots[i].Current().data == Last(b.history[i])))
      && (forall i, a | 1 <= i < |s.slots| && a in b.attempts[i] :: MadeIn(env, s0, b0, events, i, a))
  {
    BlankOk(env, lengths);
    var s0, b0 := Blank(env.c.f, lengths), BlankBook(|lengths|);
    RunKeeps(env, s0, b0, events);
    var s, b := Run(env, s0, events), TrackAll(env, s0, b0, events);
    forall i | 1 <= i < |s.slots| && s.slots[i].mem.Some?
      ensures s.slots[i].Current().data == Last(b.history[i])
    {
      CurrentIsCommitted(env.c, s.slots[i], b.ledgers[i]);
    }
    forall i, a | 1 <= i < |s.slots| && a in b.attempts[i]
      ensures MadeIn(env, s0, b0, events, i, a)
    {
      AttemptsMade(env, s0, b0, events, i, a);
    }
  }

  /** A successful commit adds exactly its own checkpoint, computed from the last one in the history. */
  lemma WinAppends(env: Env, s: Sys, b: Book, t: nat, f: Function, outcome: Outcome)
    requires SysInv(env, s, b) && Legal(env, s, Commit(t, f, outcome)) && Wins(env, s, t, f, outcome)
    ensures
      var i, b' := s.calls[t].slot, Track(env, s, b, Commit(t, f, outcome));
      && NewData(env, Last(b.history[i]), f).Some?
      && b'.history == b.history[i := b.history[i] + [NewData(env, Last(b.history[i]), f).value]]
  {
    assert CallOk(s, s.calls[t]);
    CurrentIsCommitted(env.c, s.slots[s.calls[t].slot], b.ledgers[s.calls[t].slot]);
    WinNoted(env, s, b, t, f, outcome);
  }

  lemma WinNoted(env: Env, s: Sys, b: Book, t: nat, f: Function, outcome: Outcome)
    requires WellFormed(env, s, Commit(t, f, outcome)) && SameSize(s, b) && Wins(env, s, t, f, outcome)
    requires s.slots[s.calls[t].slot].Current() == b.ledgers[s.calls[t].slot].committed
    ensures
      var p, b' := s.calls[t], Track(env, s, b, Commit(t, f, outcome));
      b'.history == b.history[p.slot := b.history[p.slot] + [NewData(env, p.base, f).value]]
  {
  }

  /**
   No successful update is lost from its slot: it adds exactly its own checkpoint, and
   whatever happens afterwards that stays in the slot's history, right behind the one it was
   computed from.
   */
  lemma NoLostUpdate(env: Env, s: Sys, b: Book, t: nat, f: Function, outcome: Outcome, events: seq<Event>)
    requires SysInv(env, s, b) && Legal(env, s, Commit(t, f, outcome)) && Wins(env, s, t, f, outcome)
    requires LegalRun(env, Step(env, s, Commit(t, f, outcome)), events)
    ensures
      var e, i := Commit(t, f, outcome), s.calls[t].slot;
      var h, h' := b.history[i], TrackAll(env, Step(env, s, e), Track(env, s, b, e), events).history[i];
      && NewData(env, Last(h), f).Some?
      && h + [NewData(env, Last(h), f).value] <= h'
  {
    WinAppends(env, s, b, t, f, outcome);
    var e := Commit(t, f, outcome);
    HistoryGrows(env, Step(env, s, e), Track(env, s, b, e), events, s.calls[t].slot);
  }

  // ---------------------------------------------------------------------
  // Durability

  datatype Answer = NotFound | Found(cp: Bytes) | Unavailable

  /** What `Latest` answers for the data in a slot. */
  function AnswerFor(env: Env, data: Bytes): Answer {
    if data == [] then NotFound
    else
      match UnmarshalCheckpoint(env.codec, data)
      case None => Unavailable
      case Some(cp) => Found(cp)
  }

  function Latest(env: Env, s: Sys, id: string): Answer
    requires env.c.f.bs > 0 && s.Valid()
  {
    if s.dir.None? then Unavailable
    else if id !in s.dir.value.table.ids then NotFound
    else
      var i := s.dir.value.table.ids[id];
      if i >= |s.slots| then Unavailable
      else
        var slot := Open(env.c.f, s.slots[i]);
        if slot.mem.None? then Unavailable else AnswerFor(env, slot.Current().data)
  }

  /** A log whose slot is on the disk and has no failed writes pending. */
  ghost predicate Settled(env: Env, b: Book, id: string, i: nat, r: Record) {
    && b.ledgers != []
    && id in Stored(env, b) && Stored(env, b)[id] == i
    && 0 < i < |b.ledgers| && b.ledgers[i] == Runs.Ledger(r, {})
  }

  /** The event writes to slot `i`: a commit with a current token and data of accepted size. */
  predicate WritesTo(env: Env, s: Sys, e: Event, i: nat) {
    && e.Commit?
    && Tries(env, s, e.t, e.f)
    && s.calls[e.t].slot == i
    && Runs.Accepted(env.c.f.bs, |s.slots[i].disk|, NewData(env, s.calls[e.t].base, e.f).value)
  }

  lemma StepSettled(env: Env, s: Sys, b: Book, e: Event, id: string, i: nat, r: Record)
    requires SysInv(env, s, b) && Legal(env, s, e) && Settled(env, b, id, i, r)
    requires !WritesTo(env, s, e, i)
    ensures Settled(env, Track(env, s, b, e), id, i, r)
  {
    match e
    case Restart =>
    case Boot =>
      OpenOk(env.c, s.slots[0], b.ledgers[0]);
    case Locate(t, name, outcome) =>
      if NeedsSlot(s, t, name) {
        DirectoryWritten(env, |s.slots|, s.dir.value, b.ledgers[0], name);
      }
    case Fetch(t) =>
      if t in s.calls && s.calls[t].Located? {
        assert CallOk(s, s.calls[t]);
        OpenOk(env.c, s.slots[s.calls[t].slot], b.ledgers[s.calls[t].slot]);
      }
    case Commit(t, f, outcome) =>
      if t in s.calls {
        assert CallOk(s, s.calls[t]);
      }
  }

  ghost predicate LeavesAlone(env: Env, s: Sys, events: seq<Event>, i: nat)
    requires LegalRun(env, s, events)
    decreases |events|
  {
    events != [] ==>
      !WritesTo(env, s, events[0], i) && LeavesAlone(env, Step(env, s, events[0]), events[1..], i)
  }

  lemma {:induction false} RunSettled(env: Env, s: Sys, b: Book, events: seq<Event>, id: string, i: nat, r: Record)
    requires SysInv(env, s, b) && LegalRun(env, s, events) && Settled(env, b, id, i, r)
    requires LeavesAlone(env, s, events, i)
    ensures Settled(env, TrackAll(env, s, b, events), id, i, r)
    decreases |events|
  {
    if events != [] {
      StepSettled(env, s, b, events[0], id, i, r);
      StepKeeps(env, s, b, events[0]);
      RunSettled(env, Step(env, s, events[0]), Track(env, s, b, events[0]), events[1..], id, i, r);
    }
  }

  lemma SettledAnswer(env: Env, s: Sys, b: Book, id: string, i: nat, r: Record)
    requires SysInv(env, s, b) && Settled(env, b, id, i, r) && s.dir.Some?
    ensures env.c.f.Valid() && Latest(env, s, id) == AnswerFor(env, r.data)
  {
    OpenOk(env.c, s.slots[i], b.ledgers[i]);
  }

  /**
   Durability: once a log's slot is stored and its last write succeeded, `Latest` gives
   that checkpoint after any run, with any restarts and any calls for this log and others, in
   which nothing is written for the log.
   */
  lemma Durable(env: Env, s: Sys, b: Book, events: seq<Event>, id: string, i: nat, r: Record)
    requires SysInv(env, s, b) && LegalRun(env, s, events) && Settled(env, b, id, i, r)
    requires LeavesAlone(env, s, events, i) && Run(env, s, events).dir.Some?
    ensures env.c.f.bs > 0 && Run(env, s, events).Valid()
    ensures Latest(env, Run(env, s, events), id) == AnswerFor(env, r.data)
  {
    RunKeeps(env, s, b, events);
    RunSettled(env, s, b, events, id, i, r);
    SettledAnswer(env, Run(env, s, events), TrackAll(env, s, b, events), id, i, r);
  }

  lemma CommitSettles(env: Env, s: Sys, b: Book, t: nat, f: Function, outcome: Outcome)
    requires SysInv(env, s, b) && Legal(env, s, Commit(t, f, outcome)) && Wins(env, s, t, f, outcome)
    requires s.calls[t].id in Stored(env, b)
    ensures
      var p := s.calls[t];
      var r := Record(p.token + 1, NewData(env, p.base, f).value);
      Settled(env, Track(env, s, b, Commit(t, f, outcome)), p.id, p.slot, r)
  {
    assert CallOk(s, s.calls[t]);
    CurrentIsCommitted(env.c, s.slots[s.calls[t].slot], b.ledgers[s.calls[t].slot]);
    WinSettles(env, s, b, t, f, outcome);
  }

  lemma WinSettles(env: Env, s: Sys, b: Book, t: nat, f: Function, outcome: Outcome)
    requires WellFormed(env, s, Commit(t, f, outcome)) && SameSize(s, b) && Wins(env, s, t, f, outcome)
    requires
      var p := s.calls[t];
      && 0 < p.slot && p.id in Stored(env, b) && Stored(env, b)[p.id] == p.slot
      && s.slots[p.slot].Current() == b.ledgers[p.slot].committed
    ensures
      var p := s.calls[t];
      var r := Record(p.token + 1, NewData(env, p.base, f).value);
      Settled(env, Track(env, s, b, Commit(t, f, outcome)), p.id, p.slot, r)
  {
  }

  /**
   End to end: if an update of a log whose slot is stored succeeds, then after any run that
   does not write that log again `Latest` gives exactly the checkpoint the caller computed.
   */
  lemma UpdateIsDurable(env: Env, s: Sys, b: Book, t: nat, f: Function, outcome: Outcome, events: seq<Event>)
    requires SysInv(env, s, b) && Legal(env, s, Commit(t, f, outcome)) && Wins(env, s, t, f, outcome)
    requires s.calls[t].id in Stored(env, b)
    requires
      var s' := Step(env, s, Commit(t, f, outcome));
      LegalRun(env, s', events) && LeavesAlone(env, s', events, s.calls[t].slot) && Run(env, s', events).dir.Some?
    ensures
      var p, end := s.calls[t], Run(env, Step(env, s, Commit(t, f, outcome)), events);
      var cp := UnmarshalCheckpoint(env.codec, p.base).value;
      end.Valid() && Latest(env, end, p.id) == Found(f(cp).value)
  {
    var p := s.calls[t];
    var e := Commit(t, f, outcome);
    var r := Record(p.token + 1, NewData(env, p.base, f).value);
    StepKeeps(env, s, b, e);
    CommitSettles(env, s, b, t, f, outcome);
    Durable(env, Step(env, s, e), Track(env, s, b, e), events, p.id, p.slot, r);
    CheckpointRoundTrip(env.codec, f(UnmarshalCheckpoint(env.codec, p.base).value).value);
  }

  // ---------------------------------------------------------------------
  // Stored logs

  /** A log whose slot is in the stored map. */
  ghost predicate HasSlot(env: Env, b: Book, id: string, i: nat) {
    b.ledgers != [] && id in Stored(env, b) && Stored(env, b)[id] == i
  }

  /** A stored log keeps its slot, and nobody else writes to it. */
  lemma StepStored(env: Env, s: Sys, b: Book, e: Event, id: string, i: nat)
    requires SysInv(env, s, b) && Legal(env, s, e) && HasSlot(env, b, id, i) && i < |s.slots|
    ensures
      var b' := Track(env, s, b, e);
      && HasSlot(env, b', id, i)
      && (b'.attempts[i] == b.attempts[i]
          || exists a: Attempt :: b'.attempts[i] == b.attempts[i] + [a] && a.id == id)
  {
    match e
    case Restart =>
    case Boot =>
      OpenOk(env.c, s.slots[0], b.ledgers[0]);
    case Locate(t, name, outcome) =>
      if NeedsSlot(s, t, name) {
        DirectoryWritten(env, |s.slots|, s.dir.value, b.ledgers[0], name);
      }
    case Fetch(t) =>
      if t in s.calls {
        assert CallOk(s, s.calls[t]);
      }
    case Commit(t, f, outcome) =>
      if t in s.calls {
        assert CallOk(s, s.calls[t]);
      }
  }

  /** The attempts from number `n` on were made for log `id`. */
  ghost predicate MadeFor(attempts: seq<Attempt>, n: nat, id: string) {
    n <= |attempts| && forall j | n <= j < |attempts| :: attempts[j].id == id
  }

  /** In every run a stored log keeps its slot, and all attempts to write there are the log's own. */
  lemma {:induction false} RunStored(env: Env, s: Sys, b: Book, events: seq<Event>, id: string, i: nat)
    requires SysInv(env, s, b) && LegalRun(env, s, events) && HasSlot(env, b, id, i) && i < |s.slots|
    ensures
      var b' := TrackAll(env, s, b, events);
      HasSlot(env, b', id, i) && b.attempts[i] <= b'.attempts[i] && MadeFor(b'.attempts[i], |b.attempts[i]|, id)
    decreases |events|
  {
    if events != [] {
      var s', b' := Step(env, s, events[0]), Track(env, s, b, events[0]);
      StepStored(env, s, b, events[0], id, i);
      StepKeeps(env, s, b, events[0]);
      RunStored(env, s', b', events[1..], id, i);
    }
  }

  /** In every run the stored map only grows. */
  lemma StoredGrows(env: Env, s: Sys, b: Book, events: seq<Event>)
    requires SysInv(env, s, b) && LegalRun(env, s, events)
    ensures Extends(Stored(env, b), Stored(env, TrackAll(env, s, b, events)))
  {
    forall id | id in Stored(env, b)
      ensures HasSlot(env, TrackAll(env, s, b, events), id, Stored(env, b)[id])
    {
      RunStored(env, s, b, events, id, Stored(env, b)[id]);
    }
  }

  /** What is read from a slot once it is open. */
  ghost function Holds(env: Env, s: Sys, i: nat): Bytes
    requires env.c.f.bs > 0 && s.Valid() && i < |s.slots|
  {
    var slot := Open(env.c.f, s.slots[i]);
    if slot.mem.Some? then slot.Current().data else []
  }

  /** `Latest` answers with the last checkpoint of the slot's history, or an attempt to replace exactly that. */
  lemma LatestIs(env: Env, s: Sys, b: Book, id: string)
    requires SysInv(env, s, b) && env.c.f.Valid() && s.dir.Some? && id in s.dir.value.table.ids
    ensures
      var i := s.dir.value.table.ids[id];
      && 1 <= i < |s.slots|
      && Latest(env, s, id) == AnswerFor(env, Holds(env, s, i))
      && (Holds(env, s, i) == Last(b.history[i]) || Explained(env, b.history[i], Holds(env, s, i), b.attempts[i]))
  {
    var i := s.dir.value.table.ids[id];
    OpenOk(env.c, s.slots[i], b.ledgers[i]);
  }

  /**
   Log `id` has slot `i`, whose history goes on from `h`, each checkpoint the result of an
   attempt on the one right before; all attempts after `made` were for this log; and `Latest`
   answers with the last checkpoint, or with an attempt on it that reached the disk.
   */
  ghost predicate Continues(env: Env, s: Sys, b: Book, id: string, i: nat, h: seq<Bytes>, made: seq<Attempt>)
  {
    && env.c.f.bs > 0 && s.Valid() && SameSize(s, b) && s.dir.Some?
    && id in s.dir.value.table.ids && s.dir.value.table.ids[id] == i && 1 <= i < |s.slots|
    && h <= b.history[i]
    && Chained(env, b.history[i], b.attempts[i])
    && made <= b.attempts[i] && MadeFor(b.attempts[i], |made|, id)
    && Latest(env, s, id) == AnswerFor(env, Holds(env, s, i))
    && (Holds(env, s, i) == Last(b.history[i]) || Explained(env, b.history[i], Holds(env, s, i), b.attempts[i]))
  }

  lemma StoredContinues(env: Env, s: Sys, b: Book, events: seq<Event>, id: string, i: nat)
    requires SysInv(env, s, b) && env.c.f.Valid() && HasSlot(env, b, id, i) && i < |s.slots|
    requires LegalRun(env, s, events) && Run(env, s, events).dir.Some?
    ensures Continues(env, Run(env, s, events), TrackAll(env, s, b, events), id, i, b.history[i], b.attempts[i])
  {
    RunKeeps(env, s, b, events);
    RunStored(env, s, b, events, id, i);
    HistoryGrows(env, s, b, events, i);
    LatestIs(env, Run(env, s, events), TrackAll(env, s, b, events), id);
  }

  /**
   A stored log is never rolled back: after a successful update, and any run whatever, with
   restarts and further writes to the log, the log goes on from that update's checkpoint.
   */
  lemma NeverRolledBack(env: Env, s: Sys, b: Book, t: nat, f: Function, outcome: Outcome, events: seq<Event>)
    requires SysInv(env, s, b) && Legal(env, s, Commit(t, f, outcome)) && Wins(env, s, t, f, outcome)
    requires s.calls[t].id in Stored(env, b)
    requires
      var s' := Step(env, s, Commit(t, f, outcome));
      LegalRun(env, s', events) && Run(env, s', events).dir.Some?
    ensures
      var p, h := s.calls[t], b.history[s.calls[t].slot];
      var s', b' := Step(env, s, Commit(t, f, outcome)), Track(env, s, b, Commit(t, f, outcome));
      && NewData(env, Last(h), f).Some?
      && Continues(env, Run(env, s', events), TrackAll(env, s', b', events), p.id, p.slot,
                   h + [NewData(env, Last(h), f).value], b.attempts[p.slot] + [Attempt(|h|, p.id, f)])
  {
    var e, p := Commit(t, f, outcome), s.calls[t];
    assert CallOk(s, p);
    WinAppends(env, s, b, t, f, outcome);
    StepStored(env, s, b, e, p.id, p.slot);
    StepKeeps(env, s, b, e);
    WinAttempts(env, s, b, t, f, outcome);
    StoredContinues(env, Step(env, s, e), Track(env, s, b, e), events, p.id, p.slot);
  }

  lemma WinAttempts(env: Env, s: Sys, b: Book, t: nat, f: Function, outcome: Outcome)
    requires WellFormed(env, s, Commit(t, f, outcome)) && SameSize(s, b) && Wins(env, s, t, f, outcome)
    ensures
      var p := s.calls[t];
      Track(env, s, b, Commit(t, f, outcome)).attempts[p.slot]
      == b.attempts[p.slot] + [Attempt(|b.history[p.slot]|, p.id, f)]
  {
  }

  // ---------------------------------------------------------------------
  // What a restart keeps

  /** The record that slot 0 holds once it is opened again. */
  ghost function Reopened(env: Env, s: Sys, b: Book): Record
    requires env.c.f.bs > 0 && s.Valid() && SameSize(s, b)
  {
    OpenLedger(env.c.f, s.slots[0].(mem := None), b.ledgers[0]).committed
  }

  /**
   After a restart the logs known are exactly those in the directory that slot 0 reopens to:
   the last one stored, or one whose write reported an error since. They include all stored
   logs, and none that was not in memory.
   */
  lemma RestartKeepsStored(env: Env, s: Sys, b: Book)
    requires SysInv(env, s, b) && env.c.f.Valid()
    ensures Stopped(s).Valid()
    ensures
      var s', data := Booted(env, Stopped(s)), Reopened(env, s, b).data;
      && s'.dir.Some? && s'.dir.value.table.ids == MapIn(env, data)
      && (data == b.ledgers[0].committed.data || data in b.ledgers[0].pending)
      && Extends(Stored(env, b), s'.dir.value.table.ids)
      && (s.dir.Some? ==> Extends(s'.dir.value.table.ids, s.dir.value.table.ids))
  {
    RestartKeeps(env, s, b);
    OpenOk(env.c, Stopped(s).slots[0], b.ledgers[0]);
    BootConsistent(env, Stopped(s), b);
    assert Stopped(s).slots[0] == s.slots[0].(mem := None);
  }

  /** The directory in memory is the one on the disk. */
  ghost predicate InSync(env: Env, s: Sys, b: Book) {
    b.ledgers != [] && (s.dir.Some? ==> s.dir.value.table.ids == Stored(env, b))
  }

  /** Each successful directory write brings disk and memory into agreement, whatever failed before. */
  lemma StoreSyncs(env: Env, s: Sys, b: Book, t: nat, id: string, outcome: Outcome)
    requires SysInv(env, s, b) && Legal(env, s, Locate(t, id, outcome))
    requires NeedsSlot(s, t, id) && Stores(env, s, id, outcome)
    ensures
      var s', b' := LocatedAt(env, s, t, id, outcome), Track(env, s, b, Locate(t, id, outcome));
      && s'.dir.Some? && s'.dir.value.table == Assign(s.dir.value.table, id)
      && InSync(env, s', b') && b'.ledgers[0].pending == {}
  {
    DirectoryWritten(env, |s.slots|, s.dir.value, b.ledgers[0], id);
  }

  /** A restart in agreement brings back exactly the logs there were. */
  lemma SyncedRestart(env: Env, s: Sys, b: Book)
    requires SysInv(env, s, b) && env.c.f.Valid() && s.dir.Some? && InSync(env, s, b)
    ensures Stopped(s).Valid()
    ensures
      var s' := Booted(env, Stopped(s));
      s'.dir.Some? && s'.dir.value.table.ids == s.dir.value.table.ids
  {
    RestartKeepsStored(env, s, b);
  }

  // ---------------------------------------------------------------------
  // Free slots hold no data

  /** The logs that have a slot, as far as is known. */
  ghost function Known(env: Env, s: Sys, b: Book): SlotMap
    requires b.ledgers != []
  {
    if s.dir.Some? then s.dir.value.table.ids else Stored(env, b)
  }

  /** Slots of no log hold no data, and there are no attempts to write any. */
  ghost predicate Tidy(env: Env, s: Sys, b: Book) {
    && SameSize(s, b)
    && b.ledgers != []
    && forall i | 1 <= i < |b.ledgers| && i !in Known(env, s, b).Values :: b.ledgers[i] == Runs.EMPTY
  }

  lemma ExtendsValues(m: SlotMap, m': SlotMap, i: nat)
    requires Extends(m, m') && i !in m'.Values
    ensures i !in m.Values
  {
    forall id | id in m
      ensures m[id] != i
    {
      assert m'[id] in m'.Values;
    }
  }

  /** If logs are only added, and no free slot is written, free slots stay empty. */
  lemma StaysTidy(env: Env, s: Sys, b: Book, s': Sys, b': Book)
    requires Tidy(env, s, b) && SameSize(s', b') && |s'.slots| == |s.slots|
    requires Extends(Known(env, s, b), Known(env, s', b'))
    requires forall i | 1 <= i < |b.ledgers| && i !in Known(env, s, b).Values :: b'.ledgers[i] == b.ledgers[i]
    ensures Tidy(env, s', b')
  {
    forall i | 1 <= i < |b'.ledgers| && i !in Known(env, s', b').Values
      ensures b'.ledgers[i] == Runs.EMPTY
    {
      ExtendsValues(Known(env, s, b), Known(env, s', b'), i);
    }
  }

  /** Every step but a restart adds logs only, and writes to slots of logs only. */
  lemma StepKnown(env: Env, s: Sys, b: Book, e: Event)
    requires SysInv(env, s, b) && Legal(env, s, e) && !e.Restart?
    ensures
      var s', b' := Step(env, s, e), Track(env, s, b, e);
      && SameSize(s', b') && |s'.slots| == |s.slots| && b'.ledgers != []
      && Extends(Known(env, s, b), Known(env, s', b'))
      && forall i | 1 <= i < |b.ledgers| && i !in Known(env, s, b).Values :: b'.ledgers[i] == b.ledgers[i]
  {
    match e
    case Boot =>
      if s.dir.None? {
        OpenOk(env.c, s.slots[0], b.ledgers[0]);
        BootConsistent(env, s, b);
      }
    case Locate(t, id, outcome) =>
      if NeedsSlot(s, t, id) {
        DirectoryWritten(env, |s.slots|, s.dir.value, b.ledgers[0], id);
      }
    case Fetch(t) =>
      if t in s.calls {
        assert CallOk(s, s.calls[t]);
      }
    case Commit(t, f, outcome) =>
      if t in s.calls {
        assert CallOk(s, s.calls[t]);
      }
  }

  lemma StepTidy(env: Env, s: Sys, b: Book, e: Event)
    requires SysInv(env, s, b) && Legal(env, s, e) && Tidy(env, s, b)
    requires e.Restart? ==> InSync(env, s, b)
    ensures Tidy(env, Step(env, s, e), Track(env, s, b, e))
  {
    if !e.Restart? {
      StepKnown(env, s, b, e);
      StaysTidy(env, s, b, Step(env, s, e), Track(env, s, b, e));
    }
  }

  /** The machine restarts only while the directory in memory is the one on the disk. */
  ghost predicate RestartsInSync(env: Env, s: Sys, b: Book, events: seq<Event>)
    requires LegalRun(env, s, events) && SameSize(s, b)
    decreases |events|
  {
    events != [] ==>
      && (events[0].Restart? ==> InSync(env, s, b))
      && RestartsInSync(env, Step(env, s, events[0]), Track(env, s, b, events[0]), events[1..])
  }

  /**
   Failed directory writes are harmless unless the machine restarts before one succeeds: in
   all other runs free slots hold no data.
   */
  lemma {:induction false} RunTidy(env: Env, s: Sys, b: Book, events: seq<Event>)
    requires SysInv(env, s, b) && Tidy(env, s, b)
    requires LegalRun(env, s, events) && RestartsInSync(env, s, b, events)
    ensures Tidy(env, Run(env, s, events), TrackAll(env, s, b, events))
    decreases |events|
  {
    if events != [] {
      StepKeeps(env, s, b, events[0]);
      StepTidy(env, s, b, events[0]);
      RunTidy(env, Step(env, s, events[0]), Track(env, s, b, events[0]), events[1..]);
    }
  }

  /** Then a new log starts with no checkpoint, whether or not its directory entry can be stored. */
  lemma NewLogEmpty(env: Env, s: Sys, b: Book, t: nat, id: string, outcome: Outcome)
    requires SysInv(env, s, b) && Legal(env, s, Locate(t, id, outcome)) && Tidy(env, s, b) && NeedsSlot(s, t, id)
    ensures
      var s' := LocatedAt(env, s, t, id, outcome);
      s'.Valid() && Latest(env, s', id) == NotFound
  {
    var i := s.dir.value.table.free[0];
    assert i in s.dir.value.table.free;
    OpenOk(env.c, s.slots[i], b.ledgers[i]);
    assert LocatedAt(env, s, t, id, outcome).Valid() by {
      LocateKeeps(env, s, b, t, id, outcome);
    }
    LocatedAnswer(env, s, t, id, outcome);
  }

  lemma LocatedAnswer(env: Env, s: Sys, t: nat, id: string, outcome: Outcome)
    requires WellFormed(env, s, Locate(t, id, outcome)) && NeedsSlot(s, t, id)
    requires LocatedAt(env, s, t, id, outcome).Valid() && 1 <= s.dir.value.table.free[0] < |s.slots|
    requires Open(env.c.f, s.slots[s.dir.value.table.free[0]]).mem.Some?
    ensures
      Latest(env, LocatedAt(env, s, t, id, outcome), id)
      == AnswerFor(env, Open(env.c.f, s.slots[s.dir.value.table.free[0]]).Current().data)
  {
  }

  /** And no log ever loses its slot. */
  lemma {:induction false} RunKnown(env: Env, s: Sys, b: Book, events: seq<Event>)
    requires SysInv(env, s, b) && LegalRun(env, s, events) && RestartsInSync(env, s, b, events)
    ensures Extends(Known(env, s, b), Known(env, Run(env, s, events), TrackAll(env, s, b, events)))
    decreases |events|
  {
    if events != [] {
      StepKeeps(env, s, b, events[0]);
      if !events[0].Restart? {
        StepKnown(env, s, b, events[0]);
      }
      RunKnown(env, Step(env, s, events[0]), Track(env, s, b, events[0]), events[1..]);
    }
  }

  /** So a slot serves one log only, now and after any such run. */
  lemma OneLogPerSlot(env: Env, s: Sys, b: Book, events: seq<Event>, id: string, id': string)
    requires SysInv(env, s, b) && LegalRun(env, s, events) && RestartsInSync(env, s, b, events)
    requires
      var known, known' := Known(env, s, b), Known(env, Run(env, s, events), TrackAll(env, s, b, events));
      id in known && id' in known' && known[id] == known'[id']
    ensures id == id'
  {
    RunKnown(env, s, b, events);
    RunKeeps(env, s, b, events);
  }

  lemma BlankTidy(env: Env, lengths: seq<nat>)
    requires lengths != []
    ensures Tidy(env, Blank(env.c.f, lengths), BlankBook(|lengths|))
  {
  }

  /**
   Exactly when a restart leaves data behind in a free slot: some log that is not in the
   directory slot 0 reopens to has data, or attempts at it, in its slot.
   */
  lemma RestartTidy(env: Env, s: Sys, b: Book)
    requires SysInv(env, s, b) && Tidy(env, s, b) && env.c.f.Valid() && s.dir.Some?
    ensures Stopped(s).Valid() && SameSize(Stopped(s), b)
    ensures
      var ids, found := s.dir.value.table.ids, MapIn(env, Reopened(env, s, b).data);
      Tidy(env, Booted(env, Stopped(s)), Track(env, Stopped(s), b, Boot))
      <==> forall id | id in ids && id !in found :: b.ledgers[ids[id]] == Runs.EMPTY
  {
    RestartKeepsStored(env, s, b);
    var s', b' := Booted(env, Stopped(s)), Track(env, Stopped(s), b, Boot);
    var ids, found := s.dir.value.table.ids, MapIn(env, Reopened(env, s, b).data);
    assert Known(env, s', b') == found;
    assert forall i | 1 <= i < |b.ledgers| :: b'.ledgers[i] == b.ledgers[i];
    DroppedSlots(|s.slots|, ids, found, b.ledgers);
  }

  lemma DroppedSlots(n: nat, ids: SlotMap, found: SlotMap, ledgers: seq<Runs.Ledger>)
    requires |ledgers| == n && WellAllocated(n, ids) && Extends(found, ids)
    requires forall i | 1 <= i < n && i !in ids.Values :: ledgers[i] == Runs.EMPTY
    ensures (forall i | 1 <= i < n && i !in found.Values :: ledgers[i] == Runs.EMPTY)
            <==> (forall id | id in ids && id !in found :: ledgers[ids[id]] == Runs.EMPTY)
  {
    if forall id | id in ids && id !in found :: ledgers[ids[id]] == Runs.EMPTY {
      forall i | 1 <= i < n && i !in found.Values
        ensures ledgers[i] == Runs.EMPTY
      {
        if i in ids.Values {
          var id :| id in ids && ids[id] == i;
        }
      }
    }
  }

  /** A log that needs a slot gets its directory entry stored. */
  ghost predicate StoreSucceeds(env: Env, s: Sys, e: Event)
    requires s.Valid()
  {
    e.Locate? && NeedsSlot(s, e.t, e.id) ==> Stores(env, s, e.id, e.outcome)
  }

  ghost predicate StoresSucceed(env: Env, s: Sys, events: seq<Event>)
    requires LegalRun(env, s, events)
    decreases |events|
  {
    events != [] ==>
      StoreSucceeds(env, s, events[0]) && StoresSucceed(env, Step(env, s, events[0]), events[1..])
  }

  lemma StepInSync(env: Env, s: Sys, b: Book, e: Event)
    requires SysInv(env, s, b) && Legal(env, s, e) && InSync(env, s, b) && StoreSucceeds(env, s, e)
    ensures InSync(env, Step(env, s, e), Track(env, s, b, e))
  {
    match e
    case Restart =>
    case Boot =>
      if s.dir.None? {
        OpenOk(env.c, s.slots[0], b.ledgers[0]);
        BootConsistent(env, s, b);
      }
    case Locate(t, id, outcome) =>
      if NeedsSlot(s, t, id) {
        StoreSyncs(env, s, b, t, id, outcome);
      }
    case Fetch(t) =>
      if t in s.calls {
        assert CallOk(s, s.calls[t]);
      }
    case Commit(t, f, outcome) =>
      if t in s.calls {
        assert CallOk(s, s.calls[t]);
      }
  }

  /** While every directory write succeeds, disk and memory agree at all times. */
  lemma {:induction false} RunInSync(env: Env, s: Sys, b: Book, events: seq<Event>)
    requires SysInv(env, s, b) && InSync(env, s, b)
    requires LegalRun(env, s, events) && StoresSucceed(env, s, events)
    ensures InSync(env, Run(env, s, events), TrackAll(env, s, b, events)) && RestartsInSync(env, s, b, events)
    decreases |events|
  {
    if events != [] {
      StepKeeps(env, s, b, events[0]);
      StepInSync(env, s, b, events[0]);
      RunInSync(env, Step(env, s, events[0]), Track(env, s, b, events[0]), events[1..]);
    }
  }
}
