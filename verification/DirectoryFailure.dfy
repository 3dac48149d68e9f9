/**
 What a failed directory write can do. The log keeps its slot in memory only, so its
 later updates succeed, but a restart forgets the log and gives its slot, with the
 checkpoint in it, to the next new log.
 */
module DirectoryFailure {
  import opened Blocks
  import opened Entries
  import opened JournalModel
  import opened CrashSafety
  import opened Headers
  import Runs
  import Collisions
  import opened SlotModel
  import opened Directory
  import opened Persistence
  import opened Durability
  import opened Guarantees

  /** The first free slot is determined by the logs' slots. */
  lemma FirstFree(n: nat, t: Table, t': Table)
    requires Partitioned(n, t) && Partitioned(n, t') && t'.ids == t.ids && t.free != []
    ensures t'.free != [] && t'.free[0] == t.free[0]
  {
    assert t.free[0] in t.free;
    assert t.free[0] in t'.free;
    var i :| 0 <= i < |t'.free| && t'.free[i] == t.free[0];
    assert t'.free[0] in t'.free;
    assert t'.free[0] in t.free;
    var j :| 0 <= j < |t.free| && t.free[j] == t'.free[0];
  }

  /** A write of which no block lands leaves the blocks as they were. */
  lemma NothingLanded(f: Format, s: Slot, token: nat, data: Bytes)
    requires f.Valid() && s.Valid() && s.mem.Some?
    ensures CheckAndWrite(f, s, token, data, Failed(0)).disk == s.disk
  {
    var st := State(s.disk, s.mem.value);
    if Runs.Accepted(f.bs, |s.disk|, data) {
      var r := Record(NextRevision(st.mem.current.revision), data);
      var at := Target(f.bs, |s.disk|, st.mem.next, data);
      UpdateDef(f, st, data, Failed(0), r, at, 0);
    }
  }

  // ---------------------------------------------------------------------
  // One event at a time

  /** A legal run with one more event in front. */
  lemma ConsRun(env: Env, s: Sys, e: Event, events: seq<Event>)
    requires Legal(env, s, e) && LegalRun(env, Step(env, s, e), events)
    ensures LegalRun(env, s, [e] + events) && Run(env, s, [e] + events) == Run(env, Step(env, s, e), events)
  {
    assert ([e] + events)[1..] == events;
  }

  lemma RunOfThree(env: Env, s: Sys, e1: Event, s1: Sys, e2: Event, s2: Sys, e3: Event)
    requires Legal(env, s, e1) && s1 == Step(env, s, e1)
    requires Legal(env, s1, e2) && s2 == Step(env, s1, e2)
    requires Legal(env, s2, e3)
    ensures LegalRun(env, s, [e1, e2, e3]) && Run(env, s, [e1, e2, e3]) == Step(env, s2, e3)
  {
    ConsRun(env, s2, e3, []);
    ConsRun(env, s1, e2, [e3] + []);
    ConsRun(env, s, e1, [e2] + ([e3] + []));
    assert [e1, e2, e3] == [e1] + ([e2] + ([e3] + []));
  }

  lemma RunOfFour(env: Env, s: Sys, e0: Event, s0: Sys, e1: Event, s1: Sys, e2: Event, s2: Sys, e3: Event)
    requires Legal(env, s, e0) && s0 == Step(env, s, e0)
    requires Legal(env, s0, e1) && s1 == Step(env, s0, e1)
    requires Legal(env, s1, e2) && s2 == Step(env, s1, e2)
    requires Legal(env, s2, e3)
    ensures LegalRun(env, s, [e0, e1, e2, e3]) && Run(env, s, [e0, e1, e2, e3]) == Step(env, s2, e3)
  {
    RunOfThree(env, s0, e1, s1, e2, s2, e3);
    ConsRun(env, s, e0, [e1, e2, e3]);
    assert [e0, e1, e2, e3] == [e0] + [e1, e2, e3];
  }

  /** Log `a` gets slot `i` in memory, but the directory is not written. */
  lemma StoreFails(env: Env, s: Sys, a: string, i: nat)
    requires env.c.f.Valid() && s.Valid() && NeedsSlot(s, 0, a)
    requires s.dir.value.table.free[0] == i < |s.slots|
    requires LegalWrite(env.c, s.slots[0], NewDirectory(env, s.dir.value, a), Failed(0))
    ensures
      var d, s' := s.dir.value, LocatedAt(env, s, 0, a, Failed(0));
      && Legal(env, s, Locate(0, a, Failed(0))) && s'.Valid()
      && s'.dir == Some(Running(Assign(d.table, a), d.token))
      && s'.calls == s.calls && |s'.slots| == |s.slots|
      && s'.slots[0].disk == s.slots[0].disk
      && forall j | 1 <= j < |s.slots| :: s'.slots[j] == s.slots[j]
  {
    NothingLanded(env.c.f, s.slots[0], s.dir.value.token, NewDirectory(env, s.dir.value, a));
  }

  lemma LookUp(env: Env, s: Sys, a: string, i: nat)
    requires env.c.f.Valid() && s.Valid() && s.calls == map[]
    requires s.dir.Some? && a in s.dir.value.table.ids && s.dir.value.table.ids[a] == i < |s.slots|
    ensures Legal(env, s, Locate(0, a, Written))
    ensures LocatedAt(env, s, 0, a, Written) == s.(calls := map[0 := Located(a, i)])
  {
  }

  lemma FetchNothing(env: Env, s: Sys, a: string, i: nat)
    requires env.c.f.Valid() && s.Valid() && s.calls == map[0 := Located(a, i)] && i < |s.slots|
    requires Open(env.c.f, s.slots[i]).mem.Some? && Open(env.c.f, s.slots[i]).Current() == NO_RECORD
    ensures Legal(env, s, Fetch(0))
    ensures FetchedBy(env, s, 0)
         == s.(slots := s.slots[i := Open(env.c.f, s.slots[i])], calls := map[0 := Fetched(a, i, [], 0)])
  {
    assert map[0 := Located(a, i)][0 := Fetched(a, i, [], 0)] == map[0 := Fetched(a, i, [], 0)];
  }

  lemma CommitFirst(env: Env, s: Sys, a: string, i: nat, g: Function, data: Bytes)
    requires env.codec.Valid() && g([]).Some? && data == MarshalCheckpoint(g([]).value)
    requires s.Valid() && s.calls == map[0 := Fetched(a, i, [], 0)] && i < |s.slots|
    requires s.slots[i].mem.Some? && s.slots[i].Current() == NO_RECORD && LegalWrite(env.c, s.slots[i], data, Written)
    ensures Legal(env, s, Commit(0, g, Written))
    ensures CommittedBy(env, s, 0, g, Written).slots
         == s.slots[i := SlotModel.Write(env.c.f, s.slots[i], data, Written)]
  {
    assert NewData(env, [], g) == Some(data);
  }

  // ---------------------------------------------------------------------
  // The runs

  /** Log `a` fails to be stored, is looked up again, and then updated. */
  function UpdateRun(a: string, g: Function): seq<Event> {
    [Locate(0, a, Failed(0)), Locate(0, a, Written), Fetch(0), Commit(0, g, Written)]
  }

  /** The first two events: the log is in memory, and its call knows its slot. */
  lemma AfterLookUp(env: Env, s: Sys, a: string, i: nat) returns (s1: Sys, s2: Sys)
    requires env.c.f.Valid() && s.Valid() && s.calls == map[] && NeedsSlot(s, 0, a)
    requires s.dir.value.table.free[0] == i && 1 <= i < |s.slots|
    requires LegalWrite(env.c, s.slots[0], NewDirectory(env, s.dir.value, a), Failed(0))
    ensures Legal(env, s, Locate(0, a, Failed(0))) && s1 == Step(env, s, Locate(0, a, Failed(0)))
    ensures Legal(env, s1, Locate(0, a, Written)) && s2 == Step(env, s1, Locate(0, a, Written)) && s2.Valid()
    ensures |s2.slots| == |s.slots| && s2.slots[0].disk == s.slots[0].disk && s2.slots[i] == s.slots[i]
    ensures s2.calls == map[0 := Located(a, i)]
  {
    StoreFails(env, s, a, i);
    s1 := LocatedAt(env, s, 0, a, Failed(0));
    LookUp(env, s1, a, i);
    s2 := LocatedAt(env, s1, 0, a, Written);
  }

  /** The other two: the checkpoint is stored in the slot. */
  lemma AfterCommit(env: Env, s: Sys, a: string, g: Function, i: nat, data: Bytes) returns (s3: Sys, s4: Sys)
    requires env.codec.Valid() && env.c.f.Valid() && s.Valid()
    requires 1 <= i < |s.slots| && s.calls == map[0 := Located(a, i)]
    requires SlotOk(env.c, s.slots[i], Runs.EMPTY)
    requires g([]).Some? && data == MarshalCheckpoint(g([]).value)
    requires Runs.Accepted(env.c.f.bs, |s.slots[i].disk|, data)
    requires LegalWrite(env.c, Open(env.c.f, s.slots[i]), data, Written)
    ensures Legal(env, s, Fetch(0)) && s3 == Step(env, s, Fetch(0))
    ensures Legal(env, s3, Commit(0, g, Written)) && s4 == Step(env, s3, Commit(0, g, Written))
    ensures |s4.slots| == |s.slots| && s4.slots[0].disk == s.slots[0].disk
    ensures SlotOk(env.c, s4.slots[i], Runs.Ledger(Record(1, data), {}))
  {
    s3 := FetchEmpty(env, s, a, i);
    CommitFirst(env, s3, a, i, g, data);
    s4 := CommittedBy(env, s3, 0, g, Written);
    FirstWrite(env.c, s.slots[i], data);
  }

  lemma FetchEmpty(env: Env, s: Sys, a: string, i: nat) returns (s': Sys)
    requires env.c.f.Valid() && s.Valid() && s.calls == map[0 := Located(a, i)] && 1 <= i < |s.slots|
    requires SlotOk(env.c, s.slots[i], Runs.EMPTY)
    ensures Legal(env, s, Fetch(0)) && s' == Step(env, s, Fetch(0)) && s'.Valid()
    ensures s'.slots == s.slots[i := Open(env.c.f, s.slots[i])] && s'.calls == map[0 := Fetched(a, i, [], 0)]
    ensures s'.slots[i].mem.Some? && s'.slots[i].Current() == NO_RECORD
  {
    EmptyOpens(env.c, s.slots[i]);
    FetchNothing(env, s, a, i);
    s' := FetchedBy(env, s, 0);
  }

  lemma EmptyOpens(c: Setting, slot: Slot)
    requires SlotOk(c, slot, Runs.EMPTY)
    ensures c.f.bs > 0 && slot.Valid() && Open(c.f, slot).mem.Some? && Open(c.f, slot).Current() == NO_RECORD
  {
    OpenOk(c, slot, Runs.EMPTY);
  }

  /** The first record of an empty slot. */
  lemma FirstWrite(c: Setting, slot: Slot, data: Bytes)
    requires SlotOk(c, slot, Runs.EMPTY) && c.f.Valid() && slot.Valid() && Runs.Accepted(c.f.bs, |slot.disk|, data)
    requires LegalWrite(c, Open(c.f, slot), data, Written)
    ensures SlotOk(c, SlotModel.Write(c.f, Open(c.f, slot), data, Written), Runs.Ledger(Record(1, data), {}))
  {
    OpenOk(c, slot, Runs.EMPTY);
    WriteOk(c, Open(c.f, slot), OpenLedger(c.f, slot, Runs.EMPTY), data, Written);
  }

  lemma AfterUpdateRun(env: Env, s: Sys, a: string, g: Function, i: nat, data: Bytes) returns (s': Sys)
    requires env.codec.Valid() && env.c.f.Valid() && s.Valid() && s.calls == map[] && NeedsSlot(s, 0, a)
    requires s.dir.value.table.free[0] == i && 1 <= i < |s.slots|
    requires SlotOk(env.c, s.slots[i], Runs.EMPTY)
    requires g([]).Some? && data == MarshalCheckpoint(g([]).value)
    requires Runs.Accepted(env.c.f.bs, |s.slots[i].disk|, data)
    requires LegalWrite(env.c, s.slots[0], NewDirectory(env, s.dir.value, a), Failed(0))
    requires LegalWrite(env.c, Open(env.c.f, s.slots[i]), data, Written)
    ensures LegalRun(env, s, UpdateRun(a, g)) && s' == Run(env, s, UpdateRun(a, g))
    ensures |s'.slots| == |s.slots| && s'.slots[0].disk == s.slots[0].disk
    ensures SlotOk(env.c, s'.slots[i], Runs.Ledger(Record(1, data), {}))
  {
    var s1, s2 := AfterLookUp(env, s, a, i);
    var s3;
    s3, s' := AfterCommit(env, s2, a, g, i, data);
    RunOfFour(env, s, Locate(0, a, Failed(0)), s1, Locate(0, a, Written), s2, Fetch(0), s3, Commit(0, g, Written));
  }

  /** The machine restarts and log `z` is added. */
  function ReuseRun(z: string): seq<Event> {
    [Restart, Boot, Locate(0, z, Written)]
  }

  /** Booting from a directory slot with nothing in doubt brings back the stored map. */
  lemma BootsStored(env: Env, s: Sys, l: Runs.Ledger, ids: SlotMap, slot: Slot)
    requires env.codec.Valid() && s.Valid() && s.dir.None?
    requires s.slots[0] == slot && Opens(env.c.f, slot, l) && slot.mem.None? && l.pending == {}
    requires env.codec.decode(l.committed.data) == Some(ids) && WellAllocated(|s.slots|, ids)
    ensures
      var s' := Booted(env, s);
      && s'.dir.Some? && s'.dir.value.table.ids == ids && Partitioned(|s.slots|, s'.dir.value.table)
      && s'.slots == s.slots[0 := Open(env.c.f, slot)]
      && s'.dir.value.token == s'.slots[0].Current().revision
      && s'.calls == s.calls
  {
  }

  /** A stored new log gets the first free slot, and the data in it. */
  lemma GetsSlot(env: Env, s: Sys, z: string, i: nat, data: Bytes)
    requires env.c.f.Valid() && s.Valid() && NeedsSlot(s, 0, z)
    requires s.dir.value.table.free[0] == i && 1 <= i < |s.slots|
    requires Stores(env, s, z, Written)
    requires Open(env.c.f, s.slots[i]).mem.Some? && Open(env.c.f, s.slots[i]).Current().data == data
    ensures
      var s' := LocatedAt(env, s, 0, z, Written);
      && s'.Valid()
      && s'.dir.Some? && s'.dir.value.table.ids == s.dir.value.table.ids[z := i]
      && Latest(env, s', z) == AnswerFor(env, data)
  {
  }

  /** Data committed to a slot is found again after a restart. */
  lemma DataSurvives(env: Env, slot: Slot, data: Bytes)
    requires SlotOk(env.c, slot, Runs.Ledger(Record(1, data), {}))
    ensures
      var closed := slot.(mem := None);
      && env.c.f.bs > 0 && closed.Valid()
      && Open(env.c.f, closed).mem.Some? && Open(env.c.f, closed).Current().data == data
  {
    CloseOk(env.c, slot, Runs.Ledger(Record(1, data), {}));
    OpenOk(env.c, slot.(mem := None), Runs.Ledger(Record(1, data), {}));
  }

  /** After the restart the stored logs are back, and the first free slot is the same again. */
  lemma AfterBoot(env: Env, s: Sys, l: Runs.Ledger, t: Table, i: nat, data: Bytes) returns (s': Sys)
    requires env.codec.Valid() && env.c.f.Valid() && s.Valid()
    requires SlotOk(env.c, s.slots[0].(mem := None), l) && l.pending == {}
    requires env.codec.decode(l.committed.data) == Some(t.ids) && Partitioned(|s.slots|, t)
    requires t.free != [] && t.free[0] == i && 1 <= i < |s.slots|
    requires SlotOk(env.c, s.slots[i], Runs.Ledger(Record(1, data), {}))
    ensures Stopped(s).Valid() && s' == Booted(env, Stopped(s)) && |s'.slots| == |s.slots|
    ensures s'.slots[0] == Open(env.c.f, s.slots[0].(mem := None))
    ensures s'.Valid() && s'.calls == map[]
    ensures s'.dir.Some? && s'.dir.value.table.ids == t.ids
    ensures s'.dir.value.table.free != [] && s'.dir.value.table.free[0] == i
    ensures s'.dir.value.token == s'.slots[0].Current().revision
    ensures Open(env.c.f, s'.slots[i]).mem.Some? && Open(env.c.f, s'.slots[i]).Current().data == data
  {
    OpenOk(env.c, s.slots[0].(mem := None), l);
    BootsStored(env, Stopped(s), l, t.ids, s.slots[0].(mem := None));
    DataSurvives(env, s.slots[i], data);
    s' := Booted(env, Stopped(s));
    FirstFree(|s.slots|, t, s'.dir.value.table);
  }

  /** The new log's directory entry is stored, and its slot is the first free one. */
  lemma NewLogStored(env: Env, s: Sys, ids: SlotMap, z: string, i: nat, data: Bytes)
    requires env.c.f.Valid() && s.Valid() && s.calls == map[] && s.dir.Some? && s.dir.value.table.ids == ids
    requires s.dir.value.table.free != [] && s.dir.value.table.free[0] == i && 1 <= i < |s.slots| && z !in ids
    requires s.dir.value.token == s.slots[0].Current().revision
    requires Runs.Accepted(env.c.f.bs, |s.slots[0].disk|, env.codec.encode(ids[z := i]))
    requires LegalWrite(env.c, s.slots[0], env.codec.encode(ids[z := i]), Written)
    requires Open(env.c.f, s.slots[i]).mem.Some? && Open(env.c.f, s.slots[i]).Current().data == data
    ensures
      var s' := LocatedAt(env, s, 0, z, Written);
      && Legal(env, s, Locate(0, z, Written)) && s'.Valid()
      && s'.dir.Some? && s'.dir.value.table.ids == ids[z := i]
      && Latest(env, s', z) == AnswerFor(env, data)
  {
    GetsSlot(env, s, z, i, data);
  }

  lemma ReuseLegal(env: Env, s: Sys, s1: Sys, z: string)
    requires env.c.f.Valid() && s.Valid() && Stopped(s).Valid() && s1 == Booted(env, Stopped(s))
    requires Legal(env, s1, Locate(0, z, Written))
    ensures LegalRun(env, s, ReuseRun(z)) && Run(env, s, ReuseRun(z)) == LocatedAt(env, s1, 0, z, Written)
  {
    RunOfThree(env, s, Restart, Stopped(s), Boot, s1, Locate(0, z, Written));
  }

  lemma AfterReuseRun(env: Env, s: Sys, l: Runs.Ledger, t: Table, z: string, i: nat, data: Bytes) returns (s': Sys)
    requires env.codec.Valid() && env.c.f.Valid() && s.Valid()
    requires SlotOk(env.c, s.slots[0].(mem := None), l) && l.pending == {}
    requires env.codec.decode(l.committed.data) == Some(t.ids) && Partitioned(|s.slots|, t)
    requires z !in t.ids && t.free != [] && t.free[0] == i && 1 <= i < |s.slots|
    requires SlotOk(env.c, s.slots[i], Runs.Ledger(Record(1, data), {}))
    requires Runs.Accepted(env.c.f.bs, |s.slots[0].disk|, env.codec.encode(t.ids[z := i]))
    requires LegalWrite(env.c, Open(env.c.f, s.slots[0].(mem := None)), env.codec.encode(t.ids[z := i]), Written)
    ensures LegalRun(env, s, ReuseRun(z)) && s' == Run(env, s, ReuseRun(z)) && s'.Valid()
    ensures s'.dir.Some? && s'.dir.value.table.ids == t.ids[z := i]
    ensures Latest(env, s', z) == AnswerFor(env, data)
  {
    var s1 := AfterBoot(env, s, l, t, i, data);
    NewLogStored(env, s1, t.ids, z, i, data);
    s' := LocatedAt(env, s1, 0, z, Written);
    ReuseLegal(env, s, s1, z);
  }

  /** A booted, tidy storage with a free slot, memory and disk in agreement; neither log is known. */
  ghost predicate BothNew(env: Env, s: Sys, b: Book, a: string, z: string, i: nat) {
    && SysInv(env, s, b)
    && Tidy(env, s, b) && InSync(env, s, b) && b.ledgers[0].pending == {}
    && s.calls == map[]
    && NeedsSlot(s, 0, a)
    && NeedsSlot(s, 0, z)
    && a != z
    && s.dir.value.table.free[0] == i
    && 1 <= i < |s.slots|
  }

  /** The three writes of the run below are accepted, and ones crash atomicity covers. */
  ghost predicate WritesLegal(env: Env, s: Sys, a: string, z: string, i: nat, data: Bytes)
    requires env.c.f.Valid() && s.Valid() && NeedsSlot(s, 0, a) && i < |s.slots|
  {
    var zero, d := s.slots[0].(mem := None), s.dir.value;
    && LegalWrite(env.c, s.slots[0], NewDirectory(env, d, a), Failed(0))
    && LegalWrite(env.c, Open(env.c.f, s.slots[i]), data, Written)
    && LegalWrite(env.c, Open(env.c.f, zero), NewDirectory(env, d, z), Written)
    && Runs.Accepted(env.c.f.bs, |s.slots[i].disk|, data)
    && Runs.Accepted(env.c.f.bs, |s.slots[0].disk|, NewDirectory(env, d, z))
  }

  lemma BothNewFacts(env: Env, s: Sys, b: Book, a: string, z: string, i: nat)
    requires BothNew(env, s, b, a, z, i)
    ensures SlotOk(env.c, s.slots[i], Runs.EMPTY)
    ensures SlotOk(env.c, s.slots[0].(mem := None), b.ledgers[0]) && b.ledgers[0].pending == {}
    ensures
      var t := s.dir.value.table;
      env.codec.decode(b.ledgers[0].committed.data) == Some(t.ids) && Partitioned(|s.slots|, t)
  {
    assert i in s.dir.value.table.free;
    CloseOk(env.c, s.slots[0], b.ledgers[0]);
  }

  /**
   After the restart the first log is unknown although its update succeeded, and the
   second log, never updated, is served the first one's checkpoint.
   */
  lemma ForeignCheckpoint(env: Env, s: Sys, b: Book, a: string, z: string, i: nat, g: Function)
    requires env.c.f.Valid() && BothNew(env, s, b, a, z, i) && g([]).Some?
    requires WritesLegal(env, s, a, z, i, MarshalCheckpoint(g([]).value))
    ensures LegalRun(env, s, UpdateRun(a, g)) && LegalRun(env, Run(env, s, UpdateRun(a, g)), ReuseRun(z))
    ensures
      var end := Run(env, Run(env, s, UpdateRun(a, g)), ReuseRun(z));
      && end.Valid()
      && Latest(env, end, a) == NotFound
      && Latest(env, end, z) == Found(g([]).value)
  {
    var data := MarshalCheckpoint(g([]).value);
    BothNewFacts(env, s, b, a, z, i);
    var s1 := AfterUpdateRun(env, s, a, g, i, data);
    assert s1.Valid() by {
      RunKeeps(env, s, b, UpdateRun(a, g));
    }
    assert s1.slots[0].(mem := None) == s.slots[0].(mem := None);
    var s2 := AfterReuseRun(env, s1, b.ledgers[0], s.dir.value.table, z, i, data);
    CheckpointRoundTrip(env.codec, g([]).value);
  }

  // ---------------------------------------------------------------------
  // From a zeroed partition

  /** A slot with zeroed blocks, opened. */
  function FreshSlot(f: Format, length: nat): Slot {
    Slot(Runs.Fresh(f, length).disk, Some(Memory(NO_RECORD, 0)))
  }

  lemma FreshOpens(c: Setting, length: nat)
    requires c.f.Valid() && length * c.f.bs < TWO32
    ensures Open(c.f, FreshSlot(c.f, length).(mem := None)) == FreshSlot(c.f, length)
  {
    Runs.FreshBlank(c, length);
    ScanGap(c.f.bs, ViewOf(c.f, Runs.Fresh(c.f, length).disk), 0, length);
  }

  /** The payload can be written to a slot of this length, and cannot be taken for a header. */
  ghost predicate Writable(c: Setting, length: nat, data: Bytes)
    requires c.f.bs > 0
  {
    data in c.payloads && Plain(c.f.bs, data) && Runs.Accepted(c.f.bs, length, data)
  }

  lemma FreshWrite(c: Setting, length: nat, data: Bytes)
    requires c.f.Valid() && length * c.f.bs < TWO32
    requires Writable(c, length, data) && Collisions.ToldApart(c)
    ensures LegalWrite(c, FreshSlot(c.f, length), data, Written)
    ensures LegalWrite(c, FreshSlot(c.f, length), data, Failed(0))
  {
    var s := State(Runs.Fresh(c.f, length).disk, Memory(NO_RECORD, 0));
    Runs.FreshBlank(c, length);
    var r := Collisions.PutWhole(c, s, data, Written, 0);
    UpdateIs(c.f, s, data, Failed(0));
    assert Update(c.f, s, data, Failed(0)).disk == s.disk;
  }

  /** The first start, with at least two slots: slot 1 is the first free one. */
  lemma FirstBoot(env: Env, lengths: seq<nat>, a: string, z: string) returns (s: Sys, b: Book)
    requires env.c.f.Valid() && env.codec.Valid() && |lengths| >= 2 && a != z
    requires forall i | 0 <= i < |lengths| :: lengths[i] * env.c.f.bs < TWO32
    ensures Legal(env, Blank(env.c.f, lengths), Boot) && s == Step(env, Blank(env.c.f, lengths), Boot)
    ensures BothNew(env, s, b, a, z, 1) && s.dir.value.table.ids == map[]
    ensures s.slots == Blank(env.c.f, lengths).slots[0 := FreshSlot(env.c.f, lengths[0])]
  {
    var s0, b0 := Blank(env.c.f, lengths), BlankBook(|lengths|);
    BlankOk(env, lengths);
    BlankTidy(env, lengths);
    BootKeeps(env, s0, b0);
    StepTidy(env, s0, b0, Boot);
    FreshOpens(env.c, lengths[0]);
    s, b := Booted(env, s0), Track(env, s0, b0, Boot);
    BootsEmpty(env, s0);
  }

  /** Booting from an empty directory slot: no logs, and slot 1 is the first free one. */
  lemma BootsEmpty(env: Env, s: Sys)
    requires env.c.f.bs > 0 && env.codec.Valid() && s.Valid() && s.dir.None? && |s.slots| >= 2
    requires Open(env.c.f, s.slots[0]).mem == Some(Memory(NO_RECORD, 0))
    ensures
      var s' := Booted(env, s);
      && s'.dir.Some? && s'.dir.value.table.ids == map[]
      && s'.dir.value.table.free != [] && s'.dir.value.table.free[0] == 1
      && s'.slots == s.slots[0 := Open(env.c.f, s.slots[0])] && s'.calls == s.calls
  {
    assert FreeFrom(|s.slots|, {}, 1) == [1] + FreeFrom(|s.slots|, {}, 2);
    var none: SlotMap := map[];
    assert none.Values == {};
  }

  lemma {:induction false} ConcatRuns(env: Env, s: Sys, events: seq<Event>, more: seq<Event>)
    requires LegalRun(env, s, events) && LegalRun(env, Run(env, s, events), more)
    ensures LegalRun(env, s, events + more)
    ensures Run(env, s, events + more) == Run(env, Run(env, s, events), more)
    decreases |events|
  {
    if events == [] {
      assert events + more == more;
    } else {
      ConcatRuns(env, Step(env, s, events[0]), events[1..], more);
      ConsRun(env, s, events[0], events[1..] + more);
      assert events + more == [events[0]] + (events[1..] + more);
    }
  }

  /** From a zeroed partition: first start, failed directory write, update, restart, new log. */
  function WholeRun(a: string, z: string, g: Function): seq<Event> {
    [Boot] + (UpdateRun(a, g) + ReuseRun(z))
  }

  /**
   The run above is a legal run from a zeroed partition with at least two slots, for any
   payloads that fit, cannot be taken for headers and have different hashes.
   */
  lemma ForeignCheckpointReached(env: Env, lengths: seq<nat>, a: string, z: string, g: Function)
    requires env.c.f.Valid() && env.codec.Valid() && |lengths| >= 2 && a != z && g([]).Some?
    requires forall i | 0 <= i < |lengths| :: lengths[i] * env.c.f.bs < TWO32
    requires Collisions.ToldApart(env.c)
    requires Writable(env.c, lengths[0], env.codec.encode(map[a := 1]))
    requires Writable(env.c, lengths[0], env.codec.encode(map[z := 1]))
    requires Writable(env.c, lengths[1], MarshalCheckpoint(g([]).value))
    ensures LegalRun(env, Blank(env.c.f, lengths), WholeRun(a, z, g))
    ensures
      var end := Run(env, Blank(env.c.f, lengths), WholeRun(a, z, g));
      && end.Valid()
      && Latest(env, end, a) == NotFound
      && Latest(env, end, z) == Found(g([]).value)
  {
    var data := MarshalCheckpoint(g([]).value);
    var s, b := FirstBoot(env, lengths, a, z);
    FreshOpens(env.c, lengths[1]);
    FreshOpens(env.c, lengths[0]);
    FreshWrite(env.c, lengths[0], env.codec.encode(map[a := 1]));
    FreshWrite(env.c, lengths[0], env.codec.encode(map[z := 1]));
    FreshWrite(env.c, lengths[1], data);
    assert s.slots[1] == FreshSlot(env.c.f, lengths[1]).(mem := None);
    var none: SlotMap := map[];
    assert none[a := 1] == map[a := 1] && none[z := 1] == map[z := 1];
    ForeignCheckpoint(env, s, b, a, z, 1, g);
    ConcatRuns(env, s, UpdateRun(a, g), ReuseRun(z));
    ConsRun(env, Blank(env.c.f, lengths), Boot, UpdateRun(a, g) + ReuseRun(z));
  }
}
