/**
 The witness's storage as a whole: a partition's slots, the directory in slot 0, and
 concurrent updates, each of which locates its log's slot, fetches the checkpoint and
 later commits a new one by compare-and-swap. The machine may restart at any time.
 */
module Persistence {
  import opened Blocks
  import opened JournalModel
  import opened Headers
  import opened Runs
  import opened SlotModel
  import opened Directory

  datatype Env = Env(c: Setting, codec: Codec)

  /** How far an `Update` call has come. */
  datatype Phase =
    | Located(id: string, slot: nat)
    | Fetched(id: string, slot: nat, base: Bytes, token: nat)

  datatype Running = Running(table: Table, token: nat)

  datatype Sys = Sys(slots: seq<Slot>, dir: Option<Running>, calls: map<nat, Phase>)
  {
    ghost predicate Valid() {
      && slots != []
      && (forall i | 0 <= i < |slots| :: slots[i].Valid())
      && (dir.Some? ==> slots[0].mem.Some?)
      && (forall t | t in calls :: calls[t].slot < |slots|)
      && (forall t | t in calls && calls[t].Fetched? :: slots[calls[t].slot].mem.Some?)
    }
  }

  type Function = Bytes -> Option<Bytes>

  datatype Event =
    | Restart
    | Boot
    | Locate(t: nat, id: string, outcome: Outcome)
    | Fetch(t: nat)
    | Commit(t: nat, f: Function, outcome: Outcome)

  // ---------------------------------------------------------------------
  // Steps

  /** The machine stops: everything in memory is gone. */
  function Stopped(s: Sys): Sys {
    Sys(seq(|s.slots|, i requires 0 <= i < |s.slots| => s.slots[i].(mem := None)), None, map[])
  }

  /** `Init`: opens slot 0 and reads the directory. */
  function Booted(env: Env, s: Sys): Sys
    requires env.c.f.bs > 0 && s.Valid()
  {
    var slot := Open(env.c.f, s.slots[0]);
    var s' := s.(slots := s.slots[0 := slot]);
    if s.dir.Some? || slot.mem.None? then s
    else
      match env.codec.decode(slot.Current().data)
      case None => s'
      case Some(ids) =>
        match Populate(|s.slots|, ids)
        case None => s'
        case Some(table) => s'.(dir := Some(Running(table, slot.Current().revision)))
  }

  /** What `addLog` writes to slot 0 for a new log. */
  function NewDirectory(env: Env, d: Running, id: string): Bytes
    requires d.table.free != []
  {
    env.codec.encode(Assign(d.table, id).ids)
  }

  predicate NeedsSlot(s: Sys, t: nat, id: string) {
    && t !in s.calls
    && s.dir.Some?
    && id !in s.dir.value.table.ids
    && s.dir.value.table.free != []
  }

  /** `storeDirectory` goes through: the token is current and the write succeeds. */
  predicate Stores(env: Env, s: Sys, id: string, outcome: Outcome)
    requires s.Valid() && s.dir.Some? && s.dir.value.table.free != []
  {
    var d := s.dir.value;
    d.token == s.slots[0].Current().revision
    && Succeeds(env.c.f.bs, s.slots[0], NewDirectory(env, d, id), outcome)
  }

  /** `logSlot` with `create`: finds the log's slot or assigns one and stores the directory. */
  function LocatedAt(env: Env, s: Sys, t: nat, id: string, outcome: Outcome): Sys
    requires env.c.f.Valid() && s.Valid()
    requires NeedsSlot(s, t, id) ==>
      var data := NewDirectory(env, s.dir.value, id);
      Landed(env.c.f.bs, data, outcome) <= BlocksFor(env.c.f.bs, data)
  {
    if t in s.calls || s.dir.None? then s
    else
      var d := s.dir.value;
      if id in d.table.ids then
        (if d.table.ids[id] < |s.slots| then s.(calls := s.calls[t := Located(id, d.table.ids[id])]) else s)
      else if d.table.free == [] then s
      else
        var table := Assign(d.table, id);
        var slot := CheckAndWrite(env.c.f, s.slots[0], d.token, NewDirectory(env, d, id), outcome);
        var s' := s.(slots := s.slots[0 := slot]);
        if Stores(env, s, id, outcome) && d.table.free[0] < |s.slots| then
          s'.(dir := Some(Running(table, NextRevision(d.token))),
              calls := s.calls[t := Located(id, d.table.free[0])])
        else
          s'.(dir := Some(Running(table, d.token)))
  }

  /** Opens the log's slot and reads checkpoint and token. */
  function FetchedBy(env: Env, s: Sys, t: nat): Sys
    requires env.c.f.bs > 0 && s.Valid()
  {
    if t !in s.calls || !s.calls[t].Located? then s
    else
      var i := s.calls[t].slot;
      var slot := Open(env.c.f, s.slots[i]);
      if slot.mem.None? then s
      else
        s.(slots := s.slots[i := slot],
           calls := s.calls[t := Fetched(s.calls[t].id, i, slot.Current().data, slot.Current().revision)])
  }

  /** The data a call writes: the caller's function applied to the checkpoint it fetched. */
  function NewData(env: Env, base: Bytes, f: Function): Option<Bytes> {
    match UnmarshalCheckpoint(env.codec, base)
    case None => None
    case Some(cp) =>
      match f(cp)
      case None => None
      case Some(cp') => Some(MarshalCheckpoint(cp'))
  }

  predicate Writes(env: Env, s: Sys, t: nat, f: Function) {
    t in s.calls && s.calls[t].Fetched? && NewData(env, s.calls[t].base, f).Some?
  }

  function CommittedBy(env: Env, s: Sys, t: nat, f: Function, outcome: Outcome): Sys
    requires env.c.f.Valid() && s.Valid()
    requires Writes(env, s, t, f) ==>
      var data := NewData(env, s.calls[t].base, f).value;
      Landed(env.c.f.bs, data, outcome) <= BlocksFor(env.c.f.bs, data)
  {
    if t !in s.calls || !s.calls[t].Fetched? then s
    else
      var s' := s.(calls := s.calls - {t});
      if !Writes(env, s, t, f) then s'
      else
        var p := s.calls[t];
        var data := NewData(env, p.base, f).value;
        s'.(slots := s.slots[p.slot := CheckAndWrite(env.c.f, s.slots[p.slot], p.token, data, outcome)])
  }

  ghost predicate WellFormed(env: Env, s: Sys, e: Event) {
    && env.c.f.Valid()
    && s.Valid()
    && (e.Locate? && NeedsSlot(s, e.t, e.id) ==>
          var data := NewDirectory(env, s.dir.value, e.id);
          Landed(env.c.f.bs, data, e.outcome) <= BlocksFor(env.c.f.bs, data))
    && (e.Commit? && Writes(env, s, e.t, e.f) ==>
          var data := NewData(env, s.calls[e.t].base, e.f).value;
          Landed(env.c.f.bs, data, e.outcome) <= BlocksFor(env.c.f.bs, data))
  }

  ghost function Step(env: Env, s: Sys, e: Event): (s': Sys)
    requires WellFormed(env, s, e)
    ensures |s'.slots| == |s.slots|
  {
    match e
    case Restart => Stopped(s)
    case Boot => Booted(env, s)
    case Locate(t, id, outcome) => LocatedAt(env, s, t, id, outcome)
    case Fetch(t) => FetchedBy(env, s, t)
    case Commit(t, f, outcome) => CommittedBy(env, s, t, f, outcome)
  }

  /** The writes an event makes are ones crash atomicity covers. */
  ghost predicate Legal(env: Env, s: Sys, e: Event) {
    && WellFormed(env, s, e)
    && (e.Locate? && NeedsSlot(s, e.t, e.id) ==>
          LegalWrite(env.c, s.slots[0], NewDirectory(env, s.dir.value, e.id), e.outcome))
    && (e.Commit? && Writes(env, s, e.t, e.f) ==>
          var p := s.calls[e.t];
          p.token == s.slots[p.slot].Current().revision ==>
            LegalWrite(env.c, s.slots[p.slot], NewData(env, p.base, e.f).value, e.outcome))
  }

  // ---------------------------------------------------------------------
  // Book-keeping: what each slot has been through

  /** A call for log `id` wrote, with a current token, when its slot had held `version` checkpoints, and applied `f`. */
  datatype Attempt = Attempt(version: nat, id: string, f: Function)

  /** Per slot what a client may rely on, all data it ever held, and the attempts to replace it. */
  datatype Book = Book(ledgers: seq<Ledger>, history: seq<seq<Bytes>>, attempts: seq<seq<Attempt>>)
  {
    ghost predicate Sized(n: nat) {
      |ledgers| == |history| == |attempts| == n
    }
  }

  ghost predicate SameSize(s: Sys, b: Book) {
    b.Sized(|s.slots|)
  }

  /** Slot `i` now has ledger `l`; a new committed record goes on the history. */
  ghost function Noted(b: Book, i: nat, l: Ledger): Book
    requires i < |b.ledgers| == |b.history|
  {
    b.(ledgers := b.ledgers[i := l],
       history := if l.committed == b.ledgers[i].committed then b.history
                  else b.history[i := b.history[i] + [l.committed.data]])
  }

  /** An attempt to replace what slot `i` holds now. */
  ghost function Attempted(b: Book, i: nat, id: string, f: Function): Book
    requires i < |b.history| == |b.attempts|
  {
    b.(attempts := b.attempts[i := b.attempts[i] + [Attempt(|b.history[i]|, id, f)]])
  }

  ghost function Track(env: Env, s: Sys, b: Book, e: Event): (b': Book)
    requires WellFormed(env, s, e) && SameSize(s, b)
    ensures b'.Sized(|s.slots|)
  {
    var bs := env.c.f.bs;
    match e
    case Restart => b
    case Boot =>
      if s.dir.Some? then b else Noted(b, 0, OpenLedger(env.c.f, s.slots[0], b.ledgers[0]))
    case Locate(t, id, outcome) =>
      if NeedsSlot(s, t, id) && s.dir.value.token == s.slots[0].Current().revision then
        Noted(b, 0, WriteLedger(bs, s.slots[0], b.ledgers[0], NewDirectory(env, s.dir.value, id), outcome))
      else b
    case Fetch(t) =>
      if t in s.calls && s.calls[t].Located? then
        var i := s.calls[t].slot;
        Noted(b, i, OpenLedger(env.c.f, s.slots[i], b.ledgers[i]))
      else b
    case Commit(t, f, outcome) =>
      if !Writes(env, s, t, f) then b
      else
        var p := s.calls[t];
        var data := NewData(env, p.base, f).value;
        if p.token != s.slots[p.slot].Current().revision then b
        else
          Noted(Attempted(b, p.slot, p.id, f), p.slot,
                WriteLedger(bs, s.slots[p.slot], b.ledgers[p.slot], data, outcome))
  }

  /** The slot map on the disk. */
  ghost function Stored(env: Env, b: Book): SlotMap
    requires b.ledgers != []
  {
    MapIn(env, b.ledgers[0].committed.data)
  }

  ghost function MapIn(env: Env, data: Bytes): SlotMap {
    var m := env.codec.decode(data);
    if m.Some? then m.value else map[]
  }

  // ---------------------------------------------------------------------
  // The invariant

  ghost predicate SlotsOk(env: Env, s: Sys, b: Book)
    requires SameSize(s, b)
  {
    forall i | 0 <= i < |s.slots| :: SlotOk(env.c, s.slots[i], b.ledgers[i])
  }

  /** `data` is a directory that extends the stored one. */
  ghost predicate Newer(env: Env, n: nat, stored: SlotMap, data: Bytes) {
    var m := env.codec.decode(data);
    m.Some? && WellAllocated(n, m.value) && Extends(stored, m.value)
  }

  /** The directory slot's ledger: all that is or may come to be on the disk extends the stored map. */
  ghost predicate DirectorySlotOk(env: Env, n: nat, l: Ledger) {
    var stored := MapIn(env, l.committed.data);
    Newer(env, n, stored, l.committed.data) && forall data | data in l.pending :: Newer(env, n, stored, data)
  }

  /** The directory in memory: its token is current and it extends all that may be on the disk. */
  ghost predicate RunningOk(env: Env, n: nat, l: Ledger, d: Running) {
    && d.token == l.committed.revision
    && Partitioned(n, d.table)
    && Extends(MapIn(env, l.committed.data), d.table.ids)
    && forall data | data in l.pending :: Extends(MapIn(env, data), d.table.ids)
  }

  ghost predicate DirectoryOk(env: Env, s: Sys, b: Book)
    requires SameSize(s, b) && s.Valid()
  {
    var n, l := |s.slots|, b.ledgers[0];
    && DirectorySlotOk(env, n, l)
    && (s.dir.Some? ==> RunningOk(env, n, l, s.dir.value) && s.slots[0].Current() == l.committed)
    && (s.dir.None? ==> s.calls == map[] && forall i | 0 <= i < n :: s.slots[i].mem.None?)
  }

  /** A call knows its log's slot, and what it fetched is current for as long as its token is. */
  ghost predicate CallOk(s: Sys, p: Phase)
    requires p.slot < |s.slots|
  {
    && s.dir.Some?
    && p.id in s.dir.value.table.ids && s.dir.value.table.ids[p.id] == p.slot
    && (p.Fetched? ==>
          var slot := s.slots[p.slot];
          && slot.mem.Some?
          && p.token <= slot.Current().revision
          && (p.token == slot.Current().revision ==> p.base == slot.Current().data))
  }

  ghost predicate CallsOk(s: Sys)
    requires s.Valid()
  {
    forall t | t in s.calls :: CallOk(s, s.calls[t])
  }

  function Last(h: seq<Bytes>): Bytes {
    if h == [] then [] else h[|h| - 1]
  }

  /** `data` is what some attempt on this slot computed from its last checkpoint after `h`. */
  ghost predicate Explained(env: Env, h: seq<Bytes>, data: Bytes, attempts: seq<Attempt>) {
    exists j | 0 <= j < |attempts| ::
      attempts[j].version == |h| && NewData(env, Last(h), attempts[j].f) == Some(data)
  }

  /** Each checkpoint of the slot was computed, by an attempt on this slot, from the one right before it. */
  ghost predicate Chained(env: Env, h: seq<Bytes>, attempts: seq<Attempt>) {
    forall k | 0 <= k < |h| :: Explained(env, h[..k], h[k], attempts)
  }

  ghost predicate HistoryOk(env: Env, b: Book)
    requires b.Sized(|b.ledgers|)
  {
    forall i | 1 <= i < |b.ledgers| ::
      && Last(b.history[i]) == b.ledgers[i].committed.data
      && Chained(env, b.history[i], b.attempts[i])
      && forall data | data in b.ledgers[i].pending :: Explained(env, b.history[i], data, b.attempts[i])
  }

  /** Everything but the slots themselves. */
  ghost predicate Consistent(env: Env, s: Sys, b: Book) {
    && env.codec.Valid()
    && s.Valid()
    && SameSize(s, b)
    && DirectoryOk(env, s, b)
    && CallsOk(s)
    && HistoryOk(env, b)
  }

  ghost predicate SysInv(env: Env, s: Sys, b: Book) {
    Consistent(env, s, b) && SlotsOk(env, s, b)
  }
}
