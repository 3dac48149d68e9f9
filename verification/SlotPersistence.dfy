/**
 The persistence layer step by step: the directory kept in slot 0, assignment of slots to
 logs, and reading and updating checkpoints. One call runs to its end; each is a sequence of
 steps of the persistence model, in which the steps of several calls may interleave.
 */
module SlotPersistence {
  import opened Blocks
  import opened Entries
  import opened Mmc
  import opened JournalModel
  import opened Headers
  import opened Journals
  import opened Slots
  import opened Directory
  import M = SlotModel
  import P = Persistence
  import D = Durability
  import G = Guarantees

  /** All slots the table speaks of exist, and slot 0 is not among them. */
  ghost predicate InRange(n: nat, t: Table) {
    && (forall id | id in t.ids :: 1 <= t.ids[id] < n)
    && (forall i | i in t.free :: 1 <= i < n)
  }

  // ---------------------------------------------------------------------
  // What calls do, said without the model

  /**
   Updating the checkpoint in a slot with `g`: if the slot opens, the checkpoint in it can be
   read and `g` accepts it, then the result, behind the raw prefix, is written; otherwise
   the slot stays as it is.
   */
  ghost predicate Served(codec: Codec, f: Format, before: M.Slot, g: P.Function, answers: seq<Answer>,
                         after: M.Slot, ok: bool)
    requires f.bs > 0 && before.Valid()
  {
    var open := M.Open(f, before);
    open.mem.Some? ==>
      && after.mem.Some?
      && var cp := CheckpointIn(codec, open.Current().data);
         if cp.None? || g(cp.value).None? then !ok && after.Current() == open.Current()
         else Replaced(f.bs, |before.disk|, open.Current(), [1, 82, 65, 87] + g(cp.value).value, answers,
                       after.Current(), ok)
  }

  /** What `Latest` answers for a slot that opens: by the data in it. */
  ghost predicate Told(codec: Codec, f: Format, slot: M.Slot, a: G.Answer)
    requires f.bs > 0 && slot.Valid()
  {
    var open := M.Open(f, slot);
    open.mem.Some? ==>
      var data := open.Current().data;
      if data == [] then a == G.NotFound
      else if [1, 82, 65, 87] <= data then a == G.Found(data[4..])
      else a == match codec.legacy(data) case None => G.Unavailable case Some(cp) => G.Found(cp)
  }

  /**
   `logSlot` with `create`: a known log has its slot; a new one gets the first free slot, and
   is told so exactly if the directory, written to slot 0, is.
   */
  ghost predicate LogSlotMeans(codec: Codec, f: Format, s: P.Sys, answers: seq<Answer>, id: string,
                               s': P.Sys, r: Option<nat>, left: seq<Answer>)
    requires f.bs > 0 && s.Valid() && s'.Valid() && s.dir.Some? && s'.dir.Some?
  {
    var t, t' := s.dir.value.table, s'.dir.value.table;
    if id in t.ids then s' == s && r == Some(t.ids[id]) && left == answers
    else if t.free == [] then s' == s && r == None && left == answers
    else
      && t' == Table(t.ids[id := t.free[0]], t.free[1..])
      && |s'.slots| == |s.slots| && (forall i | 1 <= i < |s.slots| :: s'.slots[i] == s.slots[i])
      && (r.Some? ==> r.value == t.free[0])
      && (answers == [] ==> left == [])
      && (s.dir.value.token == s.slots[0].Current().revision ==>
            Replaced(f.bs, |s.slots[0].disk|, s.slots[0].Current(), codec.encode(t'.ids), answers,
                     s'.slots[0].Current(), r.Some?))
  }

  /**
   `Update` with `g`: the checkpoint in the log's slot is updated, as `Served` says. A log
   without a slot gets the first free one; if there is none, or the directory with the new
   log cannot be stored, the update fails.
   */
  ghost predicate UpdateMeans(codec: Codec, f: Format, s: P.Sys, answers: seq<Answer>, id: string, g: P.Function,
                              s': P.Sys, ok: bool)
    requires f.bs > 0 && s.Valid() && s'.Valid() && s.dir.Some? && s'.dir.Some?
  {
    var t, t' := s.dir.value.table, s'.dir.value.table;
    if id in t.ids then
      var i := t.ids[id];
      && t' == t && i < |s.slots| == |s'.slots|
      && Served(codec, f, s.slots[i], g, answers, s'.slots[i], ok)
    else if t.free == [] then !ok && s' == s
    else
      var i := t.free[0];
      && t' == Table(t.ids[id := i], t.free[1..]) && 1 <= i < |s.slots| == |s'.slots|
      && (s.dir.value.token == s.slots[0].Current().revision && answers == [] ==>
            if 3 * (48 + |codec.encode(t'.ids)|) <= |s.slots[0].disk| * f.bs
            then Served(codec, f, s.slots[i], g, [], s'.slots[i], ok)
            else !ok && s'.slots[i] == s.slots[i])
  }

  lemma MeansNothing(codec: Codec, f: Format, s: P.Sys, answers: seq<Answer>, id: string, g: P.Function,
                     s1: P.Sys, left: seq<Answer>)
    requires f.bs > 0 && s.Valid() && s1.Valid() && s.dir.Some? && s1.dir.Some?
    requires InRange(|s.slots|, s.dir.value.table) && LogSlotMeans(codec, f, s, answers, id, s1, None, left)
    ensures UpdateMeans(codec, f, s, answers, id, g, s1, false)
  {
    var t := s.dir.value.table;
    if id !in t.ids && t.free != [] {
      assert t.free[0] in t.free;
      assert AllDone(f.bs, CeilDiv(48 + |codec.encode(s1.dir.value.table.ids)|, f.bs), []);
    }
  }

  lemma MeansSlot(codec: Codec, f: Format, s: P.Sys, answers: seq<Answer>, id: string, g: P.Function,
                  s1: P.Sys, left: seq<Answer>, i: nat, slot': M.Slot, ok: bool, s': P.Sys)
    requires f.bs > 0 && s.Valid() && s1.Valid() && s'.Valid() && s.dir.Some? && s1.dir.Some? && |s1.slots| == |s.slots|
    requires InRange(|s.slots|, s.dir.value.table) && LogSlotMeans(codec, f, s, answers, id, s1, Some(i), left)
    requires 1 <= i < |s1.slots| && Served(codec, f, s1.slots[i], g, left, slot', ok)
    requires s'.slots == s1.slots[i := slot'] && s'.dir == s1.dir
    ensures UpdateMeans(codec, f, s, answers, id, g, s', ok)
  {
  }

  // ---------------------------------------------------------------------
  // Calls as steps of the model

  /** `logSlot` with `create`, by what it does to table, token and slot 0. */
  ghost predicate Locates(env: P.Env, s: P.Sys, id: string, outcome: Outcome, s': P.Sys, r: Option<nat>)
    requires env.c.f.Valid() && s.Valid() && s.dir.Some?
  {
    var d := s.dir.value;
    if id in d.table.ids then s' == s && r == Some(d.table.ids[id])
    else if d.table.free == [] then s' == s && r == None
    else
      var data, ok := P.NewDirectory(env, d, id), P.Stores(env, s, id, outcome);
      && Landed(env.c.f.bs, data, outcome) <= BlocksFor(env.c.f.bs, data)
      && r == (if ok then Some(d.table.free[0]) else None)
      && s'.slots == s.slots[0 := M.CheckAndWrite(env.c.f, s.slots[0], d.token, data, outcome)]
      && s'.dir == Some(P.Running(Assign(d.table, id), if ok then NextRevision(d.token) else d.token))
      && s'.calls == s.calls
  }

  /** `addLog` for a log without a slot, when there are free ones. */
  ghost predicate Added(codec: Codec, f: Format, t: Table, token: nat, zero: M.Slot, id: string, outcome: Outcome,
                        t': Table, token': nat, zero': M.Slot, r: Option<nat>)
    requires t.free != [] && f.Valid() && zero.Valid() && zero.mem.Some?
  {
    var data := codec.encode(Assign(t, id).ids);
    var ok := token == zero.Current().revision && M.Succeeds(f.bs, zero, data, outcome);
    && t' == Assign(t, id)
    && Landed(f.bs, data, outcome) <= BlocksFor(f.bs, data)
    && zero' == M.CheckAndWrite(f, zero, token, data, outcome)
    && r == (if ok then Some(t.free[0]) else None)
    && token' == if ok then NextRevision(token) else token
  }

  lemma AddedLocates(env: P.Env, s: P.Sys, id: string, outcome: Outcome, s': P.Sys, r: Option<nat>)
    requires env.c.f.Valid() && s.Valid() && s.dir.Some? && id !in s.dir.value.table.ids
    requires s'.dir.Some? && s'.calls == s.calls && s'.slots != [] && s'.slots == s.slots[0 := s'.slots[0]]
    requires
      var d, d' := s.dir.value, s'.dir.value;
      if d.table.free == [] then r == None && d' == d && s'.slots[0] == s.slots[0]
      else Added(env.codec, env.c.f, d.table, d.token, s.slots[0], id, outcome, d'.table, d'.token, s'.slots[0], r)
    ensures Locates(env, s, id, outcome, s', r)
  {
    assert s.slots[0 := s.slots[0]] == s.slots;
  }

  lemma AssignInRange(n: nat, t: Table, id: string)
    requires InRange(n, t) && t.free != []
    ensures InRange(n, Assign(t, id))
  {
    assert t.free[0] in t.free;
    assert forall i | i in t.free[1..] :: i in t.free;
  }

  /** That is the model's step, for a call that has just begun. */
  lemma LocatesIs(env: P.Env, s: P.Sys, id: string, outcome: Outcome, s': P.Sys, r: Option<nat>)
    requires env.c.f.Valid() && s.Valid() && s.dir.Some? && s.calls == map[]
    requires InRange(|s.slots|, s.dir.value.table) && Locates(env, s, id, outcome, s', r)
    ensures P.WellFormed(env, s, P.Locate(0, id, outcome))
    ensures P.LocatedAt(env, s, 0, id, outcome)
         == s'.(calls := if r.Some? then map[0 := P.Located(id, r.value)] else map[])
    ensures s'.dir.Some? && InRange(|s.slots|, s'.dir.value.table) && s'.calls == map[]
    ensures r.Some? ==> 1 <= r.value < |s.slots|
  {
    var t := s.dir.value.table;
    if id !in t.ids && t.free != [] {
      assert t.free[0] in t.free;
      AssignInRange(|s.slots|, t, id);
    }
  }

  /** The directory in memory once the record in slot 0 has been added to the map there was. */
  ghost function ReadFrom(codec: Codec, n: nat, ids: SlotMap, r: Record): Option<P.Running> {
    var m := codec.decode(r.data);
    if m.None? then None
    else
      match Populate(n, ids + m.value)
      case None => None
      case Some(table) => Some(P.Running(table, r.revision))
  }

  /** `Init`, by what it makes of slot 0. */
  lemma BootedIs(env: P.Env, s: P.Sys, slot: M.Slot, s': P.Sys)
    requires env.c.f.bs > 0 && s.Valid() && s.dir.None? && slot == M.Open(env.c.f, s.slots[0])
    requires s'.slots == s.slots[0 := slot] && s'.calls == s.calls
    requires s'.dir == if slot.mem.None? then None else ReadFrom(env.codec, |s.slots|, map[], slot.Current())
    ensures P.Booted(env, s) == s'
  {
    assert slot.mem.None? ==> s.slots[0 := s.slots[0]] == s.slots;
    if slot.mem.Some? && env.codec.decode(slot.Current().data).Some? {
      var m := env.codec.decode(slot.Current().data).value;
      assert map[] + m == m;
    }
  }

  /** Init is idempotent: once the directory has been read, reading it again changes nothing. */
  lemma InitAgain(env: P.Env, s: P.Sys, b: P.Book)
    requires P.SysInv(env, s, b) && s.dir.Some?
    ensures env.c.f.bs > 0 ==> M.Open(env.c.f, s.slots[0]) == s.slots[0]
    ensures ReadFrom(env.codec, |s.slots|, s.dir.value.table.ids, s.slots[0].Current()) == s.dir
  {
    var ids, m := s.dir.value.table.ids, P.MapIn(env, s.slots[0].Current().data);
    assert ids + m == ids;
    PopulateUnique(|s.slots|, s.dir.value.table);
  }

  /** The checkpoint part of `Update` on one slot. */
  ghost predicate Exchanges(env: P.Env, slot: M.Slot, f: P.Function, outcome: Outcome, slot': M.Slot, ok: bool)
    requires env.c.f.Valid() && slot.Valid()
  {
    var open := M.Open(env.c.f, slot);
    if open.mem.None? then !ok && slot' == open
    else
      match P.NewData(env, open.Current().data, f)
      case None => !ok && slot' == open
      case Some(data) =>
        && Landed(env.c.f.bs, data, outcome) <= BlocksFor(env.c.f.bs, data)
        && slot' == M.Write(env.c.f, open, data, outcome)
        && (ok <==> M.Succeeds(env.c.f.bs, open, data, outcome))
  }

  /** `data` is to be written back for the function `f` on record `r`. */
  ghost predicate Due(env: P.Env, r: Record, f: P.Function, token: nat, data: Bytes) {
    var cp := CheckpointIn(env.codec, r.data);
    && token == r.revision && P.NewData(env, r.data, f) == Some(data)
    && cp.Some? && f(cp.value).Some? && data == [1, 82, 65, 87] + f(cp.value).value
  }

  lemma ExchangeRefused(env: P.Env, before: M.Slot, f: P.Function, answers: seq<Answer>)
    requires env.c.f.Valid() && before.Valid() && M.Open(env.c.f, before).mem.Some?
    requires
      var open := M.Open(env.c.f, before);
      var cp := CheckpointIn(env.codec, open.Current().data);
      P.NewData(env, open.Current().data, f) == None && (cp.None? || f(cp.value).None?)
    ensures
      var open := M.Open(env.c.f, before);
      Exchanges(env, before, f, Written, open, false) && Served(env.codec, env.c.f, before, f, answers, open, false)
  {
  }

  lemma ExchangeDone(env: P.Env, before: M.Slot, f: P.Function, outcome: Outcome, data: Bytes, slot': M.Slot, ok: bool,
                     answers: seq<Answer>)
    requires env.c.f.Valid() && before.Valid() && M.Open(env.c.f, before).mem.Some?
    requires
      var open := M.Open(env.c.f, before);
      var cp := CheckpointIn(env.codec, open.Current().data);
      && P.NewData(env, open.Current().data, f) == Some(data)
      && cp.Some? && f(cp.value).Some? && data == [1, 82, 65, 87] + f(cp.value).value
      && Landed(env.c.f.bs, data, outcome) <= BlocksFor(env.c.f.bs, data)
      && slot' == M.Write(env.c.f, open, data, outcome)
      && (ok <==> M.Succeeds(env.c.f.bs, open, data, outcome))
      && Replaced(env.c.f.bs, |before.disk|, open.Current(), data, answers, slot'.Current(), ok)
    ensures Exchanges(env, before, f, outcome, slot', ok) && Served(env.codec, env.c.f, before, f, answers, slot', ok)
  {
  }

  /** Fetch and commit, for a call that knows its slot. */
  lemma ExchangesIs(env: P.Env, s: P.Sys, id: string, i: nat, f: P.Function, outcome: Outcome, slot': M.Slot, ok: bool)
    requires env.c.f.Valid() && s.Valid() && i < |s.slots| && s.calls == map[0 := P.Located(id, i)]
    requires Exchanges(env, s.slots[i], f, outcome, slot', ok)
    ensures
      var s1 := P.FetchedBy(env, s, 0);
      && P.WellFormed(env, s1, P.Commit(0, f, outcome))
      && P.CommittedBy(env, s1, 0, f, outcome).(calls := map[]) == s.(slots := s.slots[i := slot'], calls := map[])
      && (ok <==> G.Wins(env, s1, 0, f, outcome))
  {
    var s1 := P.FetchedBy(env, s, 0);
    if M.Open(env.c.f, s.slots[i]).mem.None? {
      assert s.slots[i := s.slots[i]] == s.slots;
    } else {
      assert s1.slots[i := slot'] == s.slots[i := slot'];
    }
  }

  /** A whole call of `Update` from state `s` to `s'`: the model's steps, one after the other. */
  ghost predicate Updates(env: P.Env, s: P.Sys, id: string, f: P.Function, stored: Outcome, outcome: Outcome,
                          s': P.Sys, ok: bool)
  {
    && P.WellFormed(env, s, P.Locate(0, id, stored))
    && var s1 := P.LocatedAt(env, s, 0, id, stored);
    && P.WellFormed(env, s1, P.Fetch(0))
    && var s2 := P.FetchedBy(env, s1, 0);
    && P.WellFormed(env, s2, P.Commit(0, f, outcome))
    && s' == P.CommittedBy(env, s2, 0, f, outcome).(calls := map[])
    && (ok <==> G.Wins(env, s2, 0, f, outcome))
  }

  lemma UpdatesNothing(env: P.Env, s: P.Sys, id: string, f: P.Function, stored: Outcome, s': P.Sys)
    requires env.c.f.Valid() && s.Valid() && s.dir.Some? && s.calls == map[] && s'.Valid()
    requires InRange(|s.slots|, s.dir.value.table) && Locates(env, s, id, stored, s', None)
    ensures Updates(env, s, id, f, stored, Written, s', false)
  {
    LocatesIs(env, s, id, stored, s', None);
  }

  lemma UpdatesSlot(env: P.Env, s: P.Sys, id: string, f: P.Function, stored: Outcome, outcome: Outcome,
                    s1: P.Sys, i: nat, slot': M.Slot, ok: bool)
    requires env.c.f.Valid() && s.Valid() && s.dir.Some? && s.calls == map[] && s1.Valid()
    requires InRange(|s.slots|, s.dir.value.table) && Locates(env, s, id, stored, s1, Some(i))
    requires |s1.slots| == |s.slots| && i < |s1.slots| && Exchanges(env, s1.slots[i], f, outcome, slot', ok)
    ensures Updates(env, s, id, f, stored, outcome, s1.(slots := s1.slots[i := slot'], calls := map[]), ok)
  {
    LocatesIs(env, s, id, stored, s1, Some(i));
    var located := s1.(calls := map[0 := P.Located(id, i)]);
    ExchangesIs(env, located, id, i, f, outcome, slot', ok);
  }

  /**
   What the model guarantees holds between calls: a call whose writes crash atomicity covers
   keeps the invariant of the whole storage, with the book the model's steps keep.
   */
  lemma UpdatesKeep(env: P.Env, s: P.Sys, b: P.Book, id: string, f: P.Function, stored: Outcome, outcome: Outcome,
                    s': P.Sys, ok: bool) returns (b': P.Book)
    requires P.SysInv(env, s, b) && Updates(env, s, id, f, stored, outcome, s', ok)
    requires P.Legal(env, s, P.Locate(0, id, stored))
    requires
      var s2 := P.FetchedBy(env, P.LocatedAt(env, s, 0, id, stored), 0);
      P.Legal(env, s2, P.Commit(0, f, outcome))
    ensures P.SysInv(env, s', b')
    ensures
      var s1, b1 := P.LocatedAt(env, s, 0, id, stored), P.Track(env, s, b, P.Locate(0, id, stored));
      var s2, b2 := P.FetchedBy(env, s1, 0), P.Track(env, s1, b1, P.Fetch(0));
      b' == P.Track(env, s2, b2, P.Commit(0, f, outcome))
  {
    var s1, b1 := P.LocatedAt(env, s, 0, id, stored), P.Track(env, s, b, P.Locate(0, id, stored));
    D.StepKeeps(env, s, b, P.Locate(0, id, stored));
    var s2, b2 := P.FetchedBy(env, s1, 0), P.Track(env, s1, b1, P.Fetch(0));
    D.StepKeeps(env, s1, b1, P.Fetch(0));
    b' := P.Track(env, s2, b2, P.Commit(0, f, outcome));
    D.StepKeeps(env, s2, b2, P.Commit(0, f, outcome));
    CallsEnd(env, P.CommittedBy(env, s2, 0, f, outcome), b');
  }

  /** Calls may end at any time. */
  lemma CallsEnd(env: P.Env, s: P.Sys, b: P.Book)
    requires P.SysInv(env, s, b)
    ensures P.SysInv(env, s.(calls := map[]), b)
  {
    var s' := s.(calls := map[]);
    assert s'.Valid() && P.DirectoryOk(env, s', b);
  }

  /** The slots of a storage that satisfies the invariant are sound. */
  lemma SlotsSound(env: P.Env, s: P.Sys, b: P.Book, i: nat)
    requires P.SysInv(env, s, b) && i < |s.slots|
    ensures Sound(env.c, s.slots[i].disk)
  {
    assert M.SlotOk(env.c, s.slots[i], b.ledgers[i]);
    var mem, first, pos :| M.Witness(env.c, s.slots[i], b.ledgers[i], mem, first, pos);
  }

  // ---------------------------------------------------------------------

  class Store {
    const codec: Codec
    const slots: seq<Slot>
    var directoryWriteToken: nat
    var idToSlot: SlotMap
    var freeSlots: seq<nat>
    /** `Init` has read the directory. */
    ghost var booted: bool

    /** Distinct slots on one device, none reaching into another. */
    ghost predicate Valid()
      reads slots, set i | 0 <= i < |slots| :: slots[i].journal
      reads set i | 0 <= i < |slots| :: slots[i].dev.card
    {
      && slots != []
      && (forall i | 0 <= i < |slots| :: slots[i].Valid())
      && (forall i | 0 <= i < |slots| :: slots[i].dev == slots[0].dev && slots[i].hash == slots[0].hash)
      && (forall i, j | 0 <= i < j < |slots| ::
            && slots[i] != slots[j]
            && (slots[i].journal != null ==> slots[i].journal != slots[j].journal)
            && slots[i].start + slots[i].length <= slots[j].start)
    }

    /** The directory, once read, is open and speaks of existing slots. */
    ghost predicate Ready()
      requires slots != []
      reads this, slots[0]
    {
      booted ==> slots[0].journal != null && InRange(|slots|, Table())
    }

    ghost function Table(): Table
      reads this
    {
      Directory.Table(idToSlot, freeSlots)
    }

    /** The slots as values. */
    ghost function Values(): (v: seq<M.Slot>)
      requires Valid()
      reads slots, set i | 0 <= i < |slots| :: slots[i].journal
      reads set i | 0 <= i < |slots| :: slots[i].dev.card
      ensures |v| == |slots| && forall i | 0 <= i < |slots| :: v[i] == slots[i].Value()
    {
      ValuesTo(|slots|)
    }

    ghost function ValuesTo(n: nat): (v: seq<M.Slot>)
      requires Valid() && n <= |slots|
      reads slots, set i | 0 <= i < |slots| :: slots[i].journal
      reads set i | 0 <= i < |slots| :: slots[i].dev.card
      ensures |v| == n && forall i | 0 <= i < n :: v[i] == slots[i].Value()
    {
      if n == 0 then [] else ValuesTo(n - 1) + [slots[n - 1].Value()]
    }

    /** The whole layer as a state of the persistence model, between calls. */
    ghost function Sys(): (s: P.Sys)
      requires Valid() && Ready()
      reads this, slots, set i | 0 <= i < |slots| :: slots[i].journal
      reads set i | 0 <= i < |slots| :: slots[i].dev.card
      ensures s.Valid()
    {
      P.Sys(Values(), Running(), map[])
    }

    ghost function Running(): Option<P.Running>
      reads this
    {
      if booted then Some(P.Running(Table(), directoryWriteToken)) else None
    }

    constructor (codec: Codec, slots: seq<Slot>)
      ensures this.codec == codec && this.slots == slots
      ensures Table() == Directory.Table(map[], []) && !booted
    {
      this.codec, this.slots := codec, slots;
      directoryWriteToken, idToSlot, freeSlots, booted := 0, map[], [], false;
    }

    /** Nothing below this layer changed. */
    twostate lemma SlotsUntouched()
      requires old(Valid())
      requires forall i | 0 <= i < |slots| ::
        && unchanged(slots[i]) && unchanged(slots[i].dev.card)
        && (slots[i].journal != null ==> unchanged(slots[i].journal))
      ensures Valid() && Values() == old(Values())
    {
      forall i | 0 <= i < |slots|
        ensures slots[i].Valid() && slots[i].Value() == old(slots[i].Value())
      {
      }
    }

    /** Reads the directory, adding to the map there is, and works out the free slots. */
    method PopulateMap() returns (ok: bool)
      requires Valid() && slots[0].journal != null
      modifies this
      ensures Valid() && Values() == old(Values()) && Ready() && booted == ok
      ensures Running() == ReadFrom(codec, |slots|, old(idToSlot), slots[0].Value().Current())
    {
      var b, t := slots[0].Read();
      ok := FillTable(b, t);
      SlotsUntouched();
    }

    /** Takes in the map `b`, read with token `t`. */
    method FillTable(b: Bytes, t: nat) returns (ok: bool)
      requires slots != []
      modifies this
      ensures booted == ok && (booted ==> InRange(|slots|, Table()))
      ensures Running() == ReadFrom(codec, |slots|, old(idToSlot), Record(t, b))
    {
      booted := false;
      var m := codec.decode(b);
      if m.None? {
        return false;
      }
      idToSlot := idToSlot + m.value;
      directoryWriteToken := t;
      var used;
      ok, used := MarkUsed(idToSlot, |slots|);
      if ok {
        freeSlots := CollectFree(used, idToSlot.Values);
        booted := true;
      }
    }

    /** Slot `id` of each log is used; fails on slot 0 and on slots that do not exist. */
    static method MarkUsed(ids: SlotMap, n: nat) returns (ok: bool, used: seq<bool>)
      requires n > 0
      ensures ok <==> forall id | id in ids :: 1 <= ids[id] < n
      ensures ok ==> |used| == n && forall i | 0 <= i < n :: used[i] <==> i == 0 || i in ids.Values
    {
      used := seq(n, _ => false);
      var rest := ids.Keys;
      while rest != {}
        invariant rest <= ids.Keys && |used| == n
        invariant forall id | id in ids && id !in rest :: 1 <= ids[id] < n && used[ids[id]]
        invariant forall i | 0 <= i < n && used[i] :: i in ids.Values
        decreases rest
      {
        var id :| id in rest;
        var idx := ids[id];
        if idx == 0 || idx >= n {
          return false, used;
        }
        used := used[idx := true];
        rest := rest - {id};
      }
      used := used[0 := true];
      ok := true;
    }

    static method CollectFree(used: seq<bool>, values: set<nat>) returns (free: seq<nat>)
      requires used != []
      requires forall i | 0 <= i < |used| :: used[i] <==> i == 0 || i in values
      ensures free == FreeFrom(|used|, values, 1)
    {
      free := [];
      for i := 0 to |used|
        invariant i == 0 ==> free == []
        invariant i > 0 ==> free + FreeFrom(|used|, values, i) == FreeFrom(|used|, values, 1)
      {
        if !used[i] {
          free := free + [i];
          assert FreeFrom(|used|, values, i) == [i] + FreeFrom(|used|, values, i + 1);
        }
      }
    }

    /** Every slot but slot `k` is as before. */
    twostate predicate OthersUnchanged(k: nat)
      reads slots, set i | 0 <= i < |slots| :: slots[i].journal
      reads set i | 0 <= i < |slots| :: slots[i].dev.card
    {
      && old(Valid()) && Valid()
      && forall i | 0 <= i < |slots| && i != k ::
           slots[i].journal == old(slots[i].journal) && slots[i].Value() == old(slots[i].Value())
    }

    /** A write to slot `k` leaves the other slots alone. */
    twostate lemma OthersStay(k: nat)
      requires old(Valid()) && k < |slots| && slots[k].Valid() && slots[k].journal == old(slots[k].journal)
      requires forall i | 0 <= i < |slots| && i != k ::
        unchanged(slots[i]) && (slots[i].journal != null ==> unchanged(slots[i].journal))
      requires
        var s := slots[k];
        SameOutside(old(s.dev.card.blocks), s.dev.card.blocks, s.start, s.start + s.length)
      ensures Valid() && OthersUnchanged(k)
    {
      forall i | 0 <= i < |slots| && i != k
        ensures slots[i].Valid() && slots[i].Value() == old(slots[i].Value())
      {
        OtherSlotUntouched(old(slots[k].dev.card.blocks), slots[k].dev.card.blocks,
                           Extent(slots[k].start, slots[k].length), Extent(slots[i].start, slots[i].length));
      }
    }

    /** Only slot `k` changed. */
    twostate lemma OneValue(k: nat)
      requires OthersUnchanged(k) && k < |slots|
      ensures old(Valid()) && Valid() && Values() == old(Values())[k := slots[k].Value()]
    {
    }

    /** Opens slot `i` unless it is open. */
    method OpenSlot(i: nat, ghost c: Setting) returns (ok: bool)
      requires Valid() && i < |slots|
      requires c.f == slots[i].f && Sound(c, slots[i].Value().disk)
      modifies slots[i]
      ensures Valid() && OthersUnchanged(i) && (slots[i].journal != old(slots[i].journal) ==> fresh(slots[i].journal))
      ensures slots[i].Value() == M.Open(c.f, old(slots[i].Value()))
      ensures ok <==> slots[i].Value().mem.Some?
      ensures Values() == old(Values())[i := slots[i].Value()]
    {
      ok := slots[i].OpenSound(c);
      OneValue(i);
    }

    /** A compare-and-swap on slot `i`. */
    method WriteSlot(i: nat, token: nat, data: Bytes) returns (ok: bool, ghost outcome: Outcome)
      requires Valid() && i < |slots| && slots[i].journal != null
      modifies slots[i].journal, slots[i].dev.card
      ensures Valid() && OthersUnchanged(i) && slots[i].journal == old(slots[i].journal)
      ensures Landed(slots[i].f.bs, data, outcome) <= BlocksFor(slots[i].f.bs, data)
      ensures slots[i].Value() == M.CheckAndWrite(slots[i].f, old(slots[i].Value()), token, data, outcome)
      ensures ok <==> token == old(slots[i].Value()).Current().revision
                      && M.Succeeds(slots[i].f.bs, old(slots[i].Value()), data, outcome)
      ensures Values() == old(Values())[i := slots[i].Value()]
      ensures token == old(slots[i].Value()).Current().revision ==>
        Replaced(slots[i].f.bs, slots[i].length, old(slots[i].Value()).Current(), data, old(slots[i].dev.card.answers),
                 slots[i].Value().Current(), ok)
      ensures old(slots[i].dev.card.answers) == [] ==> slots[i].dev.card.answers == []
    {
      ok, outcome := slots[i].CheckAndWrite(token, data);
      OthersStay(i);
      OneValue(i);
    }

    /** Writes the directory to slot 0 if the token is current. */
    method StoreDirectory() returns (ok: bool, ghost outcome: Outcome)
      requires Valid() && slots[0].journal != null
      modifies this`directoryWriteToken, slots[0].journal, slots[0].dev.card
      ensures Valid() && OthersUnchanged(0) && slots[0].journal == old(slots[0].journal)
      ensures Landed(slots[0].f.bs, codec.encode(idToSlot), outcome) <= BlocksFor(slots[0].f.bs, codec.encode(idToSlot))
      ensures
        var before, data := old(slots[0].Value()), codec.encode(idToSlot);
        && slots[0].Value() == M.CheckAndWrite(slots[0].f, before, old(directoryWriteToken), data, outcome)
        && (ok <==> old(directoryWriteToken) == before.Current().revision
                    && M.Succeeds(slots[0].f.bs, before, data, outcome))
        && directoryWriteToken == if ok then NextRevision(old(directoryWriteToken)) else old(directoryWriteToken)
      ensures old(directoryWriteToken) == old(slots[0].Value()).Current().revision ==>
        Replaced(slots[0].f.bs, slots[0].length, old(slots[0].Value()).Current(), codec.encode(idToSlot),
                 old(slots[0].dev.card.answers), slots[0].Value().Current(), ok)
      ensures old(slots[0].dev.card.answers) == [] ==> slots[0].dev.card.answers == []
    {
      var token := directoryWriteToken;
      ok, outcome := WriteSlot(0, token, codec.encode(idToSlot));
      if ok {
        directoryWriteToken := NextRevision(token);
      }
    }

    /** `addLog`: the first free slot goes to a new log, and the directory is stored. */
    method AddLog(id: string) returns (r: Option<nat>, ghost outcome: Outcome)
      requires Valid() && slots[0].journal != null && id !in idToSlot
      modifies this, slots[0].journal, slots[0].dev.card
      ensures Valid() && OthersUnchanged(0)
      ensures slots[0].journal == old(slots[0].journal)
      ensures old(freeSlots) == [] ==>
        r == None && Table() == old(Table()) && slots[0].Value() == old(slots[0].Value())
        && directoryWriteToken == old(directoryWriteToken)
      ensures old(freeSlots) != [] ==>
        Added(codec, slots[0].f, old(Table()), old(directoryWriteToken), old(slots[0].Value()), id, outcome,
              Table(), directoryWriteToken, slots[0].Value(), r)
      ensures booted == old(booted)
      ensures old(InRange(|slots|, Table())) ==> InRange(|slots|, Table())
      ensures old(freeSlots) == [] ==> slots[0].dev.card.answers == old(slots[0].dev.card.answers)
      ensures old(freeSlots) != [] ==>
        idToSlot == old(idToSlot)[id := old(freeSlots)[0]] && freeSlots == old(freeSlots)[1..]
      ensures
        old(freeSlots) != [] && old(directoryWriteToken) == old(slots[0].Value()).Current().revision ==>
        Replaced(slots[0].f.bs, slots[0].length, old(slots[0].Value()).Current(), codec.encode(idToSlot),
                 old(slots[0].dev.card.answers), slots[0].Value().Current(), r.Some?)
      ensures old(slots[0].dev.card.answers) == [] ==> slots[0].dev.card.answers == []
    {
      if |freeSlots| == 0 {
        return None, Written;
      }
      var f := freeSlots[0];
      freeSlots := freeSlots[1..];
      idToSlot := idToSlot[id := f];
      assert Valid() && slots[0].Value() == old(slots[0].Value());
      var ok;
      ok, outcome := StoreDirectory();
      assert Table() == Assign(old(Table()), id);
      if old(InRange(|slots|, Table())) {
        AssignInRange(|slots|, old(Table()), id);
      }
      r := if ok then Some(f) else None;
    }

    /** `Init`: opens slot 0 and reads the directory. */
    method Init(ghost c: Setting) returns (ok: bool)
      requires Valid() && Ready()
      requires c.f == slots[0].f && Sound(c, slots[0].Value().disk)
      modifies this, slots[0]
      ensures Valid() && Ready() && booted == ok
      ensures Values() == old(Values())[0 := M.Open(c.f, old(slots[0].Value()))]
      ensures
        var slot := slots[0].Value();
        Running() == if slot.mem.None? then None else ReadFrom(codec, |slots|, old(idToSlot), slot.Current())
      ensures old(!booted && idToSlot == map[]) ==> Sys() == P.Booted(P.Env(c, codec), old(Sys()))
    {
      ok := ReadDirectory(c);
      if old(!booted && idToSlot == map[]) {
        InitIs(c);
      }
    }

    /** Opens slot 0 and adds the directory in it to the map there is. */
    method ReadDirectory(ghost c: Setting) returns (ok: bool)
      requires Valid() && c.f == slots[0].f && Sound(c, slots[0].Value().disk)
      modifies this, slots[0]
      ensures Valid() && Ready() && booted == ok
      ensures slots[0].Value() == M.Open(c.f, old(slots[0].Value()))
      ensures Values() == old(Values())[0 := slots[0].Value()]
      ensures
        var slot := slots[0].Value();
        Running() == if slot.mem.None? then None else ReadFrom(codec, |slots|, old(idToSlot), slot.Current())
    {
      ok := OpenSlot(0, c);
      if ok {
        ok := PopulateMap();
      } else {
        booted := false;
      }
    }

    twostate lemma InitIs(c: Setting)
      requires old(Valid() && Ready()) && Valid() && Ready()
      requires old(!booted) && c.f == slots[0].f
      requires slots[0].Value() == M.Open(c.f, old(slots[0].Value()))
      requires Values() == old(Values())[0 := slots[0].Value()]
      requires
        var slot := slots[0].Value();
        Running() == if slot.mem.None? then None else ReadFrom(codec, |slots|, map[], slot.Current())
      ensures Sys() == P.Booted(P.Env(c, codec), old(Sys()))
    {
      BootedIs(P.Env(c, codec), old(Sys()), slots[0].Value(), Sys());
    }

    /** `logSlot`: the slot of a log, assigning one to a new log if asked to. */
    method LogSlot(id: string, create: bool, ghost c: Setting) returns (r: Option<nat>, ghost outcome: Outcome)
      requires Valid() && Ready() && booted && c.f == slots[0].f
      modifies this, slots[0].journal, slots[0].dev.card
      ensures Valid() && Ready() && booted && OthersUnchanged(0) && slots[0].journal == old(slots[0].journal)
      ensures r.Some? ==> 1 <= r.value < |slots|
      ensures create ==> Locates(P.Env(c, codec), old(Sys()), id, outcome, Sys(), r)
      ensures !create ==> Sys() == old(Sys()) && r == if id in idToSlot then Some(idToSlot[id]) else None
      ensures create ==>
        LogSlotMeans(codec, c.f, old(Sys()), old(slots[0].dev.card.answers), id, Sys(), r, slots[0].dev.card.answers)
    {
      if id in idToSlot {
        return Some(idToSlot[id]), Written;
      }
      if !create {
        return None, Written;
      }
      ghost var s := Sys();
      r, outcome := AddLog(id);
      OneValue(0);
      AddedLocates(P.Env(c, codec), s, id, outcome, Sys(), r);
      LocatesIs(P.Env(c, codec), s, id, outcome, Sys(), r);
    }

    /** The checkpoint part of `Update`: fetch, apply the caller's function, write back. */
    method UpdateSlot(i: nat, f: P.Function, ghost c: Setting) returns (ok: bool, ghost outcome: Outcome)
      requires Valid() && i < |slots|
      requires c.f == slots[i].f && Sound(c, slots[i].Value().disk)
      modifies slots[i], slots[i].journal, slots[i].dev.card
      ensures Valid() && OthersUnchanged(i)
      ensures Exchanges(P.Env(c, codec), old(slots[i].Value()), f, outcome, slots[i].Value(), ok)
      ensures Served(codec, c.f, old(slots[i].Value()), f, old(slots[i].dev.card.answers), slots[i].Value(), ok)
    {
      outcome := Written;
      ghost var before := slots[i].Value();
      ok := OpenSlot(i, c);
      if ok {
        ok, outcome := Exchange(i, f, c, before);
      }
    }

    /** The same once the slot, which was `before`, is open. */
    method Exchange(i: nat, f: P.Function, ghost c: Setting, ghost before: M.Slot)
      returns (ok: bool, ghost outcome: Outcome)
      requires Valid() && i < |slots| && slots[i].journal != null && c.f == slots[i].f
      requires before.Valid() && M.Open(c.f, before) == slots[i].Value()
      modifies slots[i].journal, slots[i].dev.card
      ensures Valid() && OthersUnchanged(i)
      ensures Exchanges(P.Env(c, codec), before, f, outcome, slots[i].Value(), ok)
      ensures Served(codec, c.f, before, f, old(slots[i].dev.card.answers), slots[i].Value(), ok)
    {
      ok, outcome := false, Written;
      var t, data := Prepare(i, f, c, before);
      if data.Some? {
        ok, outcome := WriteBack(i, t, data.value, f, c, before);
      }
    }

    /** Reads the slot, which was `before` and is open now, and works out what to write back, if anything. */
    method Prepare(i: nat, f: P.Function, ghost c: Setting, ghost before: M.Slot) returns (t: nat, data: Option<Bytes>)
      requires Valid() && i < |slots| && slots[i].journal != null && c.f == slots[i].f
      requires before.Valid() && M.Open(c.f, before) == slots[i].Value()
      ensures data.None? ==> Exchanges(P.Env(c, codec), before, f, Written, slots[i].Value(), false)
      ensures data.None? ==> Served(codec, c.f, before, f, slots[i].dev.card.answers, slots[i].Value(), false)
      ensures data.Some? ==> Due(P.Env(c, codec), slots[i].Value().Current(), f, t, data.value)
    {
      var b;
      b, t := slots[i].Read();
      data := Compute(b, f, c);
      if data.None? {
        ExchangeRefused(P.Env(c, codec), before, f, slots[i].dev.card.answers);
      }
    }

    /** Writes the result to the slot, which was `before` and is open now. */
    method WriteBack(i: nat, token: nat, data: Bytes, ghost f: P.Function, ghost c: Setting, ghost before: M.Slot)
      returns (ok: bool, ghost outcome: Outcome)
      requires Valid() && i < |slots| && slots[i].journal != null && c.f == slots[i].f
      requires before.Valid() && M.Open(c.f, before) == slots[i].Value()
      requires Due(P.Env(c, codec), slots[i].Value().Current(), f, token, data)
      modifies slots[i].journal, slots[i].dev.card
      ensures Valid() && OthersUnchanged(i)
      ensures Exchanges(P.Env(c, codec), before, f, outcome, slots[i].Value(), ok)
      ensures Served(codec, c.f, before, f, old(slots[i].dev.card.answers), slots[i].Value(), ok)
    {
      ghost var answers := slots[i].dev.card.answers;
      ok, outcome := WriteSlot(i, token, data);
      ExchangeDone(P.Env(c, codec), before, f, outcome, data, slots[i].Value(), ok, answers);
    }

    /** The data to write back: the caller's function on the checkpoint in `b`. */
    method Compute(b: Bytes, f: P.Function, ghost c: Setting) returns (data: Option<Bytes>)
      ensures data == P.NewData(P.Env(c, codec), b, f)
      ensures
        var cp := CheckpointIn(codec, b);
        data == if cp.None? || f(cp.value).None? then None else Some([1, 82, 65, 87] + f(cp.value).value)
    {
      var cp := UnmarshalCheckpoint(codec, b);
      if cp.None? {
        return None;
      }
      var new' := f(cp.value);
      if new'.None? {
        return None;
      }
      data := Some(MarshalCheckpoint(new'.value));
    }

    /**
     `Update`: finds the log's slot, or assigns one, and updates the checkpoint in it. `stored`
     is what the device did when the directory was written, `outcome` for the checkpoint.
     */
    method Update(id: string, f: P.Function, ghost c: Setting)
      returns (ok: bool, ghost stored: Outcome, ghost outcome: Outcome)
      requires Valid() && Ready() && booted
      requires forall i | 0 <= i < |slots| :: c.f == slots[i].f && Sound(c, slots[i].Value().disk)
      modifies this, slots, set i | 0 <= i < |slots| :: slots[i].journal, slots[0].dev.card
      ensures Valid() && Ready() && booted
      ensures Updates(P.Env(c, codec), old(Sys()), id, f, stored, outcome, Sys(), ok)
      ensures UpdateMeans(codec, c.f, old(Sys()), old(slots[0].dev.card.answers), id, f, Sys(), ok)
    {
      ghost var env, s, answers := P.Env(c, codec), Sys(), slots[0].dev.card.answers;
      outcome := Written;
      var r;
      r, stored := LogSlot(id, true, c);
      ghost var s1, left := Sys(), slots[0].dev.card.answers;
      if r.None? {
        UpdatesNothing(env, s, id, f, stored, s1);
        MeansNothing(codec, c.f, s, answers, id, f, s1, left);
        return false, stored, Written;
      }
      label Located:
      ok, outcome := UpdateSlot(r.value, f, c);
      OneValue@Located(r.value);
      UpdatesSlot(env, s, id, f, stored, outcome, s1, r.value, slots[r.value].Value(), ok);
      MeansSlot(codec, c.f, s, answers, id, f, s1, left, r.value, slots[r.value].Value(), ok, Sys());
    }

    /** `Latest`: the stored checkpoint of a log. Its slot is open afterwards; nothing else changes. */
    method Latest(id: string, ghost c: Setting) returns (a: G.Answer)
      requires Valid() && Ready() && booted
      requires forall i | 0 <= i < |slots| :: c.f == slots[i].f && Sound(c, slots[i].Value().disk)
      modifies slots
      ensures Valid() && Ready() && booted
      ensures a == G.Latest(P.Env(c, codec), old(Sys()), id)
      ensures if id in idToSlot then Told(codec, c.f, old(Values())[idToSlot[id]], a) else a == G.NotFound
      ensures id !in idToSlot ==> Sys() == old(Sys())
      ensures id in idToSlot ==> Updates(P.Env(c, codec), old(Sys()), id, _ => None, Written, Written, Sys(), false)
    {
      ghost var env, s := P.Env(c, codec), Sys();
      if id !in idToSlot {
        return G.NotFound;
      }
      var i := idToSlot[id];
      a := ReadCheckpoint(i, c);
      UpdatesSlot(env, s, id, _ => None, Written, Written, s, i, slots[i].Value(), false);
    }

    /** Opens slot `i` and reads the checkpoint in it. */
    method ReadCheckpoint(i: nat, ghost c: Setting) returns (a: G.Answer)
      requires Valid() && i < |slots| && c.f == slots[i].f && Sound(c, slots[i].Value().disk)
      modifies slots[i]
      ensures Valid() && OthersUnchanged(i) && (slots[i].journal != null || slots[i].journal == old(slots[i].journal))
      ensures slots[i].Value() == M.Open(c.f, old(slots[i].Value()))
      ensures Values() == old(Values())[i := slots[i].Value()]
      ensures
        var slot := slots[i].Value();
        a == if slot.mem.None? then G.Unavailable else G.AnswerFor(P.Env(c, codec), slot.Current().data)
    {
      var ok := OpenSlot(i, c);
      if !ok {
        return G.Unavailable;
      }
      var b, _ := slots[i].Read();
      if |b| == 0 {
        return G.NotFound;
      }
      var cp := UnmarshalCheckpoint(codec, b);
      a := if cp.Some? then G.Found(cp.value) else G.Unavailable;
    }
  }
}
