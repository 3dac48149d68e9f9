/**
 Calls in flight together. Each step of a call acts on its own whatever other calls are
 pending, and of two calls that fetched the same checkpoint exactly one can replace it.
 */
module Contention {
  import opened Blocks
  import opened Entries
  import opened JournalModel
  import Collisions
  import opened SlotModel
  import opened Directory
  import opened Persistence
  import opened Guarantees
  import D = DirectoryFailure

  // ---------------------------------------------------------------------
  // One step, said without the step functions

  /** A known log's slot is found at once, whatever calls are pending. */
  lemma LocateActs(env: Env, s: Sys, t: nat, id: string, outcome: Outcome)
    requires env.c.f.Valid() && s.Valid() && t !in s.calls
    requires s.dir.Some? && id in s.dir.value.table.ids && s.dir.value.table.ids[id] < |s.slots|
    ensures Legal(env, s, Locate(t, id, outcome))
    ensures LocatedAt(env, s, t, id, outcome) == s.(calls := s.calls[t := Located(id, s.dir.value.table.ids[id])])
  {
  }

  /** The slot is opened, and the call has its data and revision. */
  lemma FetchActs(env: Env, s: Sys, t: nat)
    requires env.c.f.Valid() && s.Valid() && t in s.calls && s.calls[t].Located?
    requires Open(env.c.f, s.slots[s.calls[t].slot]).mem.Some?
    ensures Legal(env, s, Fetch(t))
    ensures
      var p, open := s.calls[t], Open(env.c.f, s.slots[s.calls[t].slot]);
      var s' := FetchedBy(env, s, t);
      && s'.Valid() && s'.dir == s.dir && s'.slots == s.slots[p.slot := open]
      && s'.calls == s.calls[t := Fetched(p.id, p.slot, open.Current().data, open.Current().revision)]
  {
  }

  /** What a call writes, if its token is current: the caller's function on the checkpoint fetched. */
  function Result(env: Env, base: Bytes, f: Function): Option<Bytes> {
    var cp := CheckpointIn(env.codec, base);
    if cp.None? || f(cp.value).None? then None else Some([1, 82, 65, 87] + f(cp.value).value)
  }

  lemma ResultMeans(env: Env, base: Bytes, f: Function)
    ensures NewData(env, base, f) == Result(env, base, f)
  {
    CheckpointMeans(env.codec, base);
  }

  /** The commit goes through: there is a result, it is not too long, the token is current, the device succeeds. */
  predicate GoesThrough(env: Env, s: Sys, p: Phase, f: Function, outcome: Outcome)
    requires p.Fetched? && p.slot < |s.slots| && s.slots[p.slot].mem.Some?
  {
    var slot, data := s.slots[p.slot], Result(env, p.base, f);
    && data.Some? && 3 * (48 + |data.value|) <= |slot.disk| * env.c.f.bs
    && p.token == slot.Current().revision && outcome.Written?
  }

  /** A commit that goes through replaces the slot's record; any other leaves it. Nothing else changes. */
  lemma CommitActs(env: Env, s: Sys, t: nat, f: Function, outcome: Outcome)
    requires WellFormed(env, s, Commit(t, f, outcome)) && t in s.calls && s.calls[t].Fetched?
    ensures
      var p, s' := s.calls[t], CommittedBy(env, s, t, f, outcome);
      var before, after := s.slots[p.slot].Current(), s'.slots[p.slot];
      && s'.dir == s.dir && s'.calls == s.calls - {t} && |s'.slots| == |s.slots|
      && (forall i | 0 <= i < |s.slots| && i != p.slot :: s'.slots[i] == s.slots[i])
      && after.mem.Some?
      && after.Current() == (if GoesThrough(env, s, p, f, outcome)
                             then Record((before.revision + 1) % 0x1_0000_0000, Result(env, p.base, f).value)
                             else before)
      && (p.token != before.revision ==> after == s.slots[p.slot])
      && (GoesThrough(env, s, p, f, outcome) <==> Wins(env, s, t, f, outcome))
  {
    var p := s.calls[t];
    ResultMeans(env, p.base, f);
    if Result(env, p.base, f).Some? {
      AcceptedMeans(env.c.f.bs, |s.slots[p.slot].disk|, Result(env, p.base, f).value);
    }
  }

  // ---------------------------------------------------------------------
  // Two calls

  /** Two calls for log `id`: both look up the slot, both fetch, and then both commit. */
  function TwoCalls(id: string, t: nat, u: nat, f: Function, g: Function, outcome: Outcome): seq<Event> {
    [Locate(t, id, Written), Locate(u, id, Written), Fetch(t)]
    + [Fetch(u), Commit(t, f, Written), Commit(u, g, outcome)]
  }

  /** Log `id` has slot `i`, which opens with record `r`; neither call is in flight. */
  ghost predicate Contended(env: Env, s: Sys, id: string, i: nat, r: Record, t: nat, u: nat) {
    && env.c.f.Valid() && s.Valid() && t != u && t !in s.calls && u !in s.calls
    && s.dir.Some? && id in s.dir.value.table.ids && s.dir.value.table.ids[id] == i < |s.slots|
    && Open(env.c.f, s.slots[i]).mem.Some? && Open(env.c.f, s.slots[i]).Current() == r
  }

  /** The first half: both calls know their slot, and one has fetched. */
  lemma BothLocated(env: Env, s: Sys, id: string, i: nat, r: Record, t: nat, u: nat) returns (s3: Sys)
    requires Contended(env, s, id, i, r, t, u)
    ensures
      var events := [Locate(t, id, Written), Locate(u, id, Written), Fetch(t)];
      LegalRun(env, s, events) && Run(env, s, events) == s3
    ensures s3.Valid() && s3.dir == s.dir && s3.slots == s.slots[i := Open(env.c.f, s.slots[i])]
    ensures s3.calls == s.calls[t := Located(id, i)][u := Located(id, i)][t := Fetched(id, i, r.data, r.revision)]
  {
    LocateActs(env, s, t, id, Written);
    var s1 := LocatedAt(env, s, t, id, Written);
    LocateActs(env, s1, u, id, Written);
    var s2 := LocatedAt(env, s1, u, id, Written);
    FetchActs(env, s2, t);
    s3 := FetchedBy(env, s2, t);
    D.RunOfThree(env, s, Locate(t, id, Written), s1, Locate(u, id, Written), s2, Fetch(t));
  }

  /** A slot that is open, and two calls that fetched its record: the first to commit wins. */
  lemma FirstWins(env: Env, s: Sys, id: string, i: nat, r: Record, t: nat, u: nat, f: Function, g: Function,
                  outcome: Outcome) returns (s1: Sys, s2: Sys)
    requires env.c.f.Valid() && s.Valid() && t != u && i < |s.slots|
    requires t in s.calls && s.calls[t] == Fetched(id, i, r.data, r.revision)
    requires u in s.calls && s.calls[u] == Fetched(id, i, r.data, r.revision)
    requires s.slots[i].mem.Some? && s.slots[i].Current() == r && r.revision + 1 < TWO32
    requires GoesThrough(env, s, s.calls[t], f, Written)
    requires LegalWrite(env.c, s.slots[i], Result(env, r.data, f).value, Written)
    requires
      var data := Result(env, r.data, g);
      data.Some? ==> Landed(env.c.f.bs, data.value, outcome) <= BlocksFor(env.c.f.bs, data.value)
    ensures Legal(env, s, Commit(t, f, Written)) && s1 == Step(env, s, Commit(t, f, Written))
    ensures Legal(env, s1, Commit(u, g, outcome)) && s2 == Step(env, s1, Commit(u, g, outcome))
    ensures Wins(env, s, t, f, Written) && !Wins(env, s1, u, g, outcome)
    ensures |s2.slots| == |s.slots| && s2.slots[i].mem.Some?
    ensures s2.slots[i].Current() == Record(r.revision + 1, Result(env, r.data, f).value)
    ensures s2.dir == s.dir && s2.calls == s.calls - {t} - {u}
  {
    s1 := Winner(env, s, id, i, r, t, f);
    s2 := Loser(env, s1, u, g, outcome);
  }

  lemma Winner(env: Env, s: Sys, id: string, i: nat, r: Record, t: nat, f: Function) returns (s': Sys)
    requires env.c.f.Valid() && s.Valid() && i < |s.slots|
    requires t in s.calls && s.calls[t] == Fetched(id, i, r.data, r.revision)
    requires s.slots[i].mem.Some? && s.slots[i].Current() == r && r.revision + 1 < TWO32
    requires GoesThrough(env, s, s.calls[t], f, Written)
    requires LegalWrite(env.c, s.slots[i], Result(env, r.data, f).value, Written)
    ensures Legal(env, s, Commit(t, f, Written)) && s' == Step(env, s, Commit(t, f, Written))
    ensures Wins(env, s, t, f, Written) && s'.Valid() && |s'.slots| == |s.slots| && s'.slots[i].mem.Some?
    ensures s'.slots[i].Current() == Record(r.revision + 1, Result(env, r.data, f).value)
    ensures s'.dir == s.dir && s'.calls == s.calls - {t}
  {
    ResultMeans(env, r.data, f);
    CommitActs(env, s, t, f, Written);
    CommitValid(env, s, t, f, Written);
    NextIs(r.revision);
    s' := CommittedBy(env, s, t, f, Written);
  }

  lemma CommitValid(env: Env, s: Sys, t: nat, f: Function, outcome: Outcome)
    requires WellFormed(env, s, Commit(t, f, outcome))
    ensures CommittedBy(env, s, t, f, outcome).Valid()
  {
  }

  lemma NextIs(revision: nat)
    requires revision + 1 < TWO32
    ensures (revision + 1) % 0x1_0000_0000 == revision + 1
  {
  }

  /** With an outdated token nothing is written. */
  lemma Loser(env: Env, s: Sys, u: nat, g: Function, outcome: Outcome) returns (s': Sys)
    requires env.c.f.Valid() && s.Valid() && u in s.calls && s.calls[u].Fetched?
    requires s.calls[u].token != s.slots[s.calls[u].slot].Current().revision
    requires
      var data := Result(env, s.calls[u].base, g);
      data.Some? ==> Landed(env.c.f.bs, data.value, outcome) <= BlocksFor(env.c.f.bs, data.value)
    ensures Legal(env, s, Commit(u, g, outcome)) && s' == Step(env, s, Commit(u, g, outcome))
    ensures !Wins(env, s, u, g, outcome) && s' == s.(calls := s.calls - {u})
  {
    var p := s.calls[u];
    ResultMeans(env, p.base, g);
    s' := CommittedBy(env, s, u, g, outcome);
    assert s.slots[p.slot := s.slots[p.slot]] == s.slots;
  }

  /** The second half. */
  lemma BothCommit(env: Env, s: Sys, id: string, i: nat, r: Record, t: nat, u: nat, f: Function, g: Function,
                   outcome: Outcome) returns (s2: Sys, s3: Sys)
    requires env.c.f.Valid() && s.Valid() && t != u && i < |s.slots|
    requires t in s.calls && s.calls[t] == Fetched(id, i, r.data, r.revision)
    requires u in s.calls && s.calls[u] == Located(id, i)
    requires s.slots[i].mem.Some? && s.slots[i].Current() == r && r.revision + 1 < TWO32
    requires GoesThrough(env, s, s.calls[t], f, Written)
    requires LegalWrite(env.c, s.slots[i], Result(env, r.data, f).value, Written)
    requires
      var data := Result(env, r.data, g);
      data.Some? ==> Landed(env.c.f.bs, data.value, outcome) <= BlocksFor(env.c.f.bs, data.value)
    ensures
      var events := [Fetch(u), Commit(t, f, Written), Commit(u, g, outcome)];
      LegalRun(env, s, events) && Run(env, s, events) == s3
    ensures Legal(env, s, Fetch(u)) && u in FetchedBy(env, s, u).calls
    ensures FetchedBy(env, s, u).calls[u] == Fetched(id, i, r.data, r.revision)
    ensures Wins(env, FetchedBy(env, s, u), t, f, Written) && !Wins(env, s2, u, g, outcome)
    ensures s2 == CommittedBy(env, FetchedBy(env, s, u), t, f, Written)
    ensures |s3.slots| == |s.slots| && s3.slots[i].mem.Some?
    ensures s3.slots[i].Current() == Record(r.revision + 1, Result(env, r.data, f).value)
    ensures s3.dir == s.dir && s3.calls == s.calls - {t} - {u}
  {
    FetchActs(env, s, u);
    var s1 := FetchedBy(env, s, u);
    assert s1.slots == s.slots;
    s2, s3 := FirstWins(env, s1, id, i, r, t, u, f, g, outcome);
    D.RunOfThree(env, s, Fetch(u), s1, Commit(t, f, Written), s2, Commit(u, g, outcome));
    assert s1.calls - {t} - {u} == s.calls - {t} - {u};
  }

  /**
   In every state in which a log is known, and whatever other calls are pending: two calls
   that fetch the same token can both commit, exactly one of the commits goes through, and
   the slot holds its result.
   */
  lemma ExactlyOneCommits(env: Env, s: Sys, id: string, i: nat, r: Record, t: nat, u: nat, f: Function, g: Function,
                          outcome: Outcome)
    requires Contended(env, s, id, i, r, t, u) && r.revision + 1 < TWO32
    requires
      var open, data := Open(env.c.f, s.slots[i]), Result(env, r.data, f);
      && data.Some? && 3 * (48 + |data.value|) <= |open.disk| * env.c.f.bs
      && LegalWrite(env.c, open, data.value, Written)
    requires
      var data := Result(env, r.data, g);
      data.Some? ==> Landed(env.c.f.bs, data.value, outcome) <= BlocksFor(env.c.f.bs, data.value)
    ensures LegalRun(env, s, TwoCalls(id, t, u, f, g, outcome))
    ensures
      var end := Run(env, s, TwoCalls(id, t, u, f, g, outcome));
      && |end.slots| == |s.slots| && end.slots[i].mem.Some?
      && end.slots[i].Current() == Record(r.revision + 1, Result(env, r.data, f).value)
      && end.dir == s.dir && end.calls == s.calls
  {
    var s3 := BothLocated(env, s, id, i, r, t, u);
    CallsSet(s.calls, t, u, Located(id, i), Fetched(id, i, r.data, r.revision));
    var s5, s6 := BothCommit(env, s3, id, i, r, t, u, f, g, outcome);
    D.ConcatRuns(env, s, [Locate(t, id, Written), Locate(u, id, Written), Fetch(t)],
                 [Fetch(u), Commit(t, f, Written), Commit(u, g, outcome)]);
  }

  lemma CallsSet(calls: map<nat, Phase>, t: nat, u: nat, p: Phase, q: Phase)
    requires t != u && t !in calls && u !in calls
    ensures
      var calls' := calls[t := p][u := p][t := q];
      t in calls' && u in calls' && calls'[t] == q && calls'[u] == p && calls' - {t} - {u} == calls
  {
  }

  // ---------------------------------------------------------------------
  // From a zeroed partition

  lemma TokenCurrent(env: Env, s: Sys, b: Book)
    requires SysInv(env, s, b) && s.dir.Some?
    ensures s.Valid() && s.dir.value.token == s.slots[0].Current().revision
  {
  }

  /** A log is added to an empty directory in a fresh slot 0. */
  lemma AddFirst(env: Env, s: Sys, zero: nat, one: nat, a: string) returns (s': Sys)
    requires env.c.f.Valid() && s.Valid() && |s.slots| >= 2 && zero * env.c.f.bs < TWO32 && one * env.c.f.bs < TWO32
    requires Collisions.ToldApart(env.c) && D.Writable(env.c, zero, env.codec.encode(map[a := 1]))
    requires s.slots[0] == D.FreshSlot(env.c.f, zero) && s.slots[1] == D.FreshSlot(env.c.f, one).(mem := None)
    requires s.calls == map[] && s.dir.Some? && s.dir.value.table.ids == map[] && s.dir.value.token == 0
    requires s.dir.value.table.free != [] && s.dir.value.table.free[0] == 1
    ensures Legal(env, s, Locate(0, a, Written)) && s' == Step(env, s, Locate(0, a, Written))
    ensures s'.Valid() && |s'.slots| == |s.slots| && s'.slots[1] == s.slots[1]
    ensures s'.dir.Some? && s'.dir.value.table.ids == map[a := 1] && s'.calls == map[0 := Located(a, 1)]
  {
    var none: SlotMap := map[];
    assert none[a := 1] == map[a := 1];
    D.FreshOpens(env.c, one);
    D.FreshWrite(env.c, zero, env.codec.encode(map[a := 1]));
    D.NewLogStored(env, s, none, a, 1, []);
    s' := LocatedAt(env, s, 0, a, Written);
    StoredCall(env, s, a);
  }

  lemma StoredCall(env: Env, s: Sys, a: string)
    requires WellFormed(env, s, Locate(0, a, Written)) && NeedsSlot(s, 0, a) && s.calls == map[]
    requires s.dir.value.table.free[0] == 1 && |s.slots| >= 2 && Stores(env, s, a, Written)
    ensures
      var s' := LocatedAt(env, s, 0, a, Written);
      s'.calls == map[0 := Located(a, 1)] && |s'.slots| == |s.slots| && s'.slots[1] == s.slots[1]
  {
  }

  /** First start, and log `a` gets slot 1. */
  lemma FirstLog(env: Env, lengths: seq<nat>, a: string) returns (s: Sys)
    requires env.c.f.Valid() && env.codec.Valid() && |lengths| >= 2
    requires forall i | 0 <= i < |lengths| :: lengths[i] * env.c.f.bs < TWO32
    requires Collisions.ToldApart(env.c) && D.Writable(env.c, lengths[0], env.codec.encode(map[a := 1]))
    ensures
      var events := [Boot] + [Locate(0, a, Written)];
      LegalRun(env, Blank(env.c.f, lengths), events) && Run(env, Blank(env.c.f, lengths), events) == s
    ensures s.Valid() && |s.slots| == |lengths| && s.slots[1] == D.FreshSlot(env.c.f, lengths[1]).(mem := None)
    ensures s.dir.Some? && s.dir.value.table.ids == map[a := 1] && s.calls == map[0 := Located(a, 1)]
  {
    var s1, b := D.FirstBoot(env, lengths, a, a + ['x']);
    TokenCurrent(env, s1, b);
    s := AddFirst(env, s1, lengths[0], lengths[1], a);
    D.ConsRun(env, s1, Locate(0, a, Written), []);
    D.ConsRun(env, Blank(env.c.f, lengths), Boot, [Locate(0, a, Written)]);
    assert [Locate(0, a, Written)] + [] == [Locate(0, a, Written)];
  }

  /** The contention as one legal run from a zeroed partition. */
  lemma ContentionReached(env: Env, lengths: seq<nat>, a: string, f: Function, g: Function)
    requires env.c.f.Valid() && env.codec.Valid() && |lengths| >= 2
    requires forall i | 0 <= i < |lengths| :: lengths[i] * env.c.f.bs < TWO32
    requires Collisions.ToldApart(env.c) && D.Writable(env.c, lengths[0], env.codec.encode(map[a := 1]))
    requires f([]).Some? && D.Writable(env.c, lengths[1], [1, 82, 65, 87] + f([]).value)
    ensures
      var events := ([Boot] + [Locate(0, a, Written)]) + TwoCalls(a, 1, 2, f, g, Written);
      && LegalRun(env, Blank(env.c.f, lengths), events)
      && var end := Run(env, Blank(env.c.f, lengths), events);
         && |end.slots| == |lengths| && end.slots[1].mem.Some?
         && end.slots[1].Current() == Record(1, [1, 82, 65, 87] + f([]).value)
  {
    var s := FirstLog(env, lengths, a);
    D.FreshOpens(env.c, lengths[1]);
    D.FreshWrite(env.c, lengths[1], [1, 82, 65, 87] + f([]).value);
    AcceptedMeans(env.c.f.bs, lengths[1], [1, 82, 65, 87] + f([]).value);
    assert CheckpointIn(env.codec, []) == Some([]);
    ExactlyOneCommits(env, s, a, 1, NO_RECORD, 1, 2, f, g, Written);
    D.ConcatRuns(env, Blank(env.c.f, lengths), [Boot] + [Locate(0, a, Written)], TwoCalls(a, 1, 2, f, g, Written));
  }
}
