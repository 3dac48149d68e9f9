/**
 Showing that given runs are legal. While every header on the disk is followed by its whole
 record, only hashes of payloads are compared, so payloads that differ in length or in hash
 cannot be mistaken for each other.
 */
module Collisions {
  import opened Blocks
  import opened Entries
  import opened JournalModel
  import opened Headers
  import opened Runs

  /** Payloads that differ do so in length or in hash. */
  ghost predicate ToldApart(c: Setting) {
    && (forall d | d in c.payloads :: |d| < TWO64)
    && (forall d, d' | d in c.payloads && d' in c.payloads ::
          |d| == |d'| && c.f.hash(d) == c.f.hash(d') ==> d == d')
  }

  /** Every header on the disk is followed by the whole record of a payload. */
  ghost predicate Whole(c: Setting, disk: seq<Block>) {
    forall p | 0 <= p < |disk| && IsHeader(disk[p]) :: WholeAt(c, disk, p)
  }

  ghost predicate WholeAt(c: Setting, disk: seq<Block>, p: nat)
    requires p < |disk|
  {
    ParseAt(c.f, disk, p).Some? && ParseAt(c.f, disk, p).value.data in c.payloads
  }

  /** Entries that start before block `at` end there or before. */
  ghost predicate ClearBefore(f: Format, disk: seq<Block>, at: nat)
    requires f.bs > 0 && at <= |disk|
  {
    forall p | 0 <= p < at && ParseAt(f, disk, p).Some? :: p + BlocksFor(f.bs, ParseAt(f, disk, p).value.data) <= at
  }

  lemma WholeDistinguishes(c: Setting, disk: seq<Block>, p: nat, d: Bytes)
    requires c.f.Valid() && Uniform(c.f.bs, disk) && ToldApart(c)
    requires p < |disk| && WholeAt(c, disk, p) && d in c.payloads
    ensures Distinguishes(c.f, disk, p, d)
  {
    var s := Flat(disk[p..]);
    FirstBlock(c.f.bs, disk, p);
    UnmarshalThenMarshal(c.f.hash, s);
    assert s[8..16] == disk[p][8..16] && s[16..48] == disk[p][16..48];
    Widths();
    FromToBE(|d|, 8);
  }

  lemma WholeNoCollision(c: Setting, disk: seq<Block>)
    requires c.f.Valid() && Uniform(c.f.bs, disk) && ToldApart(c) && Whole(c, disk)
    ensures NoCollision(c, disk)
  {
    forall p, d | 0 <= p < |disk| && d in c.payloads
      ensures Distinguishes(c.f, disk, p, d)
    {
      if IsHeader(disk[p]) {
        WholeDistinguishes(c, disk, p, d);
      }
    }
  }

  /** A whole record written clear of the entries before it. */
  lemma WholeWrite(c: Setting, disk: seq<Block>, at: nat, r: Record)
    requires Sound(c, disk) && Whole(c, disk)
    requires Permitted(c, |disk|, r) && at + BlocksFor(c.f.bs, r.data) <= |disk| && ClearBefore(c.f, disk, at)
    ensures
      var k := BlocksFor(c.f.bs, r.data);
      var disk' := AfterWrite(c.f, disk, at, r, k);
      && Whole(c, disk') && ParseAt(c.f, disk', at) == Some(r)
      && forall p | 0 <= p < |disk'| && p != at && IsHeader(disk'[p]) :: IsHeader(disk[p]) && !(at <= p < at + k)
  {
    var k := BlocksFor(c.f.bs, r.data);
    var disk' := AfterWrite(c.f, disk, at, r, k);
    PermittedSize(c, |disk|, r);
    assert disk'[at..at + k] == Image(c.f, r);
    WholeIsFound(c.f, disk', at, r);
    WriteProvenance(c, disk, at, r, k);
    forall p | 0 <= p < |disk'| && IsHeader(disk'[p])
      ensures WholeAt(c, disk', p)
    {
      if p != at {
        StillWhole(c, disk, at, r, k, p);
      }
    }
  }

  /** Entries outside the blocks written are still there. */
  lemma StillWhole(c: Setting, disk: seq<Block>, at: nat, r: Record, n: nat, p: nat)
    requires Sound(c, disk) && n <= BlocksFor(c.f.bs, r.data) && at + n <= |disk| && ClearBefore(c.f, disk, at)
    requires (p < at || at + n <= p) && p < |disk| && WholeAt(c, disk, p)
    ensures WholeAt(c, AfterWrite(c.f, disk, at, r, n), p)
  {
    if p < at {
      EntrySurvives(c, disk, at, r, n, p);
    } else {
      SameBehind(c.f, disk, at, r, n, p);
    }
  }

  lemma SameBehind(f: Format, disk: seq<Block>, at: nat, r: Record, n: nat, p: nat)
    requires f.Valid() && n <= BlocksFor(f.bs, r.data) && at + n <= p < |disk|
    ensures ParseAt(f, AfterWrite(f, disk, at, r, n), p) == ParseAt(f, disk, p)
  {
    assert AfterWrite(f, disk, at, r, n)[p..] == disk[p..];
  }

  /** An update that lands whole is legal, and leaves whole records again. */
  lemma PutWhole(c: Setting, s: State, data: Bytes, outcome: Outcome, at: nat) returns (r: Record)
    requires Sound(c, s.disk) && s.Valid() && Whole(c, s.disk) && ToldApart(c)
    requires data in c.payloads && Plain(c.f.bs, data) && Accepted(c.f.bs, |s.disk|, data)
    requires s.mem.current.revision + 1 < TWO32
    requires Landed(c.f.bs, data, outcome) == BlocksFor(c.f.bs, data)
    requires at == Target(c.f.bs, |s.disk|, s.mem.next, data) && at <= |s.disk| && ClearBefore(c.f, s.disk, at)
    ensures Legal(c, s, Put(data, outcome))
    ensures
      var s', k := Update(c.f, s, data, outcome), BlocksFor(c.f.bs, data);
      && Sound(c, s'.disk) && Whole(c, s'.disk)
      && r == Record(s.mem.current.revision + 1, data)
      && at + k <= |s.disk|
      && s'.disk == AfterWrite(c.f, s.disk, at, r, k)
      && s'.mem == (if outcome.Written? then Memory(r, at + k) else s.mem.(next := at))
      && ParseAt(c.f, s'.disk, at) == Some(r)
      && forall p | 0 <= p < |s.disk| && p != at && IsHeader(s'.disk[p]) ::
           IsHeader(s.disk[p]) && !(at <= p < at + k)
  {
    r := Record(s.mem.current.revision + 1, data);
    UpdateIs(c.f, s, data, outcome);
    WholeWrite(c, s.disk, at, r);
    var disk' := AfterWrite(c.f, s.disk, at, r, BlocksFor(c.f.bs, data));
    WholeNoCollision(c, disk');
    WriteOverlays(c, s.disk, at, r, BlocksFor(c.f.bs, data));
  }

  /** Where there is no header there is no entry. */
  lemma NoHeadersNoEntries(f: Format, disk: seq<Block>, from: nat)
    requires f.Valid() && Uniform(f.bs, disk)
    requires forall p | from <= p < |disk| :: !IsHeader(disk[p])
    ensures forall p | from <= p < |disk| :: ViewOf(f, disk)[p] == None && ParseAt(f, disk, p) == None
  {
    forall p | from <= p < |disk|
      ensures ViewOf(f, disk)[p] == None && ParseAt(f, disk, p) == None
    {
      NotHeaderNoEntry(f, disk, p);
      ViewAt(f, disk, p);
    }
  }

  /** A legal run with one more event in front. */
  lemma ConsRun(c: Setting, s: State, l: Ledger, e: Event, s': State, events: seq<Event>)
    requires Legal(c, s, e) && Step(c.f, s, e) == Some(s')
    requires WellFormedRun(c.f, events) && LegalRun(c, s', events)
    ensures WellFormedRun(c.f, [e] + events) && LegalRun(c, s, [e] + events)
    ensures Run(c.f, s, [e] + events) == Run(c.f, s', events)
    ensures TrackAll(c.f, s, l, [e] + events) == TrackAll(c.f, s', Track(c.f, s, l, e), events)
  {
    assert ([e] + events)[1..] == events;
  }
}
