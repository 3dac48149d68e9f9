/**
 Whole runs of one journal: updates that succeed, updates that fail with any number of
 blocks written, retries, and restarts that reopen the journal from its blocks.
 */
module Runs {
  import opened Blocks
  import opened Entries
  import opened JournalModel
  import opened CrashSafety
  import opened Headers

  datatype Event = Put(data: Bytes, outcome: Outcome) | Restart

  /** What a client may rely on: the last committed record and the attempts made since. */
  datatype Ledger = Ledger(committed: Record, pending: set<Bytes>)

  predicate Accepted(bs: nat, length: nat, data: Bytes) {
    |data| <= MaxData(bs, length)
  }

  ghost predicate WellFormed(f: Format, e: Event) {
    f.Valid() && (e.Put? ==> Landed(f.bs, e.data, e.outcome) <= BlocksFor(f.bs, e.data))
  }

  ghost predicate WellFormedRun(f: Format, events: seq<Event>) {
    forall i | 0 <= i < |events| :: WellFormed(f, events[i])
  }

  /** The state after an event; none if reopening reports corruption. */
  function Step(f: Format, s: State, e: Event): (r: Option<State>)
    requires WellFormed(f, e) && s.Valid()
    ensures r.Some? ==> r.value.Valid() && |r.value.disk| == |s.disk|
  {
    match e
    case Put(data, outcome) => Some(Update(f, s, data, outcome))
    case Restart =>
      match Scan(f.bs, ViewOf(f, s.disk))
      case Opened(mem) => Some(State(s.disk, mem))
      case Corrupt(_) => None
  }

  function Track(f: Format, s: State, l: Ledger, e: Event): Ledger
    requires f.bs > 0
  {
    match e
    case Put(data, outcome) =>
      if !Accepted(f.bs, |s.disk|, data) then l
      else if outcome.Written? then Ledger(Record(l.committed.revision + 1, data), {})
      else l.(pending := l.pending + {data})
    case Restart =>
      match Scan(f.bs, ViewOf(f, s.disk))
      case Opened(mem) => Ledger(mem.current, {})
      case Corrupt(_) => l
  }

  /**
   An accepted payload is one of the setting's and cannot be taken for a header, the
   revision counter does not wrap, and the blocks written make no hash collide.
   */
  ghost predicate Legal(c: Setting, s: State, e: Event) {
    && WellFormed(c.f, e)
    && s.Valid()
    && (e.Put? && Accepted(c.f.bs, |s.disk|, e.data) ==>
          && e.data in c.payloads
          && Plain(c.f.bs, e.data)
          && s.mem.current.revision + 1 < TWO32
          && NoCollision(c, Update(c.f, s, e.data, e.outcome).disk))
  }

  /** The device reports an error although every block was written. */
  predicate LateError(bs: nat, e: Event)
    requires bs > 0
  {
    e.Put? && e.outcome.Failed? && e.outcome.landed == BlocksFor(bs, e.data)
  }

  /**
   A late error for a record so long that its last block may be the current record's
   first: it takes the most blocks permitted, and length % 3 == 1.
   */
  predicate MayOverlap(bs: nat, length: nat, e: Event)
    requires bs > 0
  {
    length % 3 == 1 && LateError(bs, e) && BlocksFor(bs, e.data) == MaxBlocks(bs, length)
  }

  ghost predicate NoOverlap(bs: nat, length: nat, events: seq<Event>)
    requires bs > 0
  {
    forall i | 0 <= i < |events| :: !MayOverlap(bs, length, events[i])
  }

  // ---------------------------------------------------------------------
  // One step

  ghost predicate Good(c: Setting, s: State, l: Ledger, first: nat, pos: nat) {
    && Sound(c, s.disk)
    && s.Valid()
    && s.mem.current == l.committed
    && Inv(c.f.bs, ViewOf(c.f, s.disk), s.mem, l.pending, first, pos)
  }

  /** Next write right after the current record, or at the start if that ends the journal. */
  ghost predicate Snug(bs: nat, s: State, pos: nat)
    requires bs > 0
  {
    s.mem.current.revision > 0 ==>
      var end := pos + BlocksFor(bs, s.mem.current.data);
      s.mem.next == end || (s.mem.next == 0 && end == |s.disk|)
  }

  // ---------------------------------------------------------------------
  // What an update may overwrite

  /**
   Where the next update goes, relative to the current record, which was written or found
   at `pos` and may have been damaged since: right after it, or to the start because there
   is no room.
   */
  ghost predicate Placed(c: Setting, s: State, pos: nat) {
    && Sound(c, s.disk)
    && s.Valid()
    && (s.mem.current.revision > 0 ==>
          var k, max := BlocksFor(c.f.bs, s.mem.current.data), MaxBlocks(c.f.bs, |s.disk|);
          && k <= max && pos + k <= |s.disk|
          && (s.mem.next == pos + k || (s.mem.next == 0 && |s.disk| < pos + k + max)))
  }

  /**
   The blocks an update with `data` would write are disjoint from those of the record at
   `pos`, or the record is as long as permitted, length % 3 == 1, and its last block is the
   current record's first.
   */
  ghost predicate OverlapsAtMostOne(f: Format, s: State, data: Bytes, pos: nat)
    requires f.bs > 0 && s.Valid()
  {
    var at, k := Target(f.bs, |s.disk|, s.mem.next, data), BlocksFor(f.bs, data);
    && at + k <= |s.disk|
    && pos + BlocksFor(f.bs, s.mem.current.data) <= |s.disk|
    && (|| at + k <= pos
        || pos + BlocksFor(f.bs, s.mem.current.data) <= at
        || (|s.disk| % 3 == 1 && k == MaxBlocks(f.bs, |s.disk|) && at == 0 && k == pos + 1))
  }

  lemma UpdateOverlap(c: Setting, s: State, pos: nat, data: Bytes)
    requires Placed(c, s, pos) && Accepted(c.f.bs, |s.disk|, data) && s.mem.current.revision > 0
    ensures OverlapsAtMostOne(c.f, s, data, pos)
  {
    TargetFits(c.f.bs, |s.disk|, s.mem.next, data);
    Wraps(c.f.bs, |s.disk|, s.mem.next, data);
    var end := pos + BlocksFor(c.f.bs, s.mem.current.data);
    if Target(c.f.bs, |s.disk|, s.mem.next, data) == 0 {
      WrapClearance(c.f.bs, |s.disk|, pos, end);
    }
  }

  lemma GoodPlaced(c: Setting, s: State, l: Ledger, first: nat, pos: nat)
    requires Good(c, s, l, first, pos)
    ensures Placed(c, s, pos)
  {
    var v := ViewOf(c.f, s.disk);
    assert s.mem.current.revision > 0 ==> Intact(c.f.bs, v, pos);
  }

  /** Where a scan has found the entry it ends with; `at` is where the one before was. */
  ghost function AdoptedAt(bs: nat, v: View, lba: nat, last: Record, at: nat): nat
    requires bs > 0
    decreases |v| - lba
  {
    if lba >= |v| then at
    else match v[lba]
      case None => if last.revision > 0 then at else AdoptedAt(bs, v, lba + 1, last, at)
      case Some(e) =>
        if e.revision > last.revision then AdoptedAt(bs, v, lba + BlocksFor(bs, e.data), e, lba) else at
  }

  /** On any view, a scan that finds an entry sends the next write right after it. */
  lemma {:induction false} ScanAdopts(bs: nat, v: View, lba: nat, last: Record, next: nat, at: nat)
    requires bs > 0
    requires last.revision > 0 ==> at < |v| && v[at] == Some(last) && next == lba == End(bs, v, at)
    ensures
      var r, q := ScanFrom(bs, v, lba, last, next), AdoptedAt(bs, v, lba, last, at);
      r.Opened? && r.mem.current.revision > 0 ==> q < |v| && Adopted(bs, v, r.mem, q)
    decreases |v| - lba
  {
    if lba < |v| {
      match v[lba]
      case None =>
        if last.revision == 0 {
          ScanAdopts(bs, v, lba + 1, last, next, at);
        }
      case Some(e) =>
        if e.revision > last.revision {
          var end := lba + BlocksFor(bs, e.data);
          ScanAdopts(bs, v, end, e, end, lba);
        }
    }
  }

  /** Where the current record was written or found, once the event has happened. */
  ghost function Place(f: Format, s: State, e: Event, pos: nat): nat
    requires WellFormed(f, e) && s.Valid()
  {
    match e
    case Put(data, outcome) =>
      if Accepted(f.bs, |s.disk|, data) && outcome.Written? then Target(f.bs, |s.disk|, s.mem.next, data) else pos
    case Restart => AdoptedAt(f.bs, ViewOf(f, s.disk), 0, NO_RECORD, pos)
  }

  lemma RestartPlaced(c: Setting, s: State, mem: Memory, pos: nat)
    requires Placed(c, s, pos) && Scan(c.f.bs, ViewOf(c.f, s.disk)) == Opened(mem)
    ensures Placed(c, State(s.disk, mem), Place(c.f, s, Restart, pos))
  {
    var v := ViewOf(c.f, s.disk);
    ScanAdopts(c.f.bs, v, 0, NO_RECORD, 0, pos);
    SoundClean(c, s.disk);
    var q := Place(c.f, s, Restart, pos);
    assert mem.current.revision > 0 ==> Intact(c.f.bs, v, q);
  }

  lemma PutPlaced(c: Setting, s: State, data: Bytes, outcome: Outcome, pos: nat)
    requires Placed(c, s, pos) && Legal(c, s, Put(data, outcome))
    ensures Placed(c, Update(c.f, s, data, outcome), Place(c.f, s, Put(data, outcome), pos))
  {
    if Accepted(c.f.bs, |s.disk|, data) {
      var r, at, n := PutWrites(c, s, data, outcome);
      TargetFits(c.f.bs, |s.disk|, s.mem.next, data);
      Wraps(c.f.bs, |s.disk|, s.mem.next, data);
    }
  }

  /** A record that goes elsewhere does so because there is no room for it. */
  lemma Wraps(bs: nat, length: nat, next: nat, data: Bytes)
    requires bs > 0 && next <= length
    ensures
      var at := Target(bs, length, next, data);
      at == next || (at == 0 && length < next + BlocksFor(bs, data))
  {
    NoRoom(bs, length - next, data);
  }

  // ---------------------------------------------------------------------
  // Every step keeps the invariant

  lemma StepKeeps(c: Setting, s: State, l: Ledger, e: Event, first: nat, pos: nat)
    returns (s': State, first': nat, pos': nat)
    requires Good(c, s, l, first, pos) && Legal(c, s, e)
    requires !MayOverlap(c.f.bs, |s.disk|, e)
    ensures Step(c.f, s, e) == Some(s')
    ensures pos' == Place(c.f, s, e, pos)
    ensures Good(c, s', Track(c.f, s, l, e), first', pos')
    ensures Snug(c.f.bs, s, pos) && !(e.Put? && e.outcome.Failed?) ==> Snug(c.f.bs, s', pos')
  {
    match e
    case Restart =>
      s', first', pos' := RestartKeeps(c, s, l, first, pos);
    case Put(data, outcome) =>
      if !Accepted(c.f.bs, |s.disk|, data) {
        s', first', pos' := s, first, pos;
      } else {
        s' := Update(c.f, s, data, outcome);
        first', pos' := PutKeeps(c, s, l, data, outcome, first, pos);
      }
  }

  lemma RestartKeeps(c: Setting, s: State, l: Ledger, first: nat, pos: nat)
    returns (s': State, first': nat, pos': nat)
    requires Good(c, s, l, first, pos)
    ensures Step(c.f, s, Restart) == Some(s') && pos' == Place(c.f, s, Restart, pos)
    ensures Good(c, s', Track(c.f, s, l, Restart), first', pos') && Snug(c.f.bs, s', pos')
  {
    var v := ViewOf(c.f, s.disk);
    var mem', p, q := Reopen(c.f.bs, v, s.mem, l.pending, first, pos);
    s', first', pos' := State(s.disk, mem'), p, Place(c.f, s, Restart, pos);
    ScanAdopts(c.f.bs, v, 0, NO_RECORD, 0, pos);
    if mem'.current.revision > 0 {
      assert Intact(c.f.bs, v, q) && Intact(c.f.bs, v, pos');
      assert pos' == q;
    }
  }

  lemma PutKeeps(c: Setting, s: State, l: Ledger, data: Bytes, outcome: Outcome, first: nat, pos: nat)
    returns (first': nat, pos': nat)
    requires Good(c, s, l, first, pos) && Legal(c, s, Put(data, outcome))
    requires Accepted(c.f.bs, |s.disk|, data)
    requires !MayOverlap(c.f.bs, |s.disk|, Put(data, outcome))
    ensures
      var e := Put(data, outcome);
      var s' := Update(c.f, s, data, outcome);
      && pos' == Place(c.f, s, e, pos)
      && Good(c, s', Track(c.f, s, l, e), first', pos')
      && (outcome.Written? ==> Snug(c.f.bs, s', pos'))
  {
    if outcome.Written? {
      first', pos' := PutCommits(c, s, l, data, first, pos);
    } else {
      first' := PutTears(c, s, l, data, outcome.landed, first, pos);
      pos' := pos;
    }
  }

  lemma PutCommits(c: Setting, s: State, l: Ledger, data: Bytes, first: nat, pos: nat)
    returns (first': nat, pos': nat)
    requires Good(c, s, l, first, pos) && Legal(c, s, Put(data, Written))
    requires Accepted(c.f.bs, |s.disk|, data)
    ensures
      var s' := Update(c.f, s, data, Written);
      && pos' == Target(c.f.bs, |s.disk|, s.mem.next, data)
      && Good(c, s', Ledger(s'.mem.current, {}), first', pos') && Snug(c.f.bs, s', pos')
      && s'.mem.current == Record(s.mem.current.revision + 1, data)
  {
    var s' := Update(c.f, s, data, Written);
    var r, at, n := PutWrites(c, s, data, Written);
    var v, w := ViewOf(c.f, s.disk), ViewOf(c.f, s'.disk);
    first' := Committed(c.f.bs, v, w, s.mem, l.pending, first, pos, data, r, at);
    pos' := at;
  }

  lemma PutTears(c: Setting, s: State, l: Ledger, data: Bytes, landed: nat, first: nat, pos: nat)
    returns (first': nat)
    requires Good(c, s, l, first, pos) && Legal(c, s, Put(data, Failed(landed)))
    requires Accepted(c.f.bs, |s.disk|, data)
    requires !MayOverlap(c.f.bs, |s.disk|, Put(data, Failed(landed)))
    ensures Good(c, Update(c.f, s, data, Failed(landed)), l.(pending := l.pending + {data}), first', pos)
  {
    var s' := Update(c.f, s, data, Failed(landed));
    var r, at, n := PutWrites(c, s, data, Failed(landed));
    assert Spares(c.f.bs, s.mem, pos, at, n) by {
      if s.mem.current.revision > 0 {
        GoodPlaced(c, s, l, first, pos);
        UpdateOverlap(c, s, pos, data);
      }
    }
    var v, w := ViewOf(c.f, s.disk), ViewOf(c.f, s'.disk);
    first' := Torn(c.f.bs, v, w, s.mem, l.pending, first, pos, data, r, at, n);
  }

  /** The effect of an accepted update on the view. */
  lemma PutWrites(c: Setting, s: State, data: Bytes, outcome: Outcome)
    returns (r: Record, at: nat, n: nat)
    requires Sound(c, s.disk) && Legal(c, s, Put(data, outcome))
    requires Accepted(c.f.bs, |s.disk|, data)
    ensures
      var s' := Update(c.f, s, data, outcome);
      var v, w := ViewOf(c.f, s.disk), ViewOf(c.f, s'.disk);
      && Sound(c, s'.disk) && Clean(c.f.bs, w)
      && Writes(c.f.bs, v, s.mem, data, r, at)
      && at + BlocksFor(c.f.bs, data) <= |s.disk|
      && n == Landed(c.f.bs, data, outcome)
      && s'.mem == (if outcome.Written? then Memory(r, at + n) else s.mem.(next := at))
      && Overlaid(c.f.bs, v, w, at, r, n)
  {
    r := Record(s.mem.current.revision + 1, data);
    at := Target(c.f.bs, |s.disk|, s.mem.next, data);
    n := Landed(c.f.bs, data, outcome);
    UpdateIs(c.f, s, data, outcome);
    WriteOverlays(c, s.disk, at, r, n);
    SoundClean(c, AfterWrite(c.f, s.disk, at, r, n));
  }

  // ---------------------------------------------------------------------
  // Runs

  ghost function Run(f: Format, s: State, events: seq<Event>): (r: Option<State>)
    requires WellFormedRun(f, events)
    requires s.Valid()
    ensures r.Some? ==> r.value.Valid() && |r.value.disk| == |s.disk|
    decreases |events|
  {
    if events == [] then Some(s)
    else
      match Step(f, s, events[0])
      case None => None
      case Some(s') => Run(f, s', events[1..])
  }

  ghost function TrackAll(f: Format, s: State, l: Ledger, events: seq<Event>): Ledger
    requires WellFormedRun(f, events)
    requires s.Valid() && f.bs > 0
    decreases |events|
  {
    if events == [] then l
    else
      match Step(f, s, events[0])
      case None => l
      case Some(s') => TrackAll(f, s', Track(f, s, l, events[0]), events[1..])
  }

  ghost predicate LegalRun(c: Setting, s: State, events: seq<Event>)
    decreases |events|
  {
    events != [] ==>
      && Legal(c, s, events[0])
      && WellFormedRun(c.f, events)
      && match Step(c.f, s, events[0])
         case None => true
         case Some(s') => LegalRun(c, s', events[1..])
  }

  /** A zeroed journal of `length` blocks, opened for the first time. */
  function Fresh(f: Format, length: nat): State {
    State(seq(length, _ => Zeros(f.bs)), Memory(NO_RECORD, 0))
  }

  const EMPTY := Ledger(NO_RECORD, {})

  /**
   After the run the journal can be reopened, and it yields the last committed record or
   one attempted since, of maximal revision among the valid entries on the disk. The
   live journal still has the committed record.
   */
  ghost predicate Atomic(f: Format, s: State, l: Ledger, events: seq<Event>)
    requires WellFormedRun(f, events)
    requires s.Valid() && f.bs > 0
  {
    var end := Run(f, s, events);
    var l' := TrackAll(f, s, l, events);
    && end.Some?
    && end.value.mem.current == l'.committed
    && var v := ViewOf(f, end.value.disk);
       var found := Scan(f.bs, v);
       && found.Opened?
       && CurrentOrPending(l'.committed, l'.pending, found.mem.current)
       && Bounded(v, found.mem.current.revision)
       && (found.mem.current.revision > 0 ==> Some(found.mem.current) in v)
  }

  lemma AtomicStep(f: Format, s: State, l: Ledger, events: seq<Event>, s': State)
    requires WellFormedRun(f, events)
    requires s.Valid() && f.bs > 0 && events != []
    requires Step(f, s, events[0]) == Some(s')
    requires Atomic(f, s', Track(f, s, l, events[0]), events[1..])
    ensures Atomic(f, s, l, events)
  {
    assert Run(f, s, events) == Run(f, s', events[1..]);
    assert TrackAll(f, s, l, events) == TrackAll(f, s', Track(f, s, l, events[0]), events[1..]);
  }

  /** A zeroed disk is sound and holds no entries. */
  lemma FreshBlank(c: Setting, length: nat)
    requires c.f.Valid() && length * c.f.bs < TWO32
    ensures
      var disk := Fresh(c.f, length).disk;
      Sound(c, disk) && forall p | 0 <= p < length :: !IsHeader(disk[p]) && ViewOf(c.f, disk)[p] == None
  {
    var disk := Fresh(c.f, length).disk;
    forall p | 0 <= p < length
      ensures !IsHeader(disk[p]) && ViewOf(c.f, disk)[p] == None
    {
      assert disk[p][..4][0] == 0;
      NotHeaderNoEntry(c.f, disk, p);
      ViewAt(c.f, disk, p);
    }
  }

  lemma FreshGood(c: Setting, length: nat)
    requires c.f.Valid() && length * c.f.bs < TWO32
    ensures Good(c, Fresh(c.f, length), EMPTY, 0, 0) && Safe(c, Fresh(c.f, length), EMPTY, 0, 0)
  {
    FreshBlank(c, length);
  }

  // ---------------------------------------------------------------------
  // A journal of a single block: every write replaces the one record there

  ghost predicate GoodOne(c: Setting, s: State, l: Ledger) {
    && Sound(c, s.disk)
    && s.Valid()
    && |s.disk| == 1
    && s.mem.current == l.committed
    && (s.mem.current.revision == 0 ==> s.mem == Memory(NO_RECORD, 0))
    && match ViewOf(c.f, s.disk)[0]
       case None => s.mem.current.revision == 0
       case Some(e) => e.revision > 0 && CurrentOrPending(s.mem.current, l.pending, e)
  }

  lemma ScanOne(bs: nat, v: View)
    requires bs > 0 && |v| == 1
    requires v[0].Some? ==> v[0].value.revision > 0
    ensures Scan(bs, v) == Opened(Memory(if v[0].Some? then v[0].value else NO_RECORD, 0))
  {
    if v[0].Some? {
      var e, end := v[0].value, End(bs, v, 0);
      assert Scan(bs, v) == ScanFrom(bs, v, end, e, end) == Stop(v, e, end);
    } else {
      ScanGap(bs, v, 0, 1);
    }
  }

  lemma StepKeepsOne(c: Setting, s: State, l: Ledger, e: Event) returns (s': State)
    requires GoodOne(c, s, l) && Legal(c, s, e)
    ensures Step(c.f, s, e) == Some(s')
    ensures GoodOne(c, s', Track(c.f, s, l, e))
  {
    match e
    case Restart =>
      ScanOne(c.f.bs, ViewOf(c.f, s.disk));
      s' := Step(c.f, s, e).value;
    case Put(data, outcome) =>
      s' := Update(c.f, s, data, outcome);
      if Accepted(c.f.bs, 1, data) {
        PutKeepsOne(c, s, l, data, outcome);
      }
  }

  lemma PutKeepsOne(c: Setting, s: State, l: Ledger, data: Bytes, outcome: Outcome)
    requires GoodOne(c, s, l) && Legal(c, s, Put(data, outcome))
    requires Accepted(c.f.bs, 1, data)
    ensures GoodOne(c, Update(c.f, s, data, outcome), Track(c.f, s, l, Put(data, outcome)))
  {
    var s' := Update(c.f, s, data, outcome);
    var r, at, n := PutWrites(c, s, data, outcome);
    assert at == 0 && n <= BlocksFor(c.f.bs, data) == 1;
    var w := ViewOf(c.f, s'.disk);
    assert w[0] == if n == 1 then Some(r) else ViewOf(c.f, s.disk)[0];
  }

  // ---------------------------------------------------------------------
  // Crash atomicity

  ghost predicate Safe(c: Setting, s: State, l: Ledger, first: nat, pos: nat) {
    if |s.disk| == 1 then GoodOne(c, s, l) else Good(c, s, l, first, pos)
  }

  lemma StepSafe(c: Setting, s: State, l: Ledger, e: Event, first: nat, pos: nat)
    returns (s': State, first': nat, pos': nat)
    requires Safe(c, s, l, first, pos) && Legal(c, s, e)
    requires |s.disk| == 1 || !MayOverlap(c.f.bs, |s.disk|, e)
    ensures Step(c.f, s, e) == Some(s')
    ensures Safe(c, s', Track(c.f, s, l, e), first', pos')
  {
    if |s.disk| == 1 {
      s' := StepKeepsOne(c, s, l, e);
      first', pos' := 0, 0;
    } else {
      s', first', pos' := StepKeeps(c, s, l, e, first, pos);
    }
  }

  /** Reopening yields the committed record or a pending one, of maximal revision among the valid entries. */
  lemma SafeReopens(c: Setting, s: State, l: Ledger, first: nat, pos: nat)
    requires Safe(c, s, l, first, pos)
    ensures
      var v := ViewOf(c.f, s.disk);
      var found := Scan(c.f.bs, v);
      && found.Opened?
      && CurrentOrPending(l.committed, l.pending, found.mem.current)
      && Bounded(v, found.mem.current.revision)
      && (found.mem.current.revision > 0 ==> Some(found.mem.current) in v)
  {
    var v := ViewOf(c.f, s.disk);
    if |s.disk| == 1 {
      ScanOne(c.f.bs, v);
      assert v[0] in v;
    } else {
      var mem', first', pos' := Reopen(c.f.bs, v, s.mem, l.pending, first, pos);
      assert mem'.current.revision > 0 ==> v[pos'] in v;
    }
  }

  lemma {:induction false} RunKeeps(c: Setting, s: State, l: Ledger, events: seq<Event>, first: nat, pos: nat)
    requires Safe(c, s, l, first, pos) && LegalRun(c, s, events)
    requires WellFormedRun(c.f, events)
    requires |s.disk| == 1 || NoOverlap(c.f.bs, |s.disk|, events)
    ensures Atomic(c.f, s, l, events)
    decreases |events|
  {
    if events == [] {
      SafeReopens(c, s, l, first, pos);
    } else {
      var s', first', pos' := StepSafe(c, s, l, events[0], first, pos);
      RunKeeps(c, s', Track(c.f, s, l, events[0]), events[1..], first', pos');
      AtomicStep(c.f, s, l, events, s');
    }
  }

  /**
   Crash atomicity over whole runs. Errors reported after every block was written are
   harmless unless length % 3 == 1, the journal has more than one block and the record takes
   the most blocks permitted.
   */
  lemma CrashAtomicity(c: Setting, length: nat, events: seq<Event>)
    requires c.f.Valid() && length * c.f.bs < TWO32
    requires WellFormedRun(c.f, events)
    requires LegalRun(c, Fresh(c.f, length), events)
    requires length == 1 || NoOverlap(c.f.bs, length, events)
    ensures Atomic(c.f, Fresh(c.f, length), EMPTY, events)
  {
    FreshGood(c, length);
    RunKeeps(c, Fresh(c.f, length), EMPTY, events, 0, 0);
  }

  // ---------------------------------------------------------------------
  // The overlap bound, whatever errors are reported

  ghost function PlaceAll(f: Format, s: State, pos: nat, events: seq<Event>): nat
    requires WellFormedRun(f, events) && s.Valid()
    decreases |events|
  {
    if events == [] then pos
    else
      match Step(f, s, events[0])
      case None => pos
      case Some(s') => PlaceAll(f, s', Place(f, s, events[0], pos), events[1..])
  }

  lemma {:induction false} RunPlaced(c: Setting, s: State, pos: nat, events: seq<Event>)
    requires Placed(c, s, pos) && LegalRun(c, s, events) && WellFormedRun(c.f, events)
    ensures Run(c.f, s, events).Some? ==> Placed(c, Run(c.f, s, events).value, PlaceAll(c.f, s, pos, events))
    decreases |events|
  {
    if events != [] && Step(c.f, s, events[0]).Some? {
      var s', e := Step(c.f, s, events[0]).value, events[0];
      match e {
        case Restart => RestartPlaced(c, s, s'.mem, pos);
        case Put(data, outcome) => PutPlaced(c, s, data, outcome, pos);
      }
      RunPlaced(c, s', Place(c.f, s, e, pos), events[1..]);
    }
  }

  /** Without overlapping late errors the current record is still to be found at its place. */
  lemma {:induction false} RunFound(c: Setting, s: State, l: Ledger, events: seq<Event>, first: nat, pos: nat)
    requires Good(c, s, l, first, pos) && LegalRun(c, s, events) && WellFormedRun(c.f, events)
    requires NoOverlap(c.f.bs, |s.disk|, events)
    ensures
      var end, at := Run(c.f, s, events), PlaceAll(c.f, s, pos, events);
      && end.Some?
      && (end.value.mem.current.revision > 0 ==>
            at < |end.value.disk| && ParseAt(c.f, end.value.disk, at) == Some(end.value.mem.current))
    decreases |events|
  {
    if events == [] {
      if s.mem.current.revision > 0 {
        ViewAt(c.f, s.disk, pos);
      }
    } else {
      var s', first', pos' := StepKeeps(c, s, l, events[0], first, pos);
      RunFound(c, s', Track(c.f, s, l, events[0]), events[1..], first', pos');
    }
  }

  /**
   In every state of every run, with any errors, failed wrapped writes and late errors
   included, an update overlaps the place of the current record in at most one block; and
   without overlapping late errors that record is still there.
   */
  lemma OverlapBound(c: Setting, length: nat, events: seq<Event>, data: Bytes)
    requires c.f.Valid() && length * c.f.bs < TWO32
    requires WellFormedRun(c.f, events) && LegalRun(c, Fresh(c.f, length), events)
    requires Accepted(c.f.bs, length, data)
    ensures
      var end, pos := Run(c.f, Fresh(c.f, length), events), PlaceAll(c.f, Fresh(c.f, length), 0, events);
      && (end.Some? && end.value.mem.current.revision > 0 ==> OverlapsAtMostOne(c.f, end.value, data, pos))
      && (NoOverlap(c.f.bs, length, events) ==>
            && end.Some?
            && (end.value.mem.current.revision > 0 ==>
                  pos < length && ParseAt(c.f, end.value.disk, pos) == Some(end.value.mem.current)))
  {
    var s := Fresh(c.f, length);
    FreshGood(c, length);
    GoodPlaced(c, s, EMPTY, 0, 0);
    RunPlaced(c, s, 0, events);
    var end := Run(c.f, s, events);
    if end.Some? && end.value.mem.current.revision > 0 {
      UpdateOverlap(c, end.value, PlaceAll(c.f, s, 0, events), data);
    }
    if NoOverlap(c.f.bs, length, events) {
      RunFound(c, s, EMPTY, events, 0, 0);
    }
  }

  // ---------------------------------------------------------------------
  // Without failures, reopening agrees with memory

  predicate NoFailures(events: seq<Event>) {
    forall i | 0 <= i < |events| :: events[i].Put? ==> events[i].outcome.Written?
  }

  /** Reopening gives the live journal's record, and sends every next update to the same block. */
  ghost predicate Agrees(f: Format, s: State)
    requires s.Valid() && f.bs > 0
  {
    var found := Scan(f.bs, ViewOf(f, s.disk));
    && found.Opened?
    && found.mem.current == s.mem.current
    && forall data :: Target(f.bs, |s.disk|, found.mem.next, data) == Target(f.bs, |s.disk|, s.mem.next, data)
  }

  lemma AgreesNow(c: Setting, s: State, l: Ledger, first: nat, pos: nat)
    requires Good(c, s, l, first, pos) && Snug(c.f.bs, s, pos) && l.pending == {}
    ensures Agrees(c.f, s)
  {
    var v := ViewOf(c.f, s.disk);
    var mem', first', pos' := Reopen(c.f.bs, v, s.mem, {}, first, pos);
    forall data
      ensures Target(c.f.bs, |v|, mem'.next, data) == Target(c.f.bs, |v|, s.mem.next, data)
    {
      SameTarget(c.f.bs, |v|, mem'.next, s.mem.next, data);
    }
  }

  /** A full journal and an empty one both send the next record to the start. */
  lemma SameTarget(bs: nat, length: nat, next: nat, next': nat, data: Bytes)
    requires next <= length && next' <= length
    requires next == next' || (next in {0, length} && next' in {0, length})
    ensures Target(bs, length, next, data) == Target(bs, length, next', data)
  {
  }

  lemma {:induction false} RunAgrees(c: Setting, s: State, l: Ledger, events: seq<Event>, first: nat, pos: nat)
    requires Good(c, s, l, first, pos) && Snug(c.f.bs, s, pos) && l.pending == {}
    requires LegalRun(c, s, events) && WellFormedRun(c.f, events) && NoFailures(events)
    ensures Run(c.f, s, events).Some? && Agrees(c.f, Run(c.f, s, events).value)
    decreases |events|
  {
    if events == [] {
      AgreesNow(c, s, l, first, pos);
    } else {
      var s', first', pos' := StepKeeps(c, s, l, events[0], first, pos);
      RunAgrees(c, s', Track(c.f, s, l, events[0]), events[1..], first', pos');
    }
  }

  lemma ReopenAgrees(c: Setting, length: nat, events: seq<Event>)
    requires c.f.Valid() && length * c.f.bs < TWO32
    requires WellFormedRun(c.f, events) && NoFailures(events)
    requires LegalRun(c, Fresh(c.f, length), events)
    ensures
      var end := Run(c.f, Fresh(c.f, length), events);
      end.Some? && Agrees(c.f, end.value)
  {
    FreshGood(c, length);
    RunAgrees(c, Fresh(c.f, length), EMPTY, events, 0, 0);
  }
}
