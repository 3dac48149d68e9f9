/**
 The edge of the size bound. When a journal's length is 3m - 2 a record may take m
 blocks, and then a wrapped write can reach one block into the current record. If the
 device reports an error after such a write has landed whole, the next failure loses
 everything. Also here: what happens when the revision counter wraps.
 */
module LateErrors {
  import opened Blocks
  import opened Entries
  import opened JournalModel
  import opened CrashSafety
  import opened Headers
  import opened Runs
  import opened Collisions

  // ---------------------------------------------------------------------
  // Four payloads for a journal of 3m - 2 blocks

  datatype Payloads = Payloads(first: Bytes, second: Bytes, third: Bytes, fourth: Bytes)

  function Fill(b: byte, n: nat): (r: Bytes)
    ensures |r| == n && forall i | 0 <= i < n :: r[i] == b
  {
    seq(n, _ => b)
  }

  /** The data bytes in m - 1 whole blocks. */
  function Filling(bs: nat, m: nat): nat
    requires bs >= HEADER_SIZE && m >= 2
  {
    MulLe(1, m - 1, bs);
    (m - 1) * bs - HEADER_SIZE
  }

  /** One record of m - 1 whole blocks, then three whose m-th block holds one to three bytes. */
  function Chosen(bs: nat, m: nat): Payloads
    requires bs >= HEADER_SIZE && m >= 2
  {
    var n := Filling(bs, m);
    Payloads(Fill(1, n), Fill(2, n + 1), Fill(3, n + 3), Fill(4, n + 2))
  }

  /** What the fourth record's header is followed by when only its first block replaces the third's. */
  function Mixed(bs: nat, m: nat): Bytes
    requires bs >= HEADER_SIZE && m >= 2
  {
    MulLe(1, m - 1, bs);
    Fill(4, bs - HEADER_SIZE) + Fill(3, Filling(bs, m) + 2 - (bs - HEADER_SIZE))
  }

  /** The setting in which exactly these payloads are written. */
  function Only(f: Format, d: Payloads): Setting {
    Setting(f, {d.first, d.second, d.third, d.fourth})
  }

  /** The payload is accepted, its record takes `k` blocks and cannot be taken for a header. */
  ghost predicate Takes(bs: nat, length: nat, data: Bytes, k: nat)
    requires bs > 0
  {
    Accepted(bs, length, data) && BlocksFor(bs, data) == k && Plain(bs, data)
  }

  ghost predicate Suitable(bs: nat, length: nat, m: nat, d: Payloads)
    requires bs > 0
  {
    && m >= 2 && length == 3 * m - 2
    && Takes(bs, length, d.first, m - 1)
    && Takes(bs, length, d.second, m)
    && Takes(bs, length, d.third, m)
    && Takes(bs, length, d.fourth, m)
  }

  lemma FillPlain(bs: nat, b: byte, n: nat)
    requires bs >= HEADER_SIZE && b != MAGIC[0]
    ensures Plain(bs, Fill(b, n))
  {
    forall j | 1 <= j < BlocksFor(bs, Fill(b, n))
      ensures !MagicLike(TailAt(bs, Fill(b, n), j))
    {
      InsideBytes(bs, Fill(b, n), j);
      assert TailAt(bs, Fill(b, n), j)[0] == b;
    }
  }

  lemma ChosenSuitable(bs: nat, length: nat, m: nat)
    requires bs >= HEADER_SIZE && m >= 2 && length == 3 * m - 2
    ensures Suitable(bs, length, m, Chosen(bs, m))
    ensures MaxBlocks(bs, length) == m
  {
    var x, n := (m - 1) * bs, Filling(bs, m);
    MulStep(m, bs);
    assert length * bs == 3 * x + bs;
    CeilDivUnique(x, bs, m - 1);
    CeilDivUnique(x + 1, bs, m);
    CeilDivUnique(x + 2, bs, m);
    CeilDivUnique(x + 3, bs, m);
    MaxBlocksIs(bs, length);
    FillPlain(bs, 1, n);
    FillPlain(bs, 2, n + 1);
    FillPlain(bs, 3, n + 3);
    FillPlain(bs, 4, n + 2);
  }

  /** The payloads differ in length. */
  lemma ChosenToldApart(f: Format, length: nat, m: nat)
    requires f.Valid() && m >= 2 && length == 3 * m - 2 && length * f.bs < TWO32
    ensures ToldApart(Only(f, Chosen(f.bs, m))) && Filling(f.bs, m) + 3 < TWO32
  {
    MulLe(m - 1, length, f.bs);
  }

  /** Whether a record wraps, in blocks. */
  lemma TargetIs(bs: nat, length: nat, next: nat, data: Bytes)
    requires bs > 0 && next <= length
    ensures Target(bs, length, next, data) == if length - next < BlocksFor(bs, data) then 0 else next
  {
    var room, n := length - next, HEADER_SIZE + |data|;
    NoRoom(bs, room, data);
    if n <= room * bs {
      CeilDivMonotone(n, room * bs, bs);
      CeilDivUnique(room * bs, bs, room);
    }
  }

  // ---------------------------------------------------------------------
  // The overlap

  ghost predicate Given(c: Setting, length: nat, m: nat, d: Payloads) {
    && c.f.Valid() && length * c.f.bs < TWO32
    && Suitable(c.f.bs, length, m, d) && ToldApart(c)
    && c == Only(c.f, d)
  }

  /** A sound journal with whole records only, none starting at block `from` or later. */
  ghost predicate Tidy(c: Setting, length: nat, s: State, from: nat) {
    && |s.disk| == length
    && Sound(c, s.disk) && s.Valid() && Whole(c, s.disk)
    && forall p | from <= p < |s.disk| :: !IsHeader(s.disk[p])
  }

  ghost predicate AfterOne(c: Setting, length: nat, m: nat, d: Payloads, s: State) {
    && m >= 2 && Tidy(c, length, s, 1)
    && s.mem == Memory(Record(1, d.first), m - 1)
    && ParseAt(c.f, s.disk, 0) == Some(Record(1, d.first))
  }

  ghost predicate AfterTwo(c: Setting, length: nat, m: nat, d: Payloads, s: State) {
    && m >= 2 && Tidy(c, length, s, m)
    && s.mem == Memory(Record(2, d.second), 2 * m - 1)
    && ParseAt(c.f, s.disk, m - 1) == Some(Record(2, d.second))
  }

  lemma FirstPut(c: Setting, length: nat, m: nat, d: Payloads) returns (s: State)
    requires Given(c, length, m, d)
    ensures Legal(c, Fresh(c.f, length), Put(d.first, Written))
    ensures s == Update(c.f, Fresh(c.f, length), d.first, Written) && AfterOne(c, length, m, d, s)
  {
    var s0 := Fresh(c.f, length);
    FreshBlank(c, length);
    TargetIs(c.f.bs, |s0.disk|, s0.mem.next, d.first);
    var r := PutWhole(c, s0, d.first, Written, 0);
    s := Update(c.f, s0, d.first, Written);
  }

  lemma SecondPut(c: Setting, length: nat, m: nat, d: Payloads, s: State) returns (s': State)
    requires Given(c, length, m, d) && AfterOne(c, length, m, d, s)
    ensures Legal(c, s, Put(d.second, Written))
    ensures s' == Update(c.f, s, d.second, Written) && AfterTwo(c, length, m, d, s')
  {
    TargetIs(c.f.bs, |s.disk|, s.mem.next, d.second);
    NoHeadersNoEntries(c.f, s.disk, 1);
    var r := PutWhole(c, s, d.second, Written, m - 1);
    s' := Update(c.f, s, d.second, Written);
  }

  /** Two successful updates after which the third record reaches the second one's first block. */
  function OverlapRun(d: Payloads): seq<Event> {
    [Put(d.first, Written), Put(d.second, Written)]
  }

  /** The first two updates, and any legal run from there. */
  lemma AfterOverlapRun(c: Setting, d: Payloads, s0: State, s1: State, s2: State, events: seq<Event>)
    requires Legal(c, s0, Put(d.first, Written)) && s1 == Update(c.f, s0, d.first, Written)
    requires Legal(c, s1, Put(d.second, Written)) && s2 == Update(c.f, s1, d.second, Written)
    requires Accepted(c.f.bs, |s0.disk|, d.first) && Accepted(c.f.bs, |s0.disk|, d.second)
    requires WellFormedRun(c.f, events) && LegalRun(c, s2, events)
    ensures
      var all := OverlapRun(d) + events;
      && WellFormedRun(c.f, all) && LegalRun(c, s0, all)
      && Run(c.f, s0, all) == Run(c.f, s2, events)
      && TrackAll(c.f, s0, EMPTY, all) == TrackAll(c.f, s2, Ledger(Record(2, d.second), {}), events)
  {
    var e1, e2 := Put(d.first, Written), Put(d.second, Written);
    TwoMore(c, s0, s1, s2, EMPTY, e1, e2, events);
    assert OverlapRun(d) + events == [e1, e2] + events;
  }

  lemma TwoMore(c: Setting, s0: State, s1: State, s2: State, l: Ledger, e1: Event, e2: Event, events: seq<Event>)
    requires Legal(c, s0, e1) && Step(c.f, s0, e1) == Some(s1) && Legal(c, s1, e2) && Step(c.f, s1, e2) == Some(s2)
    requires WellFormedRun(c.f, events) && LegalRun(c, s2, events)
    ensures
      var all := [e1, e2] + events;
      && WellFormedRun(c.f, all) && LegalRun(c, s0, all)
      && Run(c.f, s0, all) == Run(c.f, s2, events)
      && TrackAll(c.f, s0, l, all)
         == TrackAll(c.f, s2, Track(c.f, s1, Track(c.f, s0, l, e1), e2), events)
  {
    ConsRun(c, s1, Track(c.f, s0, l, e1), e2, s2, events);
    ConsRun(c, s0, l, e1, s1, [e2] + events);
    assert [e1, e2] + events == [e1] + ([e2] + events);
  }

  /**
   For every format and every length 3m - 2 with m at least 2, so for every length that is
   1 modulo 3 but 1 itself, a legal run reaches the overlap: the current record starts at
   block m - 1 and the next update writes blocks 0 to m - 1.
   */
  lemma OverlapReached(f: Format, length: nat, m: nat)
    requires f.Valid() && m >= 2 && length == 3 * m - 2 && length * f.bs < TWO32
    ensures
      var d := Chosen(f.bs, m);
      var s0, events := Fresh(f, length), OverlapRun(d);
      && WellFormedRun(f, events) && LegalRun(Only(f, d), s0, events)
      && Run(f, s0, events).Some?
      && var s := Run(f, s0, events).value;
         && ParseAt(f, s.disk, m - 1) == Some(s.mem.current)
         && Accepted(f.bs, length, d.third)
         && Target(f.bs, length, s.mem.next, d.third) == 0
         && BlocksFor(f.bs, d.third) == m
  {
    var d := Chosen(f.bs, m);
    var c := Only(f, d);
    ChosenSuitable(f.bs, length, m);
    ChosenToldApart(f, length, m);
    var s1 := FirstPut(c, length, m, d);
    var s2 := SecondPut(c, length, m, d, s1);
    AfterOverlapRun(c, d, Fresh(f, length), s1, s2, []);
    assert OverlapRun(d) + [] == OverlapRun(d);
    TargetIs(f.bs, length, 2 * m - 1, d.third);
  }

  /** In a journal of one block, one update of a block or less, the next writes over it. */
  lemma OverlapReachedOne(f: Format)
    requires f.Valid() && 3 * HEADER_SIZE <= f.bs < TWO32
    ensures
      var s0, events := Fresh(f, 1), [Put([], Written)];
      && WellFormedRun(f, events) && LegalRun(Setting(f, {[]}), s0, events) && Run(f, s0, events).Some?
      && var s := Run(f, s0, events).value;
         && ParseAt(f, s.disk, 0) == Some(s.mem.current) && s.mem.current == Record(1, [])
         && Accepted(f.bs, 1, []) && Target(f.bs, 1, s.mem.next, []) == 0
  {
    var c, s0 := Setting(f, {[]}), Fresh(f, 1);
    FreshBlank(c, 1);
    CeilDivUnique(HEADER_SIZE, f.bs, 1);
    TargetIs(f.bs, |s0.disk|, s0.mem.next, []);
    var r := PutWhole(c, s0, [], Written, 0);
    var s := Update(f, s0, [], Written);
    ConsRun(c, s0, EMPTY, Put([], Written), s, []);
    assert [Put([], Written)] + [] == [Put([], Written)];
    TargetIs(f.bs, 1, s.mem.next, []);
  }

  // ---------------------------------------------------------------------
  // Losing everything

  /** The overlapping write lands whole but reports an error; its retry fails after one block. */
  function LossRun(m: nat, d: Payloads): seq<Event> {
    OverlapRun(d) + [Put(d.third, Failed(m)), Put(d.fourth, Failed(1))]
  }

  ghost predicate AfterThree(c: Setting, length: nat, m: nat, d: Payloads, s: State) {
    && Tidy(c, length, s, 1)
    && s.mem == Memory(Record(2, d.second), 0)
    && ParseAt(c.f, s.disk, 0) == Some(Record(3, d.third))
  }

  lemma ThirdPut(c: Setting, length: nat, m: nat, d: Payloads, s: State) returns (s': State)
    requires Given(c, length, m, d) && AfterTwo(c, length, m, d, s)
    ensures Legal(c, s, Put(d.third, Failed(m)))
    ensures s' == Update(c.f, s, d.third, Failed(m)) && AfterThree(c, length, m, d, s')
  {
    TargetIs(c.f.bs, |s.disk|, s.mem.next, d.third);
    var r := PutWhole(c, s, d.third, Failed(m), 0);
    s' := Update(c.f, s, d.third, Failed(m));
  }

  /** The bytes at the start of the disk once the fourth record's first block was written over the third. */
  lemma MixedBody(f: Format, m: nat, disk: seq<Block>)
    requires f.Valid() && m >= 2 && Uniform(f.bs, disk) && disk != [] && Filling(f.bs, m) + 3 < TWO32
    requires ParseAt(f, disk, 0) == Some(Record(3, Chosen(f.bs, m).third))
    ensures
      var r := Record(3, Chosen(f.bs, m).fourth);
      Body(AfterWrite(f, disk, 0, r, 1), 0, |r.data|) == Mixed(f.bs, m)
  {
    var bs, d, n := f.bs, Chosen(f.bs, m), Filling(f.bs, m);
    var r3, r4 := Record(3, d.third), Record(3, d.fourth);
    var disk' := AfterWrite(f, disk, 0, r4, 1);
    MulLe(1, m - 1, bs);
    ParseIff(f, disk, 0, r3);
    EncodeParts(f.hash, r3, []);
    assert disk[0..] == disk && disk'[0..] == disk' && disk'[1..] == disk[1..];
    assert Flat(disk') == disk'[0] + Flat(disk'[1..]);
    assert Flat(disk) == disk[0] + Flat(disk[1..]);
    var b := Body(disk', 0, n + 2);
    forall i | 0 <= i < n + 2
      ensures b[i] == Mixed(bs, m)[i]
    {
      assert b[i] == Flat(disk')[HEADER_SIZE + i];
      if i < bs - HEADER_SIZE {
        EncodeParts(f.hash, r4, []);
        ChopAt(bs, Encode(f.hash, r4), 0, HEADER_SIZE + i);
        DataByte(f.hash, r4, HEADER_SIZE + i);
      } else {
        assert Flat(disk')[HEADER_SIZE + i] == Flat(disk)[HEADER_SIZE + i] == Encode(f.hash, r3)[HEADER_SIZE + i];
        DataByte(f.hash, r3, HEADER_SIZE + i);
      }
    }
  }

  /** A header that is followed by other bytes than its own, with another hash, is no entry. */
  lemma HeadOnly(f: Format, disk: seq<Block>, r: Record)
    requires f.Valid() && Uniform(f.bs, disk) && disk != [] && disk[0] == Image(f, r)[0]
    requires r.revision < TWO32 && |r.data| < TWO64
    requires f.hash(Body(disk, 0, |r.data|)) != f.hash(r.data)
    ensures ParseAt(f, disk, 0) == None
  {
    var s := Flat(disk[0..]);
    FirstBlock(f.bs, disk, 0);
    ImageHeader(f, r);
    assert s[8..16] == disk[0][8..16] && s[16..48] == disk[0][16..48];
    Widths();
    FromToBE(|r.data|, 8);
  }

  /** Nor does it collide with any payload. */
  lemma HeadDistinguishes(f: Format, disk: seq<Block>, r: Record, d: Bytes)
    requires f.Valid() && Uniform(f.bs, disk) && disk != [] && disk[0] == Image(f, r)[0]
    requires |r.data| < TWO64 && |d| < TWO64
    requires f.hash(Body(disk, 0, |r.data|)) != f.hash(r.data)
    ensures Distinguishes(f, disk, 0, d)
  {
    ImageHeader(f, r);
    Widths();
    FromToBE(|r.data|, 8);
    FromToBE(|d|, 8);
  }

  /** Writing the first block of the fourth record over the third makes no hash collide, and leaves no entry. */
  lemma TornFourth(c: Setting, m: nat, disk: seq<Block>)
    requires c.f.Valid() && m >= 2 && Uniform(c.f.bs, disk) && disk != [] && Filling(c.f.bs, m) + 3 < TWO32
    requires ParseAt(c.f, disk, 0) == Some(Record(3, Chosen(c.f.bs, m).third))
    requires c.f.hash(Mixed(c.f.bs, m)) != c.f.hash(Chosen(c.f.bs, m).fourth)
    requires forall x | x in c.payloads :: |x| < TWO64
    requires forall p | 1 <= p < |disk| :: !IsHeader(disk[p])
    ensures
      var disk' := AfterWrite(c.f, disk, 0, Record(3, Chosen(c.f.bs, m).fourth), 1);
      NoCollision(c, disk') && forall p | 0 <= p < |disk'| :: ViewOf(c.f, disk')[p] == None
  {
    var r := Record(3, Chosen(c.f.bs, m).fourth);
    var disk' := AfterWrite(c.f, disk, 0, r, 1);
    MixedBody(c.f, m, disk);
    HeadOnly(c.f, disk', r);
    forall p, x | 0 <= p < |disk'| && x in c.payloads
      ensures Distinguishes(c.f, disk', p, x)
    {
      if p == 0 {
        HeadDistinguishes(c.f, disk', r, x);
      }
    }
    NoHeadersNoEntries(c.f, disk', 1);
    ViewAt(c.f, disk', 0);
  }

  lemma FourthPut(c: Setting, length: nat, m: nat, s: State) returns (s': State)
    requires c.f.Valid() && m >= 2
    requires Given(c, length, m, Chosen(c.f.bs, m)) && AfterThree(c, length, m, Chosen(c.f.bs, m), s)
    requires c.f.hash(Mixed(c.f.bs, m)) != c.f.hash(Chosen(c.f.bs, m).fourth)
    ensures
      var d := Chosen(c.f.bs, m);
      && Legal(c, s, Put(d.fourth, Failed(1)))
      && s' == Update(c.f, s, d.fourth, Failed(1))
      && forall p | 0 <= p < |s'.disk| :: ViewOf(c.f, s'.disk)[p] == None
  {
    var d := Chosen(c.f.bs, m);
    var r := Record(3, d.fourth);
    TargetIs(c.f.bs, |s.disk|, s.mem.next, d.fourth);
    UpdateIs(c.f, s, d.fourth, Failed(1));
    s' := Update(c.f, s, d.fourth, Failed(1));
    ChosenToldApart(c.f, length, m);
    assert s'.disk == AfterWrite(c.f, s.disk, 0, r, 1);
    TornFourth(c, m, s.disk);
  }

  /** The whole run, from the states its events lead through. */
  lemma LossRunIs(c: Setting, m: nat, d: Payloads, s0: State, s1: State, s2: State, s3: State, s4: State)
    requires Legal(c, s0, Put(d.first, Written)) && s1 == Update(c.f, s0, d.first, Written)
    requires Legal(c, s1, Put(d.second, Written)) && s2 == Update(c.f, s1, d.second, Written)
    requires Legal(c, s2, Put(d.third, Failed(m))) && s3 == Update(c.f, s2, d.third, Failed(m))
    requires Legal(c, s3, Put(d.fourth, Failed(1))) && s4 == Update(c.f, s3, d.fourth, Failed(1))
    requires Accepted(c.f.bs, |s0.disk|, d.first) && Accepted(c.f.bs, |s0.disk|, d.second)
    ensures
      var events := LossRun(m, d);
      && WellFormedRun(c.f, events) && LegalRun(c, s0, events) && Run(c.f, s0, events) == Some(s4)
      && TrackAll(c.f, s0, EMPTY, events).committed == Record(2, d.second)
  {
    var e3, e4 := Put(d.third, Failed(m)), Put(d.fourth, Failed(1));
    TwoMore(c, s2, s3, s4, Ledger(Record(2, d.second), {}), e3, e4, []);
    assert [e3, e4] + [] == [e3, e4];
    AfterOverlapRun(c, d, s0, s1, s2, [e3, e4]);
  }

  lemma LossRunEnds(c: Setting, length: nat, m: nat) returns (s: State)
    requires c.f.Valid() && m >= 2 && Given(c, length, m, Chosen(c.f.bs, m))
    requires c.f.hash(Mixed(c.f.bs, m)) != c.f.hash(Chosen(c.f.bs, m).fourth)
    ensures
      var s0, events := Fresh(c.f, length), LossRun(m, Chosen(c.f.bs, m));
      && WellFormedRun(c.f, events) && LegalRun(c, s0, events) && Run(c.f, s0, events) == Some(s)
      && TrackAll(c.f, s0, EMPTY, events).committed == Record(2, Chosen(c.f.bs, m).second)
    ensures forall p | 0 <= p < |s.disk| :: ViewOf(c.f, s.disk)[p] == None
  {
    var d := Chosen(c.f.bs, m);
    var s1 := FirstPut(c, length, m, d);
    var s2 := SecondPut(c, length, m, d, s1);
    var s3 := ThirdPut(c, length, m, d, s2);
    s := FourthPut(c, length, m, s3);
    LossRunIs(c, m, d, Fresh(c.f, length), s1, s2, s3, s);
  }

  /**
   For every format and every length 3m - 2 with m at least 2: two committed updates, one
   error reported after the whole record landed, one torn retry, and reopening finds no entry
   at all. The run is legal unless the torn record happens to have the hash it claims.
   */
  lemma LateErrorLosesAll(f: Format, length: nat, m: nat)
    requires f.Valid() && m >= 2 && length == 3 * m - 2 && length * f.bs < TWO32
    requires f.hash(Mixed(f.bs, m)) != f.hash(Chosen(f.bs, m).fourth)
    ensures
      var d := Chosen(f.bs, m);
      var s, events := Fresh(f, length), LossRun(m, d);
      && WellFormedRun(f, events) && LegalRun(Only(f, d), s, events)
      && TrackAll(f, s, EMPTY, events).committed == Record(2, d.second)
      && Run(f, s, events).Some?
      && Scan(f.bs, ViewOf(f, Run(f, s, events).value.disk)) == Opened(Memory(NO_RECORD, 0))
      && !Atomic(f, s, EMPTY, events)
  {
    var d := Chosen(f.bs, m);
    ChosenSuitable(f.bs, length, m);
    ChosenToldApart(f, length, m);
    var s := LossRunEnds(Only(f, d), length, m);
    ScanGap(f.bs, ViewOf(f, s.disk), 0, |s.disk|);
  }

  // ---------------------------------------------------------------------
  // The exact condition

  /** Every update's record takes at most `most` blocks. */
  ghost predicate Capped(bs: nat, most: nat, events: seq<Event>)
    requires bs > 0
  {
    forall i | 0 <= i < |events| && events[i].Put? :: BlocksFor(bs, events[i].data) <= most
  }

  /** Crash atomicity, with any errors, for a client that keeps to records of at most `most` blocks. */
  ghost predicate AlwaysAtomic(f: Format, length: nat, most: nat)
    requires f.Valid()
  {
    forall payloads, events ::
      WellFormedRun(f, events) && LegalRun(Setting(f, payloads), Fresh(f, length), events) && Capped(f.bs, most, events)
      ==> Atomic(f, Fresh(f, length), EMPTY, events)
  }

  /**
   Crash atomicity with late errors holds exactly if the length is not 1 modulo 3, or is 1,
   or the client keeps its records shorter than the most blocks permitted.
   */
  lemma AtomicExactlyIf(f: Format, length: nat, most: nat)
    requires f.Valid() && length * f.bs < TWO32
    requires length % 3 == 1 && length > 1 ==>
      var m := (length + 2) / 3;
      f.hash(Mixed(f.bs, m)) != f.hash(Chosen(f.bs, m).fourth)
    ensures AlwaysAtomic(f, length, most) <==> length % 3 != 1 || length == 1 || most < MaxBlocks(f.bs, length)
  {
    if length % 3 != 1 || length == 1 || most < MaxBlocks(f.bs, length) {
      forall payloads, events |
        && WellFormedRun(f, events) && LegalRun(Setting(f, payloads), Fresh(f, length), events)
        && Capped(f.bs, most, events)
        ensures Atomic(f, Fresh(f, length), EMPTY, events)
      {
        CrashAtomicity(Setting(f, payloads), length, events);
      }
    } else {
      var m := (length + 2) / 3;
      var d := Chosen(f.bs, m);
      LateErrorLosesAll(f, length, m);
      ChosenSuitable(f.bs, length, m);
      assert LegalRun(Setting(f, Only(f, d).payloads), Fresh(f, length), LossRun(m, d));
      assert Capped(f.bs, most, LossRun(m, d));
    }
  }

  // ---------------------------------------------------------------------
  // The revision counter

  /** A record with revision 0 is not found where it was written. */
  lemma ZeroNotFound(f: Format, disk: seq<Block>, at: nat, data: Bytes)
    requires f.Valid() && Uniform(f.bs, disk) && at + BlocksFor(f.bs, data) <= |disk|
    ensures ParseAt(f, AfterWrite(f, disk, at, Record(0, data), BlocksFor(f.bs, data)), at) == None
  {
    var disk' := AfterWrite(f, disk, at, Record(0, data), BlocksFor(f.bs, data));
    ImageHeader(f, Record(0, data));
    assert disk'[at] == Image(f, Record(0, data))[0];
    FirstBlock(f.bs, disk', at);
    var bytes := Flat(disk'[at..]);
    assert bytes[4..8] == bytes[..f.bs][4..8] == ToBE(0, 4);
    Widths();
    FromToBE(0, 4);
  }

  /** At the last 32-bit revision the next update succeeds, but leaves no entry where it wrote. */
  lemma WrappedRevisionUnreadable(f: Format, s: State, data: Bytes)
    requires f.Valid() && s.Valid() && Uniform(f.bs, s.disk)
    requires Accepted(f.bs, |s.disk|, data) && s.mem.current.revision == TWO32 - 1
    ensures
      var s' := Update(f, s, data, Written);
      var at := Target(f.bs, |s.disk|, s.mem.next, data);
      && s'.mem.current == Record(0, data)
      && at < |s'.disk|
      && ParseAt(f, s'.disk, at) == None
  {
    var at, k := Target(f.bs, |s.disk|, s.mem.next, data), BlocksFor(f.bs, data);
    assert NextRevision(s.mem.current.revision) == 0;
    UpdateDef(f, s, data, Written, Record(0, data), at, k);
    ZeroNotFound(f, s.disk, at, data);
  }

  /** What is found at block `i` once such a record is written. */
  lemma ZeroCovers(c: Setting, disk: seq<Block>, at: nat, data: Bytes, i: nat)
    requires Sound(c, disk) && Plain(c.f.bs, data) && at + BlocksFor(c.f.bs, data) <= |disk| && i < |disk|
    requires NoCollision(c, AfterWrite(c.f, disk, at, Record(0, data), BlocksFor(c.f.bs, data)))
    ensures
      var k, found := BlocksFor(c.f.bs, data), ParseAt(c.f, disk, i);
      ParseAt(c.f, AfterWrite(c.f, disk, at, Record(0, data), k), i)
      == if at <= i < at + k || (i < at && found.Some? && i + BlocksFor(c.f.bs, found.value.data) > at)
         then None else found
  {
    var r, k := Record(0, data), BlocksFor(c.f.bs, data);
    var disk' := AfterWrite(c.f, disk, at, r, k);
    if i < at {
      OverlaidBefore(c, disk, at, r, k, i);
    } else if i == at {
      ZeroNotFound(c.f, disk, at, data);
    } else if i < at + k {
      ImageNoHeaderInside(c.f, r, i - at);
      NotHeaderNoEntry(c.f, disk', i);
    } else {
      SameBehind(c.f, disk, at, r, k, i);
    }
  }

  /** Writing a record with revision 0 covers blocks but adds no entry. */
  lemma ZeroView(c: Setting, disk: seq<Block>, at: nat, data: Bytes, r: Record)
    requires Sound(c, disk) && Plain(c.f.bs, data) && at + BlocksFor(c.f.bs, data) <= |disk|
    requires NoCollision(c, AfterWrite(c.f, disk, at, Record(0, data), BlocksFor(c.f.bs, data)))
    ensures
      var k := BlocksFor(c.f.bs, data);
      var v, w := ViewOf(c.f, disk), ViewOf(c.f, AfterWrite(c.f, disk, at, Record(0, data), k));
      Covered(c.f.bs, v, w, at, r, k) && w[at] == None && Clean(c.f.bs, w)
  {
    var k := BlocksFor(c.f.bs, data);
    var disk' := AfterWrite(c.f, disk, at, Record(0, data), k);
    var v, w := ViewOf(c.f, disk), ViewOf(c.f, disk');
    forall i | 0 <= i < |v|
      ensures w[i] == if at <= i < at + k || (i < at && v[i].Some? && End(c.f.bs, v, i) > at) then None else v[i]
    {
      ViewAt(c.f, disk, i);
      ViewAt(c.f, disk', i);
      ZeroCovers(c, disk, at, data, i);
    }
    SoundClean(c, disk);
    forall p | 0 <= p < |w| && w[p].Some?
      ensures Intact(c.f.bs, w, p)
    {
      assert Intact(c.f.bs, v, p);
    }
  }

  /**
   In every state that runs lead to, at the last 32-bit revision, the next update succeeds and
   leaves revision 0 in memory, but reopening gives the record before it: an acknowledged
   update is lost. If the new record overlaps that one, it is not to be found either.
   */
  lemma WrappedRevisionLost(c: Setting, s: State, l: Ledger, first: nat, pos: nat, data: Bytes)
    requires Good(c, s, l, first, pos) && s.mem.current.revision == TWO32 - 1
    requires Accepted(c.f.bs, |s.disk|, data) && Plain(c.f.bs, data)
    requires NoCollision(c, Update(c.f, s, data, Written).disk)
    ensures
      var s', k := Update(c.f, s, data, Written), BlocksFor(c.f.bs, data);
      var found, at := Scan(c.f.bs, ViewOf(c.f, s'.disk)), Target(c.f.bs, |s.disk|, s.mem.next, data);
      && s'.mem.current == Record(0, data)
      && (if Spares(c.f.bs, s.mem, pos, at, k) then found.Opened? && found.mem.current == s.mem.current
          else pos < |s'.disk| && ParseAt(c.f, s'.disk, pos) == None)
      && (|s.disk| % 3 != 1 || k < MaxBlocks(c.f.bs, |s.disk|) ==> Spares(c.f.bs, s.mem, pos, at, k))
  {
    var s', k := Update(c.f, s, data, Written), BlocksFor(c.f.bs, data);
    var at := Target(c.f.bs, |s.disk|, s.mem.next, data);
    WrapsToZero(s.mem.current.revision);
    UpdateDef(c.f, s, data, Written, Record(0, data), at, k);
    GoodPlaced(c, s, l, first, pos);
    UpdateOverlap(c, s, pos, data);
    ZeroReopens(c, s, l, first, pos, data, at, k);
  }

  lemma WrapsToZero(revision: nat)
    requires revision == TWO32 - 1
    ensures NextRevision(revision) == 0
  {
  }

  /** Reopening once a record with revision 0 was written at `at`. */
  lemma ZeroReopens(c: Setting, s: State, l: Ledger, first: nat, pos: nat, data: Bytes, at: nat, k: nat)
    requires Good(c, s, l, first, pos) && s.mem.current.revision == TWO32 - 1
    requires Accepted(c.f.bs, |s.disk|, data) && Plain(c.f.bs, data)
    requires at == Target(c.f.bs, |s.disk|, s.mem.next, data) && k == BlocksFor(c.f.bs, data) && at + k <= |s.disk|
    requires NoCollision(c, AfterWrite(c.f, s.disk, at, Record(0, data), k))
    ensures
      var disk' := AfterWrite(c.f, s.disk, at, Record(0, data), k);
      var found := Scan(c.f.bs, ViewOf(c.f, disk'));
      if Spares(c.f.bs, s.mem, pos, at, k) then found.Opened? && found.mem.current == s.mem.current
      else pos < |disk'| && ParseAt(c.f, disk', pos) == None
  {
    var disk', r := AfterWrite(c.f, s.disk, at, Record(0, data), k), Record(s.mem.current.revision + 1, data);
    if Spares(c.f.bs, s.mem, pos, at, k) {
      ZeroView(c, s.disk, at, data, r);
      ReopensBefore(c.f, s.disk, disk', s.mem, l.pending, first, pos, data, r, at);
    } else {
      ZeroCovers(c, s.disk, at, data, pos);
    }
  }

  lemma ReopensBefore(f: Format, disk: seq<Block>, disk': seq<Block>, mem: Memory, pending: set<Bytes>,
                      first: nat, pos: nat, data: Bytes, r: Record, at: nat)
    requires f.Valid() && |disk'| == |disk| && mem.current.revision == TWO32 - 1
    requires
      var v, w := ViewOf(f, disk), ViewOf(f, disk');
      && Inv(f.bs, v, mem, pending, first, pos) && CrashSafety.Writes(f.bs, v, mem, data, r, at)
      && at + BlocksFor(f.bs, data) <= |v| && Covered(f.bs, v, w, at, r, BlocksFor(f.bs, data)) && Clean(f.bs, w)
      && Spares(f.bs, mem, pos, at, BlocksFor(f.bs, data))
    ensures
      var found := Scan(f.bs, ViewOf(f, disk'));
      found.Opened? && found.mem.current == mem.current
  {
    var v, w := ViewOf(f, disk), ViewOf(f, disk');
    var first' := Torn(f.bs, v, w, mem, pending, first, pos, data, r, at, BlocksFor(f.bs, data));
    var mem', p, q := Reopen(f.bs, w, mem.(next := at), pending + {data}, first', pos);
    ViewAt(f, disk', q);
    UnmarshalThenMarshal(f.hash, Flat(disk'[q..]));
  }

  // ---------------------------------------------------------------------
  // Reaching the last revision

  /** `n` successful updates with no data. */
  function EmptyRun(n: nat): seq<Event> {
    seq(n, _ => Put([], Written))
  }

  /** Records without data take one block, so none reaches another. */
  lemma EmptyRecords(c: Setting, disk: seq<Block>, at: nat)
    requires c.f.Valid() && Uniform(c.f.bs, disk) && c.payloads == {[]} && Whole(c, disk) && at <= |disk|
    ensures BlocksFor(c.f.bs, []) == 1 && Plain(c.f.bs, []) && ClearBefore(c.f, disk, at)
  {
    CeilDivUnique(HEADER_SIZE, c.f.bs, 1);
    forall p | 0 <= p < at && ParseAt(c.f, disk, p).Some?
      ensures ParseAt(c.f, disk, p).value.data == []
    {
      if !IsHeader(disk[p]) {
        NotHeaderNoEntry(c.f, disk, p);
      }
    }
  }

  lemma EmptyUpdate(c: Setting, s: State, l: Ledger, first: nat, pos: nat)
    returns (s': State, l': Ledger, first': nat, pos': nat)
    requires Good(c, s, l, first, pos) && Whole(c, s.disk) && c.payloads == {[]}
    requires Accepted(c.f.bs, |s.disk|, []) && s.mem.current.revision + 1 < TWO32
    ensures Legal(c, s, Put([], Written)) && Step(c.f, s, Put([], Written)) == Some(s')
    ensures Good(c, s', l', first', pos') && Whole(c, s'.disk) && |s'.disk| == |s.disk|
    ensures s'.mem.current == Record(s.mem.current.revision + 1, [])
  {
    var at := Target(c.f.bs, |s.disk|, s.mem.next, []);
    TargetFits(c.f.bs, |s.disk|, s.mem.next, []);
    EmptyRecords(c, s.disk, at);
    var r := PutWhole(c, s, [], Written, at);
    s' := Update(c.f, s, [], Written);
    first', pos' := PutCommits(c, s, l, [], first, pos);
    l' := Ledger(s'.mem.current, {});
  }

  ghost predicate AllEmpty(f: Format, events: seq<Event>) {
    WellFormedRun(f, events) && forall i | 0 <= i < |events| :: events[i] == Put([], Written)
  }

  /** Any number of updates is a legal run, while the revision counter lasts. */
  lemma {:induction false} EmptyUpdates(c: Setting, s: State, l: Ledger, first: nat, pos: nat, events: seq<Event>)
    returns (s': State, l': Ledger, first': nat, pos': nat)
    requires Good(c, s, l, first, pos) && Whole(c, s.disk) && c.payloads == {[]}
    requires Accepted(c.f.bs, |s.disk|, []) && s.mem.current.revision + |events| < TWO32 && AllEmpty(c.f, events)
    ensures LegalRun(c, s, events) && Run(c.f, s, events) == Some(s')
    ensures Good(c, s', l', first', pos') && |s'.disk| == |s.disk|
    ensures s'.mem.current == if events == [] then s.mem.current else Record(s.mem.current.revision + |events|, [])
    decreases |events|
  {
    if events == [] {
      s', l', first', pos' := s, l, first, pos;
    } else {
      var s1, l1, first1, pos1 := EmptyUpdate(c, s, l, first, pos);
      assert events[0] == Put([], Written);
      s', l', first', pos' := EmptyUpdates(c, s1, l1, first1, pos1, events[1..]);
    }
  }

  /**
   For every format and length, and all data that may be written but cannot overlap: a legal
   run reaches the last revision, the update after it succeeds, and reopening does not give it.
   */
  lemma LastRevisionReached(f: Format, length: nat, data: Bytes, n: nat)
    requires f.Valid() && length * f.bs < TWO32 && n == TWO32 - 1
    requires Accepted(f.bs, length, data) && Plain(f.bs, data)
    requires length % 3 != 1 || BlocksFor(f.bs, data) < MaxBlocks(f.bs, length)
    ensures
      var c, s0 := Setting(f, {[]}), Fresh(f, length);
      && WellFormedRun(f, EmptyRun(n)) && LegalRun(c, s0, EmptyRun(n)) && Run(f, s0, EmptyRun(n)).Some?
      && var s' := Update(f, Run(f, s0, EmptyRun(n)).value, data, Written);
         var found := Scan(f.bs, ViewOf(f, s'.disk));
         && s'.mem.current == Record(0, data)
         && found.Opened? && found.mem.current == Record(n, [])
  {
    var c := Setting(f, {[]});
    FreshGood(c, length);
    FreshBlank(c, length);
    var s, l, first, pos := EmptyUpdates(c, Fresh(f, length), EMPTY, 0, 0, EmptyRun(n));
    WrappedRevisionLost(c, s, l, first, pos, data);
  }

  // ---------------------------------------------------------------------
  // Payloads that end like a header begins

  /**
   What `Plain` excludes besides headers in the data: the last block of a record holds fewer
   than four bytes, the beginning of the magic number. If its first blocks are written over
   an old entry, so that the old header takes the place of the last block, the record is
   found although it was not written whole, and the old entry is found inside it.
   */
  lemma TornFoundWhole(f: Format, disk: seq<Block>, at: nat, r: Record, old': Record)
    requires f.Valid() && Uniform(f.bs, disk)
    requires 1 <= r.revision < TWO32 && |r.data| < TWO64
    requires
      var k := BlocksFor(f.bs, r.data);
      && k >= 2 && at + k <= |disk|
      && MagicLike(TailAt(f.bs, r.data, k - 1)) && |TailAt(f.bs, r.data, k - 1)| < 4
      && ParseAt(f, disk, at + k - 1) == Some(old')
    ensures
      var k := BlocksFor(f.bs, r.data);
      var disk' := AfterWrite(f, disk, at, r, k - 1);
      && !Plain(f.bs, r.data)
      && ParseAt(f, disk', at) == Some(r) && ParseAt(f, disk', at + k - 1) == Some(old')
  {
    var k := BlocksFor(f.bs, r.data);
    var disk', n := AfterWrite(f, disk, at, r, k - 1), (k - 1) * f.bs;
    SameBehind(f, disk, at, r, k - 1, at + k - 1);
    InsideBytes(f.bs, r.data, k - 1);
    var head, rest := Image(f, r)[..k - 1], disk'[at + k - 1..];
    WrittenHead(f, disk, at, r, k - 1);
    FlatConcat(head, rest);
    AllButLast(f, r, k, n);
    BeginsLikeHeader(f, disk', at + k - 1);
    Joined(Encode(f.hash, r), n, Flat(head), Flat(rest), TailAt(f.bs, r.data, k - 1));
    ParseIff(f, disk', at, r);
  }

  lemma WrittenHead(f: Format, disk: seq<Block>, at: nat, r: Record, n: nat)
    requires f.Valid() && n <= BlocksFor(f.bs, r.data) && at + n <= |disk|
    ensures
      var disk' := AfterWrite(f, disk, at, r, n);
      disk'[at..] == Image(f, r)[..n] + disk'[at + n..]
  {
  }

  lemma AllButLast(f: Format, r: Record, k: nat, n: nat)
    requires f.Valid() && k == BlocksFor(f.bs, r.data) >= 2 && n == (k - 1) * f.bs
    ensures HEADER_SIZE <= n < |Encode(f.hash, r)|
    ensures Flat(Image(f, r)[..k - 1]) == Encode(f.hash, r)[..n]
    ensures TailAt(f.bs, r.data, k - 1) == Encode(f.hash, r)[n..]
  {
    var e, b := Encode(f.hash, r), Image(f, r);
    InsideBytes(f.bs, r.data, k - 1);
    EncodeParts(f.hash, r, []);
    assert e + [] == e;
    FlatTake(f.bs, b, k - 1);
    FlatChop(f.bs, e);
    assert Flat(b)[..n] == e[..n];
    assert e[n..] == e[48..48 + |r.data|][n - 48..];
  }

  lemma BeginsLikeHeader(f: Format, disk: seq<Block>, p: nat)
    requires f.Valid() && Uniform(f.bs, disk) && p < |disk| && ParseAt(f, disk, p).Some?
    ensures MAGIC <= Flat(disk[p..])
  {
    FirstBlock(f.bs, disk, p);
    assert Flat(disk[p..])[..4] == MAGIC;
  }

  lemma Joined(e: Bytes, n: nat, head: Bytes, rest: Bytes, tail: Bytes)
    requires n <= |e| && head == e[..n] && tail == e[n..]
    requires MAGIC <= rest && MagicLike(tail) && |tail| < 4
    ensures e <= head + rest
  {
    assert forall i | 0 <= i < |tail| :: rest[i] == MAGIC[i] == tail[i];
    assert e == head + tail;
  }
}
