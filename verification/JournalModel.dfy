/**
 The journal as values: what `Update` does to the blocks and to the in-memory state,
 and what `init` makes of the blocks when the journal is opened again. Block
 addresses are relative to the journal's first block.
 */
module JournalModel {
  import opened Blocks
  import opened Entries

  const MIN_ENTRIES: nat := 3

  /** Block size and hash function of the device and the journal format. */
  datatype Format = Format(bs: nat, hash: Hash)
  {
    ghost predicate Valid() {
      HEADER_SIZE <= bs && IsHash(hash)
    }
  }

  /** The number of blocks a record with this data takes. */
  function BlocksFor(bs: nat, data: Bytes): (k: nat)
    requires bs > 0
    ensures k >= 1
  {
    CeilDiv(HEADER_SIZE + |data|, bs)
  }

  /** `maxDataBytes`; negative when the journal is too small to hold any entry. */
  function MaxData(bs: nat, length: nat): int {
    length * bs / MIN_ENTRIES - HEADER_SIZE
  }

  /** Three records as long as the one with `data` would fit the journal. */
  lemma AcceptedMeans(bs: nat, length: nat, data: Bytes)
    ensures |data| <= MaxData(bs, length) <==> 3 * (48 + |data|) <= length * bs
  {
  }

  /** The most blocks a permitted record can take. */
  function MaxBlocks(bs: nat, length: nat): nat
    requires bs > 0
  {
    CeilDiv(length * bs / MIN_ENTRIES, bs)
  }

  /** The blocks `Update` writes for a record. */
  function Image(f: Format, r: Record): (blocks: seq<Block>)
    requires f.Valid()
    ensures Uniform(f.bs, blocks)
    ensures |blocks| == BlocksFor(f.bs, r.data)
  {
    EncodeParts(f.hash, r, []);
    ChopCount(f.bs, Encode(f.hash, r));
    Chop(f.bs, Encode(f.hash, r))
  }

  // ---------------------------------------------------------------------
  // Opening a journal

  /** The valid entry that starts at block `p`, if there is one. Data is read to the end of `disk`. */
  function ParseAt(f: Format, disk: seq<Block>, p: nat): Option<Record>
    requires p <= |disk|
  {
    match Unmarshal(f.hash, Flat(disk[p..]))
    case Ok(e) => Some(Record(e.revision, e.data))
    case Err(_) => None
  }

  type View = seq<Option<Record>>

  /** For each block, the valid entry that starts there. */
  function ViewOf(f: Format, disk: seq<Block>): (v: View)
    ensures |v| == |disk|
  {
    ViewFrom(f, disk, 0)
  }

  function ViewFrom(f: Format, disk: seq<Block>, p: nat): (v: View)
    requires p <= |disk|
    ensures |v| == |disk| - p
    decreases |disk| - p
  {
    if p == |disk| then [] else [ParseAt(f, disk, p)] + ViewFrom(f, disk, p + 1)
  }

  lemma {:induction false} ViewFromAt(f: Format, disk: seq<Block>, p: nat, i: nat)
    requires p <= i < |disk|
    ensures ViewFrom(f, disk, p)[i - p] == ParseAt(f, disk, i)
    decreases i - p
  {
    if p < i {
      ViewFromAt(f, disk, p + 1, i);
    }
  }

  lemma ViewAt(f: Format, disk: seq<Block>, p: nat)
    requires p < |disk|
    ensures ViewOf(f, disk)[p] == ParseAt(f, disk, p)
  {
    ViewFromAt(f, disk, 0, p);
  }

  /** In-memory state: the current record and where the next write goes. */
  datatype Memory = Memory(current: Record, next: nat)

  datatype ScanResult = Opened(mem: Memory) | Corrupt(revision: nat)

  /**
   The scan of `init`: block by block up to the first valid entry, then entry by
   entry for as long as revisions grow.
   */
  function ScanFrom(bs: nat, v: View, lba: nat, last: Record, next: nat): (r: ScanResult)
    requires bs > 0
    ensures r.Opened? ==> r.mem.next <= |v|
    decreases |v| - lba
  {
    if lba >= |v| then Stop(v, last, next)
    else match v[lba]
      case None =>
        if last.revision > 0 then Stop(v, last, next) else ScanFrom(bs, v, lba + 1, last, next)
      case Some(e) =>
        if e.revision > last.revision then
          var end := lba + BlocksFor(bs, e.data);
          ScanFrom(bs, v, end, e, end)
        else if e.revision < last.revision then Stop(v, last, lba)
        else Corrupt(e.revision)
  }

  function Stop(v: View, last: Record, next: nat): ScanResult {
    Opened(Memory(last, if next >= |v| then 0 else next))
  }

  function Scan(bs: nat, v: View): ScanResult
    requires bs > 0
  {
    ScanFrom(bs, v, 0, NO_RECORD, 0)
  }

  // ---------------------------------------------------------------------
  // Updating a journal

  datatype State = State(disk: seq<Block>, mem: Memory)
  {
    predicate Valid() {
      mem.next <= |disk|
    }
  }

  /** How the device answers a write: done, or an error with the first `landed` blocks written. */
  datatype Outcome = Written | Failed(landed: nat)

  function NextRevision(revision: nat): nat {
    (revision + 1) % TWO32
  }

  /** The block the record for `data` is written to. */
  function Target(bs: nat, length: nat, next: nat, data: Bytes): nat
    requires next <= length
  {
    if (length - next) * bs < HEADER_SIZE + |data| then 0 else next
  }

  lemma TargetFits(bs: nat, length: nat, next: nat, data: Bytes)
    requires bs > 0 && next <= length && |data| <= MaxData(bs, length)
    ensures Target(bs, length, next, data) + BlocksFor(bs, data) <= length
    ensures BlocksFor(bs, data) <= MaxBlocks(bs, length)
  {
    var n := HEADER_SIZE + |data|;
    var room := length - Target(bs, length, next, data);
    assert n <= room * bs;
    CeilDivMonotone(n, room * bs, bs);
    CeilDivUnique(room * bs, bs, room);
    CeilDivMonotone(n, length * bs / MIN_ENTRIES, bs);
  }

  /** How many blocks of the record for `data` are written. */
  function Landed(bs: nat, data: Bytes, outcome: Outcome): nat
    requires bs > 0
  {
    if outcome.Written? then BlocksFor(bs, data) else outcome.landed
  }

  /** The disk after the first `n` blocks of record `r` were written at block `at`. */
  function AfterWrite(f: Format, disk: seq<Block>, at: nat, r: Record, n: nat): (disk': seq<Block>)
    requires f.Valid() && n <= BlocksFor(f.bs, r.data) && at + n <= |disk|
    ensures |disk'| == |disk|
    ensures Uniform(f.bs, disk) ==> Uniform(f.bs, disk')
  {
    Splice(disk, at, Image(f, r)[..n])
  }

  /** The state after `Update(data)`, given the device's answer. */
  function Update(f: Format, s: State, data: Bytes, outcome: Outcome): (s': State)
    requires f.Valid() && s.Valid()
    requires Landed(f.bs, data, outcome) <= BlocksFor(f.bs, data)
    ensures s'.Valid() && |s'.disk| == |s.disk|
  {
    if |data| > MaxData(f.bs, |s.disk|) then s
    else
      var r := Record(NextRevision(s.mem.current.revision), data);
      var at := Target(f.bs, |s.disk|, s.mem.next, data);
      var n := Landed(f.bs, data, outcome);
      TargetFits(f.bs, |s.disk|, s.mem.next, data);
      State(AfterWrite(f, s.disk, at, r, n),
            if outcome.Written? then Memory(r, at + n) else s.mem.(next := at))
  }

  lemma UpdateDef(f: Format, s: State, data: Bytes, outcome: Outcome, r: Record, at: nat, n: nat)
    requires f.Valid() && s.Valid()
    requires Landed(f.bs, data, outcome) <= BlocksFor(f.bs, data)
    requires |data| <= MaxData(f.bs, |s.disk|)
    requires r == Record(NextRevision(s.mem.current.revision), data)
    requires at == Target(f.bs, |s.disk|, s.mem.next, data) && n == Landed(f.bs, data, outcome)
    ensures at + BlocksFor(f.bs, data) <= |s.disk|
    ensures Update(f, s, data, outcome).disk == AfterWrite(f, s.disk, at, r, n)
    ensures Update(f, s, data, outcome).mem == if outcome.Written? then Memory(r, at + n) else s.mem.(next := at)
  {
    TargetFits(f.bs, |s.disk|, s.mem.next, data);
  }

  /** While the revision counter does not wrap, the new record has the next revision. */
  lemma UpdateIs(f: Format, s: State, data: Bytes, outcome: Outcome)
    requires f.Valid() && s.Valid()
    requires Landed(f.bs, data, outcome) <= BlocksFor(f.bs, data)
    requires |data| <= MaxData(f.bs, |s.disk|)
    requires s.mem.current.revision + 1 < TWO32
    ensures
      var r := Record(s.mem.current.revision + 1, data);
      var at := Target(f.bs, |s.disk|, s.mem.next, data);
      var n := Landed(f.bs, data, outcome);
      && at + BlocksFor(f.bs, data) <= |s.disk|
      && Update(f, s, data, outcome)
         == State(AfterWrite(f, s.disk, at, r, n),
                  if outcome.Written? then Memory(r, at + n) else s.mem.(next := at))
  {
    TargetFits(f.bs, |s.disk|, s.mem.next, data);
    assert NextRevision(s.mem.current.revision) == s.mem.current.revision + 1;
  }
}
