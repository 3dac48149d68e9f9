/**
 The journal itself: `Update` and `init` step by step on a device, proved to do what the
 journal model says. Reading is not bounded by the journal's own blocks; on a sound
 journal it never leaves them.
 */
module Journals {
  import opened Blocks
  import opened Entries
  import opened Mmc
  import opened BlockReaders
  import opened JournalModel

  const EMPTY_ENTRY := Entry([0, 0, 0, 0], 0, 0, Zeros(32), [])

  /**
   Writing `data` to a journal, said without the model: it succeeds exactly if three such records
   would fit and the device answers without error; then it is the current record, with the
   next revision, and otherwise that stays.
   */
  ghost predicate Replaced(bs: nat, length: nat, before: Record, data: Bytes, answers: seq<Answer>,
                           after: Record, ok: bool)
    requires bs > 0
  {
    && (ok <==> 3 * (48 + |data|) <= length * bs && AllDone(bs, CeilDiv(48 + |data|, bs), answers))
    && after == if ok then Record((before.revision + 1) % 0x1_0000_0000, data) else before
  }

  class Journal {
    const dev: Device
    const hash: Hash
    const start: nat
    const length: nat
    const maxDataBytes: int
    var current: Entry
    var nextBlock: nat

    const f: Format := Format(dev.card.bs, hash)

    /** The journal's blocks can be read; the device may go on beyond the last 32-bit position. */
    ghost predicate Mounted()
      reads dev.card
    {
      && dev.Valid()
      && f.Valid()
      && start + length <= |dev.card.blocks|
      && (start + length) * dev.card.bs <= TWO32
    }

    /** Byte counts within the journal fit 32 bits as well. */
    ghost predicate Ready()
      reads dev.card
    {
      && Mounted()
      && length * dev.card.bs < TWO32
      && maxDataBytes == MaxData(dev.card.bs, length)
    }

    ghost predicate Scanned()
      reads this
    {
      start <= nextBlock <= start + length && current.revision < TWO32
    }

    ghost predicate Valid()
      reads this, dev.card
    {
      Ready() && Scanned()
    }

    /** The journal's own blocks. */
    ghost function Region(): seq<Block>
      requires start + length <= |dev.card.blocks|
      reads dev.card
    {
      dev.card.blocks[start..start + length]
    }

    ghost function Current(): Record
      reads this
    {
      Record(current.revision, current.data)
    }

    ghost function Mem(): Memory
      requires start <= nextBlock
      reads this
    {
      Memory(Record(current.revision, current.data), nextBlock - start)
    }

    /** Reading an entry from any of the journal's blocks stays within 32-bit positions. */
    ghost predicate Readable()
      requires start + length <= |dev.card.blocks|
      reads dev.card
    {
      |Flat(dev.card.blocks)| < TWO32
      || forall p | start <= p < start + length :: p * dev.card.bs + Claim(Flat(dev.card.blocks[p..])) <= TWO32
    }

    constructor (dev: Device, hash: Hash, start: nat, length: nat)
      requires dev.Valid() && Format(dev.card.bs, hash).Valid()
      requires start + length <= |dev.card.blocks|
      requires (start + length) * dev.card.bs <= TWO32 && length * dev.card.bs < TWO32
      ensures Ready()
      ensures this.dev == dev && this.hash == hash && this.start == start && this.length == length
    {
      this.dev, this.hash, this.start, this.length := dev, hash, start, length;
      maxDataBytes := length * dev.card.bs / MIN_ENTRIES - HEADER_SIZE;
      current, nextBlock := EMPTY_ENTRY, start;
    }

    /** Scans for the latest valid entry. */
    method Init() returns (ok: bool)
      requires Mounted() && Readable()
      modifies this
      ensures
        var r := Scan(dev.card.bs, ViewOf(f, dev.card.blocks)[start..start + length]);
        && (ok <==> r.Opened?)
        && (ok ==> Scanned() && Mem() == r.mem)
    {
      var lastEntry, nextWriteLBA;
      ok, lastEntry, nextWriteLBA := ScanBlocks();
      if ok {
        if nextWriteLBA >= start + length {
          nextWriteLBA := start;
        }
        nextBlock := nextWriteLBA;
        current := lastEntry;
      }
    }

    /** The scan itself: the last entry found and where the next one goes, unless there is corruption. */
    method ScanBlocks() returns (ok: bool, lastEntry: Entry, nextWriteLBA: nat)
      requires Mounted() && Readable()
      ensures
        var v := ViewOf(f, dev.card.blocks)[start..start + length];
        if ok then
          && start <= nextWriteLBA && lastEntry.revision < TWO32
          && Scan(dev.card.bs, v) == Stop(v, Record(lastEntry.revision, lastEntry.data), nextWriteLBA - start)
        else Scan(dev.card.bs, v).Corrupt?
    {
      var bs := dev.card.bs;
      var end := start + length;
      var lba := start;
      lastEntry, nextWriteLBA := EMPTY_ENTRY, start;
      ghost var v := ViewOf(f, dev.card.blocks)[start..end];
      assert |v| == length;
      ghost var from := 0;
      ghost var next := 0;
      ghost var result := Scan(bs, v);
      ok := true;
      while lba < end
        invariant ok && start <= lba && from == lba - start && next == nextWriteLBA - start && start <= nextWriteLBA
        invariant lastEntry.revision < TWO32
        invariant ScanFrom(bs, v, from, Record(lastEntry.revision, lastEntry.data), next) == result
        decreases end - lba
      {
        var e, after := EntryAt(lba);
        assert v[from] == ViewOf(f, dev.card.blocks)[lba];
        if e.Err? {
          if lastEntry.revision > 0 {
            return;
          }
          lba := lba + 1;
          from := from + 1;
          continue;
        }
        if e.value.revision > lastEntry.revision {
          from := from + BlocksFor(bs, e.value.data);
          next := from;
          lastEntry := e.value;
          lba := after;
          nextWriteLBA := lba;
        } else if e.value.revision < lastEntry.revision {
          nextWriteLBA := lba;
          return;
        } else {
          ok := false;
          return;
        }
      }
    }

    /** The entry at a block and, if there is a valid one, the first block after it. */
    method EntryAt(lba: nat) returns (e: Result<Entry>, after: nat)
      requires Mounted() && Readable() && start <= lba < start + length
      ensures e.Err? ==> ViewOf(f, dev.card.blocks)[lba] == None
      ensures e.Ok? ==>
        && ViewOf(f, dev.card.blocks)[lba] == Some(Record(e.value.revision, e.value.data))
        && e.value.revision < TWO32
        && after == lba + BlocksFor(f.bs, e.value.data)
    {
      MulLe(lba, start + length, dev.card.bs);
      var br := new BlockReader(dev, lba);
      e := ReadEntry(br, hash);
      ViewAt(f, dev.card.blocks, lba);
      after := lba;
      if e.Ok? {
        UnmarshalThenMarshal(hash, Flat(dev.card.blocks[lba..]));
        Hop(br, lba, e.value);
        after := NextBlock(br.pos, dev.card.bs);
      }
    }

    /** Writes a new entry for `data`; `outcome` is what the device did. */
    method Update(data: Bytes) returns (ok: bool, ghost outcome: Outcome)
      requires Valid()
      modifies this, dev.card
      ensures Valid()
      ensures Landed(f.bs, data, outcome) <= BlocksFor(f.bs, data)
      ensures old(State(Region(), Mem())).Valid()
      ensures State(Region(), Mem()) == JournalModel.Update(f, old(State(Region(), Mem())), data, outcome)
      ensures ok <==> |data| <= maxDataBytes && outcome.Written?
      ensures SameOutside(old(dev.card.blocks), dev.card.blocks, start, start + length)
      ensures Replaced(f.bs, length, old(Current()), data, old(dev.card.answers), Current(), ok)
      ensures old(dev.card.answers) == [] ==> dev.card.answers == []
      ensures
        var at := if (start + length - old(nextBlock)) * dev.card.bs < 48 + |data| then start else old(nextBlock);
        nextBlock == if ok then at + BlocksFor(dev.card.bs, data)
                     else if 3 * (48 + |data|) <= length * dev.card.bs then at else old(nextBlock)
    {
      ghost var s := State(Region(), Mem());
      assert |s.disk| == length;
      AcceptedMeans(dev.card.bs, length, data);
      if |data| > maxDataBytes {
        return false, Written;
      }
      var revision := (current.revision + 1) % TWO32;
      var e := Entry(MAGIC, revision, |data|, hash(data), data);
      ghost var r := Record(revision, data);
      var cap := (start + length - nextBlock) * dev.card.bs % TWO32;
      CapIs(dev.card.bs, start, length, nextBlock);
      if cap < e.Size() {
        nextBlock := start;
      }
      ghost var at := Target(f.bs, length, s.mem.next, data);
      assert nextBlock == start + at;
      TargetFits(f.bs, length, s.mem.next, data);
      var numBlocks, done;
      ghost var landed;
      numBlocks, done, landed := WriteEntry(e, nextBlock, at, r);
      outcome := if done then Written else Failed(landed);
      UpdateDef(f, s, data, outcome, r, at, landed);
      if !done {
        return false, outcome;
      }
      nextBlock := nextBlock + numBlocks;
      current := e;
      assert Mem().next == at + landed;
      ok := true;
    }

    /** Marshals an entry and writes it to block `lba`, which is block `at` of the journal. */
    method WriteEntry(e: Entry, lba: nat, ghost at: nat, ghost r: Record)
      returns (numBlocks: nat, done: bool, ghost landed: nat)
      requires Mounted()
      requires e == EntryOf(hash, r) && lba == start + at && at + BlocksFor(f.bs, r.data) <= length
      modifies dev.card
      ensures Mounted()
      ensures landed <= BlocksFor(f.bs, r.data)
      ensures old(|Region()|) == length && Region() == AfterWrite(f, old(Region()), at, r, landed)
      ensures done ==> numBlocks == landed == BlocksFor(f.bs, r.data)
      ensures SameOutside(old(dev.card.blocks), dev.card.blocks, start, start + length)
      ensures done <==> AllDone(f.bs, BlocksFor(f.bs, r.data), old(dev.card.answers))
      ensures old(dev.card.answers) == [] ==> dev.card.answers == []
    {
      ghost var disk, region := dev.card.blocks, Region();
      assert |region| == length;
      var buf := Marshal(hash, e).value;
      ghost var image := Image(f, r);
      assert image == Chop(dev.card.bs, buf);
      numBlocks, done, landed := dev.WriteBlocks(lba, buf);
      TransferSucceeds(f.bs, |image|, |disk| - lba, old(dev.card.answers), MAX_TRANSFER_BYTES / f.bs);
      RegionWrite(disk, start, length, at, lba, image, landed, dev.card.blocks, region);
    }
  }

  /** The position after reading an entry leads to the first block behind it. */
  lemma Hop(br: BlockReader, lba: nat, e: Entry)
    requires br.Valid() && br.off == lba * br.dev.card.bs + e.Size()
    ensures NextBlock(br.pos, br.dev.card.bs) == lba + BlocksFor(br.dev.card.bs, e.data)
  {
    NextBlockIs(lba, e.Size(), br.dev.card.bs);
  }

  lemma CapIs(bs: nat, start: nat, length: nat, nextBlock: nat)
    requires start <= nextBlock <= start + length && length * bs < TWO32
    ensures (start + length - nextBlock) * bs % TWO32 == (length - (nextBlock - start)) * bs
  {
    var room := start + length - nextBlock;
    MulLe(room, length, bs);
    assert room == length - (nextBlock - start);
  }

  /** Two disks that differ at most in blocks `from` to `end`. */
  ghost predicate SameOutside(disk: seq<Block>, disk': seq<Block>, from: nat, end: nat) {
    |disk'| == |disk| && forall i | 0 <= i < |disk| && !(from <= i < end) :: disk'[i] == disk[i]
  }

  /** A write inside the journal's blocks, seen from the journal and from outside. */
  lemma RegionWrite(disk: seq<Block>, start: nat, length: nat, at: nat, lba: nat, image: seq<Block>, n: nat,
                    disk': seq<Block>, region: seq<Block>)
    requires start + length <= |disk| && lba == start + at && n <= |image| && at + n <= length
    requires region == disk[start..start + length]
    requires Landable(disk, lba, image, n) && disk' == Wrote(disk, lba, image, n)
    ensures |region| == length && |disk'| == |disk|
    ensures disk'[start..start + length] == Splice(region, at, image[..n])
    ensures SameOutside(disk, disk', start, start + length)
  {
    var region' := disk'[start..start + length];
    assert |region'| == |region| == length;
    forall i | 0 <= i < length
      ensures region'[i] == Splice(region, at, image[..n])[i]
    {
      assert region'[i] == disk'[start + i];
    }
  }
}
