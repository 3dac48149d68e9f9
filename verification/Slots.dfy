/**
 Partition geometry, and slots on a device. A slot's journal is opened on first use;
 locks are not modelled here, an operation runs to its end.
 */
module Slots {
  import opened Blocks
  import opened Entries
  import opened Mmc
  import opened BlockReaders
  import opened JournalModel
  import opened Headers
  import opened Journals
  import M = SlotModel

  // ---------------------------------------------------------------------
  // Geometry

  datatype Geometry = Geometry(start: nat, length: nat, slotLengths: seq<nat>)

  datatype Extent = Extent(start: nat, length: nat)

  /** The sum of the first `n` lengths. */
  function SumTo(s: seq<nat>, n: nat): nat
    requires n <= |s|
  {
    if n == 0 then 0 else SumTo(s, n - 1) + s[n - 1]
  }

  function Sum(s: seq<nat>): nat {
    SumTo(s, |s|)
  }

  lemma SumStep(s: seq<nat>, i: nat)
    requires i < |s|
    ensures SumTo(s, i + 1) == SumTo(s, i) + s[i]
  {
  }

  lemma {:induction false} SumMonotone(s: seq<nat>, i: nat, j: nat)
    requires i <= j <= |s|
    ensures SumTo(s, i) <= SumTo(s, j)
    decreases j
  {
    if i < j {
      SumMonotone(s, i, j - 1);
    }
  }

  /** Adds up the slot lengths in 32-bit arithmetic and compares. */
  method Validate(g: Geometry) returns (ok: bool)
    ensures ok <==> Sum(g.slotLengths) % TWO32 <= g.length
  {
    var t := 0;
    for i := 0 to |g.slotLengths|
      invariant t == SumTo(g.slotLengths, i) % TWO32
    {
      t := (t + g.slotLengths[i]) % TWO32;
    }
    ok := t <= g.length;
  }

  /** A geometry that validates fits exactly if the sum of its slot lengths does not overflow. */
  lemma ValidatedFits(g: Geometry)
    requires g.length < TWO32 && Sum(g.slotLengths) % TWO32 <= g.length
    ensures Sum(g.slotLengths) <= g.length <==> Sum(g.slotLengths) < TWO32
  {
    var sum := Sum(g.slotLengths);
    assert sum < TWO32 ==> sum % TWO32 == sum;
  }

  lemma NoOverflow(sum: nat)
    requires sum < TWO32
    ensures sum % TWO32 == sum
  {
  }

  /** An overflow that goes unnoticed. */
  lemma OverflowValidates()
    ensures
      var g := Geometry(0, 0, [0x8000_0000, 0x8000_0000]);
      Sum(g.slotLengths) % TWO32 <= g.length && !(Sum(g.slotLengths) <= g.length)
  {
    var s := [0x8000_0000, 0x8000_0000];
    assert SumTo(s, 2) == SumTo(s, 1) + s[1];
  }

  /** Slots lie one after the other from the start of the partition, in 32-bit arithmetic. */
  ghost predicate Laid(g: Geometry, slots: seq<Extent>) {
    && |slots| == |g.slotLengths|
    && forall i {:trigger slots[i]} | 0 <= i < |slots| ::
         slots[i] == Extent((g.start + SumTo(g.slotLengths, i)) % TWO32, g.slotLengths[i])
  }

  method OpenPartition(g: Geometry) returns (r: Option<seq<Extent>>)
    requires g.start < TWO32
    ensures r.Some? <==> Sum(g.slotLengths) % TWO32 <= g.length
    ensures r.Some? ==> Laid(g, r.value)
  {
    var ok := Validate(g);
    if !ok {
      return None;
    }
    var slots: seq<Extent> := [];
    var b := g.start;
    for i := 0 to |g.slotLengths|
      invariant |slots| == i && b == (g.start + SumTo(g.slotLengths, i)) % TWO32
      invariant forall j {:trigger slots[j]} | 0 <= j < i ::
        slots[j] == Extent((g.start + SumTo(g.slotLengths, j)) % TWO32, g.slotLengths[j])
    {
      var l := g.slotLengths[i];
      slots := slots + [Extent(b, l)];
      b := (b + l) % TWO32;
    }
    r := Some(slots);
  }

  /** The slots of a partition that fits, and ends inside the 32-bit block addresses, are disjoint and inside it. */
  lemma SlotsDisjoint(g: Geometry, slots: seq<Extent>, i: nat, j: nat)
    requires Laid(g, slots) && Sum(g.slotLengths) <= g.length && g.start + g.length < TWO32 && i < j < |slots|
    ensures slots[i].start + slots[i].length <= slots[j].start
    ensures g.start <= slots[i].start && slots[j].start + slots[j].length <= g.start + g.length
  {
    var s := g.slotLengths;
    SumStep(s, i);
    SumStep(s, j);
    SumMonotone(s, i + 1, j);
    SumMonotone(s, j + 1, |s|);
    assert slots[i] == Extent((g.start + SumTo(s, i)) % TWO32, s[i]);
    assert slots[j] == Extent((g.start + SumTo(s, j)) % TWO32, s[j]);
  }

  /**
   `openStorage`: as many slots of `slotLength` blocks as it takes to reach `length`, which
   the 32-bit loop counter must be able to pass.
   */
  method EqualSlots(start: nat, length: nat, slotLength: nat) returns (g: Geometry)
    requires slotLength > 0 && length + slotLength <= TWO32
    ensures g.start == start && g.length == length
    ensures forall i | 0 <= i < |g.slotLengths| :: g.slotLengths[i] == slotLength
    ensures |g.slotLengths| == CeilDiv(length, slotLength)
  {
    var slotLengths: seq<nat> := [];
    var i := 0;
    while i < length
      invariant i == |slotLengths| * slotLength < length + slotLength
      invariant forall j | 0 <= j < |slotLengths| :: slotLengths[j] == slotLength
      decreases length + slotLength - i
    {
      MulStep(|slotLengths| + 1, slotLength);
      slotLengths := slotLengths + [slotLength];
      i := (i + slotLength) % TWO32;
    }
    CeilDivUnique(length, slotLength, |slotLengths|);
    g := Geometry(start, length, slotLengths);
  }

  lemma {:induction false} SumEqual(s: seq<nat>, x: nat, n: nat)
    requires n <= |s| && forall i | 0 <= i < |s| :: s[i] == x
    ensures SumTo(s, n) == n * x
  {
    if n > 0 {
      SumEqual(s, x, n - 1);
      MulStep(n, x);
    }
  }

  /** Equal slots validate, and fit their partition, exactly if the slot length divides the partition length. */
  lemma EqualSlotsFit(g: Geometry, slotLength: nat)
    requires slotLength > 0 && g.length + slotLength <= TWO32
    requires forall i | 0 <= i < |g.slotLengths| :: g.slotLengths[i] == slotLength
    requires |g.slotLengths| == CeilDiv(g.length, slotLength)
    ensures Sum(g.slotLengths) % TWO32 <= g.length <==> g.length % slotLength == 0
    ensures Sum(g.slotLengths) <= g.length <==> g.length % slotLength == 0
  {
    SumEqual(g.slotLengths, slotLength, |g.slotLengths|);
    var k := |g.slotLengths|;
    assert Sum(g.slotLengths) < TWO32;
    NoOverflow(Sum(g.slotLengths));
    if g.length % slotLength == 0 {
      DivModParts(g.length, slotLength);
      CeilDivUnique(g.length, slotLength, g.length / slotLength);
    }
    if k * slotLength <= g.length {
      ModMul(k, slotLength);
    }
  }

  /**
   The deployed geometry: 4096 slots of 1024 blocks from block 0x400000 on, with 512-byte
   blocks. It fits, it ends exactly at byte 2^32, every slot's bytes fit 32 bits, the scan
   goes on correctly from there, and slot lengths are 1 modulo 3.
   */
  lemma Deployed(g: Geometry)
    requires g.start == 0x40_0000 && g.length == 0x40_0000
    requires forall i | 0 <= i < |g.slotLengths| :: g.slotLengths[i] == 1024
    requires |g.slotLengths| == CeilDiv(g.length, 1024)
    ensures |g.slotLengths| == 4096 && Sum(g.slotLengths) == g.length
    ensures (g.start + g.length) * 512 == TWO32 && 1024 * 512 < TWO32
    ensures NextBlock(0, 512) == g.start + g.length
    ensures 1024 % 3 == 1 && MaxData(512, 1024) == 174762 - HEADER_SIZE
  {
    SumEqual(g.slotLengths, 1024, |g.slotLengths|);
    CeilDivUnique(g.length, 1024, 4096);
  }

  // ---------------------------------------------------------------------
  // Slots

  /** No header of a sound slot claims bytes beyond the last 32-bit position. */
  lemma ClaimsReachable(c: Setting, disk: seq<Block>, start: nat, length: nat)
    requires start + length <= |disk| && Uniform(c.f.bs, disk) && (start + length) * c.f.bs <= TWO32
    requires Sound(c, disk[start..start + length])
    ensures forall p | start <= p < start + length :: p * c.f.bs + Claim(Flat(disk[p..])) <= TWO32
  {
    forall p | start <= p < start + length
      ensures p * c.f.bs + Claim(Flat(disk[p..])) <= TWO32
    {
      var i := p - start;
      assert start + i == p;
      RegionPoint(c, disk, start, length, i);
    }
  }

  /** No header in these blocks claims bytes beyond the last 32-bit position, unless the device ends before it. */
  ghost predicate Reachable(bs: nat, disk: seq<Block>, start: nat, length: nat)
    requires start + length <= |disk|
  {
    |Flat(disk)| < TWO32 || forall p | start <= p < start + length :: p * bs + Claim(Flat(disk[p..])) <= TWO32
  }

  /** Opens the journal in a range of blocks; none if it is corrupt. */
  method OpenJournal(dev: Device, hash: Hash, start: nat, length: nat) returns (j: Journal?)
    requires dev.Valid() && Format(dev.card.bs, hash).Valid() && start + length <= |dev.card.blocks|
    requires (start + length) * dev.card.bs <= TWO32 && length * dev.card.bs < TWO32
    requires Reachable(dev.card.bs, dev.card.blocks, start, length)
    ensures
      var f := Format(dev.card.bs, hash);
      var r := Scan(dev.card.bs, ViewOf(f, dev.card.blocks)[start..start + length]);
      && (j != null <==> r.Opened?)
      && (j != null ==>
            && fresh(j) && j.Valid() && j.Mem() == r.mem
            && j.dev == dev && j.hash == hash && j.start == start && j.length == length)
  {
    var k := new Journal(dev, hash, start, length);
    var ok := k.Init();
    j := if ok then k else null;
  }

  class Slot {
    const dev: Device
    const hash: Hash
    const start: nat
    const length: nat
    var journal: Journal?

    const f: Format := Format(dev.card.bs, hash)

    constructor (dev: Device, hash: Hash, start: nat, length: nat)
      requires dev.Valid() && Format(dev.card.bs, hash).Valid()
      requires start + length <= |dev.card.blocks|
      requires (start + length) * dev.card.bs <= TWO32 && length * dev.card.bs < TWO32
      ensures Valid() && journal == null
      ensures this.dev == dev && this.hash == hash && this.start == start && this.length == length
    {
      this.dev, this.hash, this.start, this.length := dev, hash, start, length;
      journal := null;
    }

    ghost predicate Valid()
      reads this, journal, dev.card
    {
      && dev.Valid()
      && f.Valid()
      && start + length <= |dev.card.blocks|
      && (start + length) * dev.card.bs <= TWO32
      && length * dev.card.bs < TWO32
      && (journal != null ==>
            && journal.dev == dev && journal.hash == hash
            && journal.start == start && journal.length == length
            && journal.Valid())
    }

    /** The slot as a value. */
    ghost function Value(): (s: M.Slot)
      requires Valid()
      reads this, journal, dev.card
      ensures s.Valid() && |s.disk| == length
    {
      M.Slot(dev.card.blocks[start..start + length], if journal == null then None else Some(journal.Mem()))
    }

    /** Opens the journal unless it is open, from what a scan of the slot's blocks finds. */
    method Open() returns (ok: bool)
      requires Valid() && Reachable(f.bs, dev.card.blocks, start, length)
      modifies this
      ensures Valid() && (journal != old(journal) ==> fresh(journal))
      ensures ok <==> journal != null
      ensures old(journal) != null ==> journal == old(journal)
      ensures old(journal) == null ==>
        var r := Scan(f.bs, ViewOf(f, dev.card.blocks)[start..start + length]);
        if r.Opened? then Value() == old(Value()).(mem := Some(r.mem)) else journal == null
    {
      if journal != null {
        return true;
      }
      var j := OpenJournal(dev, hash, start, length);
      ok := j != null;
      if ok {
        journal := j;
      }
    }

    /** On a sound slot only the slot's own blocks matter. */
    method OpenSound(ghost c: Setting) returns (ok: bool)
      requires Valid()
      requires c.f == f && Sound(c, Value().disk)
      modifies this
      ensures Valid() && (journal != old(journal) ==> fresh(journal))
      ensures Value() == M.Open(f, old(Value()))
      ensures ok <==> Value().mem.Some?
    {
      RegionView(c, dev.card.blocks, start, length);
      ClaimsReachable(c, dev.card.blocks, start, length);
      ok := Open();
    }

    /** The last data written and the token for `CheckAndWrite`. */
    method Read() returns (data: Bytes, token: nat)
      requires Valid() && journal != null
      ensures Record(token, data) == Value().Current()
    {
      data, token := journal.current.data, journal.current.revision;
    }

    method Write(data: Bytes) returns (ok: bool, ghost outcome: Outcome)
      requires Valid() && journal != null
      modifies journal, dev.card
      ensures Valid() && Landed(f.bs, data, outcome) <= BlocksFor(f.bs, data)
      ensures Value() == M.Write(f, old(Value()), data, outcome)
      ensures ok <==> M.Succeeds(f.bs, old(Value()), data, outcome)
      ensures SameOutside(old(dev.card.blocks), dev.card.blocks, start, start + length)
      ensures Replaced(f.bs, length, old(Value()).Current(), data, old(dev.card.answers), Value().Current(), ok)
      ensures old(dev.card.answers) == [] ==> dev.card.answers == []
    {
      assert Value() == M.Slot(journal.Region(), Some(journal.Mem()));
      ok, outcome := journal.Update(data);
      assert Value() == M.Slot(journal.Region(), Some(journal.Mem()));
    }

    /** Writes only if nothing was written since the read that gave the token. */
    method CheckAndWrite(token: nat, data: Bytes) returns (ok: bool, ghost outcome: Outcome)
      requires Valid() && journal != null
      modifies journal, dev.card
      ensures Valid() && Landed(f.bs, data, outcome) <= BlocksFor(f.bs, data)
      ensures Value() == M.CheckAndWrite(f, old(Value()), token, data, outcome)
      ensures ok <==> token == old(Value()).Current().revision && M.Succeeds(f.bs, old(Value()), data, outcome)
      ensures SameOutside(old(dev.card.blocks), dev.card.blocks, start, start + length)
      ensures token == old(Value()).Current().revision ==>
        Replaced(f.bs, length, old(Value()).Current(), data, old(dev.card.answers), Value().Current(), ok)
      ensures token != old(Value()).Current().revision ==> !ok && Value() == old(Value())
      ensures old(dev.card.answers) == [] ==> dev.card.answers == []
    {
      if journal.current.revision != token {
        return false, Written;
      }
      ok, outcome := Write(data);
    }
  }

  /** What one slot writes does not show in another slot's blocks. */
  lemma OtherSlotUntouched(disk: seq<Block>, disk': seq<Block>, a: Extent, b: Extent)
    requires SameOutside(disk, disk', a.start, a.start + a.length)
    requires a.start + a.length <= b.start || b.start + b.length <= a.start
    requires b.start + b.length <= |disk|
    ensures disk'[b.start..b.start + b.length] == disk[b.start..b.start + b.length]
  {
    var s, s' := disk[b.start..b.start + b.length], disk'[b.start..b.start + b.length];
    forall i | 0 <= i < b.length
      ensures s'[i] == s[i]
    {
      assert s'[i] == disk'[b.start + i] && s[i] == disk[b.start + i];
    }
  }
}
