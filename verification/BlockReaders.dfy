/**
 A byte stream over a block device, from any block to the end of the device, and the
 decoding of one journal entry from it. Byte positions are 32-bit unsigned integers.
 */
module BlockReaders {
  import opened Blocks
  import opened Entries
  import opened Mmc

  /** `buf` is the block that byte `off` lies in. */
  ghost predicate Buffered(bs: nat, blocks: seq<Block>, off: nat, buf: Bytes)
    requires bs > 0
  {
    var q: nat := off / bs;
    q < |blocks| && buf == blocks[q]
  }

  /** The bytes of a block from byte position `off` on. */
  function Rest(bs: nat, off: nat, buf: Bytes): (r: Bytes)
    requires bs > 0 && |buf| == bs
    ensures |r| == bs - off % bs
  {
    buf[off % bs..]
  }

  class BlockReader {
    const dev: Device
    var buf: Bytes
    var pos: nat
    /** The position without 32-bit wrap-around. */
    ghost var off: nat
    /** The bytes from here to the end of the device. */
    ghost var ahead: Bytes

    ghost predicate Valid()
      reads this, dev.card
    {
      && dev.Valid()
      && |buf| == dev.card.bs
      && off <= |Flat(dev.card.blocks)|
      && off <= TWO32
      && ahead == Flat(dev.card.blocks)[off..]
      && pos == off % TWO32
      && (off % dev.card.bs != 0 ==> ahead != [] && Buffered(dev.card.bs, dev.card.blocks, off, buf))
    }

    /** `n` more bytes end at or before the last 32-bit position, or the device ends before it. */
    ghost predicate Reaches(n: nat)
      reads this, dev.card
    {
      |Flat(dev.card.blocks)| < TWO32 || off + n <= TWO32
    }

    constructor (dev: Device, lba: nat)
      requires dev.Valid() && lba <= |dev.card.blocks| && lba * dev.card.bs <= TWO32
      ensures Valid() && this.dev == dev
      ensures off == lba * dev.card.bs && ahead == Flat(dev.card.blocks[lba..])
    {
      this.dev := dev;
      buf := Zeros(dev.card.bs);
      pos := lba * dev.card.bs % TWO32;
      off := lba * dev.card.bs;
      ahead := Flat(dev.card.blocks[lba..]);
      new;
      FlatDrop(dev.card.bs, dev.card.blocks, lba);
      ModMul(lba, dev.card.bs);
    }

    /** At the start of a block, fetches it into the buffer. */
    method Fill() returns (ok: bool)
      requires Valid() && Reaches(1)
      modifies this`buf
      ensures Valid()
      ensures ok <==> ahead != []
      ensures ok ==> pos == off && Rest(dev.card.bs, off, buf) <= ahead
      ensures ok ==> Buffered(dev.card.bs, dev.card.blocks, off, buf)
    {
      var bs := dev.card.bs;
      ok := true;
      if pos % bs == 0 {
        SelfMod(bs);
        var block := dev.ReadBlocks(pos / bs, bs);
        AtBoundary(bs, dev.card.blocks, off);
        if block.None? {
          return false;
        }
        buf := block.value;
      }
      InBlock(bs, dev.card.blocks, off, buf, ahead);
    }

    /** Reads at most `n` bytes, never past the end of the current block. */
    method Read(n: nat) returns (r: Option<Bytes>)
      requires Valid() && Reaches(1)
      modifies this
      ensures Valid()
      ensures r.Some? <==> old(ahead) != []
      ensures r.Some? ==>
        && r.value <= old(ahead) && |r.value| <= n && (n > 0 ==> r.value != [])
        && ahead == old(ahead)[|r.value|..] && off == old(off) + |r.value|
    {
      var ok := Fill();
      if !ok {
        return None;
      }
      var tail := Rest(dev.card.bs, pos, buf);
      var l := if n < |tail| then n else |tail|;
      r := Some(tail[..l]);
      AfterRead(dev.card.bs, dev.card.blocks, off, buf, l);
      pos := (pos + l) % TWO32;
      off := off + l;
      ahead := ahead[l..];
    }

    /** `io.ReadFull`: exactly `n` bytes, or an error. */
    method ReadFull(n: nat) returns (r: Option<Bytes>)
      requires Valid() && Reaches(n)
      modifies this
      ensures Valid()
      ensures r == if n <= |old(ahead)| then Some(old(ahead)[..n]) else None
      ensures r.Some? ==> ahead == old(ahead)[n..] && off == old(off) + n
    {
      var b: Bytes := [];
      while |b| < n
        invariant Valid()
        invariant |b| <= n && |b| <= |old(ahead)| && b == old(ahead)[..|b|]
        invariant ahead == old(ahead)[|b|..] && off == old(off) + |b|
      {
        var part := Read(n - |b|);
        if part.None? {
          return None;
        }
        b := b + part.value;
      }
      r := Some(b);
    }
  }

  /** `unmarshalEntry`: reads field by field and stops at the first error. */
  method ReadEntry(br: BlockReader, hash: Hash) returns (r: Result<Entry>)
    requires br.Valid() && br.Reaches(Claim(br.ahead))
    modifies br
    ensures br.Valid()
    ensures r == Unmarshal(hash, old(br.ahead))
    ensures r.Ok? ==> br.off == old(br.off) + r.value.Size()
  {
    ghost var s := br.ahead;
    var h := ReadHeader(br);
    if h.Err? {
      return Err(h.error);
    }
    var (revision, dataLen, sha) := h.value;
    var data := br.ReadFull(dataLen);
    if data.None? {
      return Err(ShortRead);
    }
    Field(s, HEADER_SIZE, dataLen);
    if hash(data.value) != sha {
      return Err(BadHash);
    }
    r := Ok(Entry(MAGIC, revision, dataLen, sha, data.value));
  }

  /** Magic, revision, data length and hash. */
  method ReadHeader(br: BlockReader) returns (r: Result<(nat, nat, Bytes)>)
    requires br.Valid() && br.Reaches(HEADER_SIZE)
    modifies br
    ensures br.Valid()
    ensures
      var s := old(br.ahead);
      r == if |s| < 4 then Err(ShortRead)
           else if s[..4] != MAGIC then Err(BadMagic)
           else if |s| < 8 then Err(ShortRead)
           else if FromBE(s[4..8]) == 0 then Err(ZeroRevision)
           else if |s| < HEADER_SIZE then Err(ShortRead)
           else Ok((FromBE(s[4..8]), FromBE(s[8..16]), s[16..48]))
    ensures r.Ok? ==> br.ahead == old(br.ahead)[HEADER_SIZE..] && br.off == old(br.off) + HEADER_SIZE
  {
    ghost var s := br.ahead;
    var magic := br.ReadFull(4);
    if magic.None? {
      return Err(ShortRead);
    }
    if magic.value != MAGIC {
      return Err(BadMagic);
    }
    var revision := br.ReadFull(4);
    if revision.None? {
      return Err(ShortRead);
    }
    Field(s, 4, 4);
    if FromBE(revision.value) == 0 {
      return Err(ZeroRevision);
    }
    var dataLen := br.ReadFull(8);
    if dataLen.None? {
      return Err(ShortRead);
    }
    Field(s, 8, 8);
    var sha := br.ReadFull(32);
    if sha.None? {
      return Err(ShortRead);
    }
    Field(s, 16, 32);
    r := Ok((FromBE(revision.value), FromBE(dataLen.value), sha.value));
  }

  /** The field of `n` bytes at `from`, and what follows it. */
  lemma Field(s: Bytes, from: nat, n: nat)
    requires from + n <= |s|
    ensures s[from..][..n] == s[from..from + n]
    ensures s[from..][n..] == s[from + n..]
  {
  }

  // ---------------------------------------------------------------------
  // Positions

  lemma SelfMod(bs: nat)
    requires bs > 0
    ensures bs % bs == 0
  {
    ModMul(1, bs);
  }

  /** At a block boundary there is a whole block, unless this is the end of the device. */
  lemma AtBoundary(bs: nat, blocks: seq<Block>, off: nat)
    requires bs > 0 && Uniform(bs, blocks) && off <= |Flat(blocks)| && off % bs == 0
    ensures off / bs * bs == off
    ensures off < |Flat(blocks)| <==> off + bs <= |Flat(blocks)|
    ensures off < |Flat(blocks)| ==> off / bs < |blocks| && Flat(blocks)[off..off + bs] == blocks[off / bs]
  {
    DivModParts(off, bs);
    if off < |Flat(blocks)| {
      InBlockParts(bs, blocks, off / bs, 0);
      assert blocks[off / bs][0..] == blocks[off / bs];
    }
  }

  /** The rest of the block at `off` comes next in the stream. */
  lemma InBlock(bs: nat, blocks: seq<Block>, off: nat, buf: Bytes, ahead: Bytes)
    requires bs > 0 && Uniform(bs, blocks) && off < |Flat(blocks)| && ahead == Flat(blocks)[off..]
    requires |buf| == bs && Buffered(bs, blocks, off, buf)
    ensures Rest(bs, off, buf) <= ahead
  {
    DivModParts(off, bs);
    InBlockAt(bs, blocks, off / bs, off % bs, off, buf, ahead);
  }

  lemma InBlockAt(bs: nat, blocks: seq<Block>, q: nat, w: nat, off: nat, buf: Bytes, ahead: Bytes)
    requires bs > 0 && Uniform(bs, blocks) && off == q * bs + w && w < bs
    requires off < |Flat(blocks)| && ahead == Flat(blocks)[off..]
    requires q < |blocks| && buf == blocks[q]
    ensures buf[w..] <= ahead
  {
    InBlockParts(bs, blocks, q, w);
  }

  lemma BlockIndex(q: nat, w: nat, n: nat, bs: nat)
    requires q * bs + w < n * bs
    ensures q < n
  {
    if n <= q {
      MulLe(n, q, bs);
    }
  }

  lemma InBlockParts(bs: nat, blocks: seq<Block>, q: nat, w: nat)
    requires bs > 0 && Uniform(bs, blocks) && w < bs && q * bs + w < |Flat(blocks)|
    ensures q < |blocks|
    ensures q * bs + bs <= |Flat(blocks)|
    ensures blocks[q][w..] == Flat(blocks)[q * bs + w..q * bs + bs]
  {
    FlatLength(bs, blocks);
    BlockIndex(q, w, |blocks|, bs);
    FlatDrop(bs, blocks, q);
    FirstBlock(bs, blocks, q);
    DropTake(Flat(blocks), q * bs, bs, w);
  }

  lemma DropTake(s: Bytes, from: nat, n: nat, w: nat)
    requires from + n <= |s| && w <= n
    ensures s[from..][..n][w..] == s[from + w..from + n]
  {
  }

  /** Reading on within a block stays in it or reaches its end. */
  lemma Advance(bs: nat, off: nat, l: nat)
    requires bs > 0 && l <= bs - off % bs
    ensures (off + l) % bs != 0 ==> (off + l) / bs == off / bs && l < bs - off % bs
  {
    var q, w := off / bs, off % bs;
    assert off == q * bs + w;
    assert (q + 1) * bs == q * bs + bs;
    if w + l < bs {
      DivUnique(off + l, bs, q);
    } else {
      ModMul(q + 1, bs);
    }
  }

  /** Block sizes divide 2^32, so a block that starts before byte 2^32 ends there or before. */
  lemma WithinPositions(bs: nat, off: nat)
    requires bs > 0 && MAX_TRANSFER_BYTES % bs == 0 && off < TWO32
    ensures off - off % bs + bs <= TWO32
  {
    var q, k := off / bs, MAX_TRANSFER_BYTES / bs;
    DivModParts(off, bs);
    DivModParts(MAX_TRANSFER_BYTES, bs);
    assert TWO32 == 131072 * (k * bs) == 131072 * k * bs;
    MulLess(131072 * k, q + 1, bs);
    MulStep(q + 1, bs);
  }

  /** After reading on, the buffer still holds the block at hand, unless it is used up. */
  lemma AfterRead(bs: nat, blocks: seq<Block>, off: nat, buf: Bytes, l: nat)
    requires bs > 0 && MAX_TRANSFER_BYTES % bs == 0 && off < TWO32
    requires Buffered(bs, blocks, off, buf) && l <= bs - off % bs
    ensures off + l <= TWO32
    ensures (off + l) % bs != 0 ==> Buffered(bs, blocks, off + l, buf) && l < bs - off % bs
  {
    Advance(bs, off, l);
    WithinPositions(bs, off);
  }

  /** Where the scan goes on after an entry: the block after the last byte read, in 32-bit arithmetic. */
  function NextBlock(pos: nat, bs: nat): nat
    requires bs > 0
  {
    (pos + TWO32 - 1) % TWO32 / bs + 1
  }

  /** Even when the position has wrapped to 0, the scan goes on at the first block after the entry. */
  lemma NextBlockIs(lba: nat, size: nat, bs: nat)
    requires bs > 0 && size > 0 && lba * bs + size <= TWO32
    ensures NextBlock((lba * bs + size) % TWO32, bs) == lba + CeilDiv(size, bs)
  {
    var off, k := lba * bs + size, CeilDiv(size, bs);
    assert (off % TWO32 + TWO32 - 1) % TWO32 == off - 1;
    assert k >= 1;
    assert (lba + k) * bs == lba * bs + k * bs;
    assert (lba + k - 1) * bs == (lba + k) * bs - bs;
    DivUnique(off - 1, bs, lba + k - 1);
  }
}
