/**
 From blocks to views. Every block that looks like an entry header was written as one,
 no data block looks like a header, and no two payloads compared share a hash; then a
 write, whole or torn, changes the view in the way the crash-safety argument expects.
 */
module Headers {
  import opened Blocks
  import opened Entries
  import opened JournalModel
  import opened CrashSafety

  /** The format together with all payloads ever passed to `Update`. */
  datatype Setting = Setting(f: Format, payloads: set<Bytes>)

  predicate IsHeader(b: Block) {
    |b| >= 4 && b[..4] == MAGIC
  }

  /** The part of the data that starts block `j` of its record. */
  function TailAt(bs: nat, data: Bytes, j: nat): Bytes {
    if HEADER_SIZE <= j * bs <= HEADER_SIZE + |data| then data[j * bs - HEADER_SIZE..] else []
  }

  /** `t` and the magic number agree on all the bytes they both have. */
  ghost predicate MagicLike(t: Bytes) {
    forall i | 0 <= i < 4 && i < |t| :: t[i] == MAGIC[i]
  }

  /** No block of the record after its first could be taken for a header. */
  ghost predicate Plain(bs: nat, data: Bytes)
    requires bs > 0
  {
    forall j | 1 <= j < BlocksFor(bs, data) :: !MagicLike(TailAt(bs, data, j))
  }

  /** The records `Update` may write to a journal of this length. */
  ghost predicate Permitted(c: Setting, length: nat, r: Record)
    requires c.f.bs > 0
  {
    && 1 <= r.revision < TWO32
    && r.data in c.payloads
    && |r.data| <= MaxData(c.f.bs, length)
    && Plain(c.f.bs, r.data)
  }

  ghost predicate WrittenAt(c: Setting, disk: seq<Block>, p: nat, r: Record)
    requires c.f.Valid() && p < |disk|
  {
    && Permitted(c, |disk|, r)
    && p + BlocksFor(c.f.bs, r.data) <= |disk|
    && disk[p] == Image(c.f, r)[0]
  }

  /** Every header on the disk is the first block of a permitted record that fits behind it. */
  ghost predicate Provenance(c: Setting, disk: seq<Block>)
    requires c.f.Valid()
  {
    forall p | 0 <= p < |disk| && IsHeader(disk[p]) :: exists r :: WrittenAt(c, disk, p, r)
  }

  /** The `n` bytes that follow a header at block `p`. */
  function Body(disk: seq<Block>, p: nat, n: nat): Bytes
    requires p <= |disk|
  {
    var s := Flat(disk[p..]);
    if HEADER_SIZE + n <= |s| then s[HEADER_SIZE..HEADER_SIZE + n] else []
  }

  /** A header at `p` claims the hash of payload `d`; if the bytes there have it, they are `d`. */
  ghost predicate Distinguishes(f: Format, disk: seq<Block>, p: nat, d: Bytes)
    requires p < |disk|
  {
    && |disk[p]| >= HEADER_SIZE
    && IsHeader(disk[p])
    && disk[p][8..16] == ToBE(|d|, 8)
    && disk[p][16..48] == f.hash(d)
    && f.hash(Body(disk, p, |d|)) == f.hash(d)
    && |Body(disk, p, |d|)| == |d|
    ==> Body(disk, p, |d|) == d
  }

  /** No hash collision between a payload and the bytes a header on this disk is checked against. */
  ghost predicate NoCollision(c: Setting, disk: seq<Block>) {
    forall p, d | 0 <= p < |disk| && d in c.payloads :: Distinguishes(c.f, disk, p, d)
  }

  ghost predicate Sound(c: Setting, disk: seq<Block>) {
    && c.f.Valid()
    && Uniform(c.f.bs, disk)
    && |disk| * c.f.bs < TWO32
    && Provenance(c, disk)
    && NoCollision(c, disk)
  }

  // ---------------------------------------------------------------------
  // Parsing

  lemma FlatByte(bs: nat, disk: seq<Block>, p: nat, j: nat, t: nat)
    requires bs > 0 && Uniform(bs, disk) && p + j < |disk| && t < bs
    ensures j * bs + t < |Flat(disk[p..])|
    ensures Flat(disk[p..])[j * bs + t] == disk[p + j][t]
  {
    FlatDrop(bs, disk[p..], j);
    assert disk[p..][j..] == disk[p + j..];
    FirstBlock(bs, disk, p + j);
  }

  lemma NotHeaderNoEntry(f: Format, disk: seq<Block>, p: nat)
    requires f.Valid() && Uniform(f.bs, disk) && p < |disk|
    requires !IsHeader(disk[p])
    ensures ParseAt(f, disk, p) == None
  {
    FirstBlock(f.bs, disk, p);
    assert Flat(disk[p..])[..4] == disk[p][..4];
  }

  /** An entry is found exactly where its bytes are. */
  lemma ParseIff(f: Format, disk: seq<Block>, p: nat, r: Record)
    requires f.Valid() && p <= |disk|
    requires 1 <= r.revision < TWO32 && |r.data| < TWO64
    ensures ParseAt(f, disk, p) == Some(r) <==> Encode(f.hash, r) <= Flat(disk[p..])
  {
    var s, e := Flat(disk[p..]), Encode(f.hash, r);
    if e <= s {
      assert s == e + s[|e|..];
      MarshalThenUnmarshal(f.hash, r, s[|e|..]);
    }
    if ParseAt(f, disk, p) == Some(r) {
      UnmarshalThenMarshal(f.hash, s);
    }
  }

  lemma ImageHeader(f: Format, r: Record)
    requires f.Valid()
    ensures |Image(f, r)[0]| == f.bs
    ensures
      var b := Image(f, r)[0];
      b[..4] == MAGIC && b[4..8] == ToBE(r.revision, 4) && b[8..16] == ToBE(|r.data|, 8) && b[16..48] == f.hash(r.data)
  {
    var e := Encode(f.hash, r);
    EncodeParts(f.hash, r, []);
    assert e + [] == e;
    assert Image(f, r)[0][..48] == e[..48];
  }

  lemma PermittedSize(c: Setting, length: nat, r: Record)
    requires c.f.Valid() && length * c.f.bs < TWO32
    requires Permitted(c, length, r)
    ensures |r.data| < TWO32
    ensures BlocksFor(c.f.bs, r.data) <= MaxBlocks(c.f.bs, length)
  {
    CeilDivMonotone(HEADER_SIZE + |r.data|, length * c.f.bs / MIN_ENTRIES, c.f.bs);
  }

  /** Under a header written for `r0`, only `r0` can be found. */
  lemma OnlyWritten(c: Setting, disk: seq<Block>, p: nat, r0: Record, r: Record)
    requires c.f.Valid() && Uniform(c.f.bs, disk) && |disk| * c.f.bs < TWO32 && NoCollision(c, disk)
    requires p < |disk| && WrittenAt(c, disk, p, r0)
    requires ParseAt(c.f, disk, p) == Some(r)
    ensures r == r0
  {
    var s := Flat(disk[p..]);
    FirstBlock(c.f.bs, disk, p);
    UnmarshalThenMarshal(c.f.hash, s);
    ImageHeader(c.f, r0);
    PermittedSize(c, |disk|, r0);
    assert s[4..8] == disk[p][4..8] && s[8..16] == disk[p][8..16] && s[16..48] == disk[p][16..48];
    Widths();
    FromToBE(r0.revision, 4);
    FromToBE(|r0.data|, 8);
    assert Distinguishes(c.f, disk, p, r0.data);
  }

  /** On a sound disk, what is found at a block is what was written there, and it lies inside the disk. */
  lemma FoundIsWritten(c: Setting, disk: seq<Block>, p: nat)
    requires Sound(c, disk)
    requires p < |disk| && ParseAt(c.f, disk, p).Some?
    ensures WrittenAt(c, disk, p, ParseAt(c.f, disk, p).value)
  {
    if !IsHeader(disk[p]) {
      NotHeaderNoEntry(c.f, disk, p);
    }
    var r0 :| WrittenAt(c, disk, p, r0);
    OnlyWritten(c, disk, p, r0, ParseAt(c.f, disk, p).value);
  }

  /** No header lies inside an entry. */
  lemma NoHeaderInside(c: Setting, disk: seq<Block>, p: nat, r: Record, j: nat)
    requires c.f.Valid() && Uniform(c.f.bs, disk) && |disk| * c.f.bs < TWO32
    requires p < |disk| && ParseAt(c.f, disk, p) == Some(r) && WrittenAt(c, disk, p, r)
    requires 1 <= j < BlocksFor(c.f.bs, r.data)
    ensures !IsHeader(disk[p + j])
  {
    var bs := c.f.bs;
    var s, e := Flat(disk[p..]), Encode(c.f.hash, r);
    PermittedSize(c, |disk|, r);
    ParseIff(c.f, disk, p, r);
    InsideBytes(bs, r.data, j);
    if IsHeader(disk[p + j]) {
      var tail := TailAt(bs, r.data, j);
      forall i | 0 <= i < 4 && i < |tail|
        ensures tail[i] == MAGIC[i]
      {
        FlatByte(bs, disk, p, j, i);
        DataByte(c.f.hash, r, j * bs + i);
        assert s[j * bs + i] == e[j * bs + i];
        assert disk[p + j][..4][i] == disk[p + j][i];
      }
    }
  }

  /** Blocks after the first start inside the data. */
  lemma InsideBytes(bs: nat, data: Bytes, j: nat)
    requires bs >= HEADER_SIZE && 1 <= j < BlocksFor(bs, data)
    ensures HEADER_SIZE <= bs <= j * bs < HEADER_SIZE + |data|
  {
    MulLess(j, BlocksFor(bs, data), bs);
    MulLe(1, j, bs);
  }

  lemma ImageNoHeaderInside(f: Format, r: Record, j: nat)
    requires f.Valid() && Plain(f.bs, r.data)
    requires 1 <= j < BlocksFor(f.bs, r.data)
    ensures j < |Image(f, r)| && !IsHeader(Image(f, r)[j])
  {
    var e, b := Encode(f.hash, r), Image(f, r);
    ImageHeader(f, r);
    InsideBytes(f.bs, r.data, j);
    if IsHeader(b[j]) {
      var tail := TailAt(f.bs, r.data, j);
      forall i | 0 <= i < 4 && i < |tail|
        ensures tail[i] == MAGIC[i]
      {
        ChopAt(f.bs, e, j, i);
        DataByte(f.hash, r, j * f.bs + i);
        assert b[j][..4][i] == b[j][i];
      }
    }
  }

  /** An entry is still found when its own blocks are the same. */
  lemma SameBlocksSameEntry(c: Setting, disk: seq<Block>, disk': seq<Block>, p: nat, r: Record)
    requires c.f.Valid() && Uniform(c.f.bs, disk) && Uniform(c.f.bs, disk') && |disk'| == |disk|
    requires |disk| * c.f.bs < TWO32
    requires p < |disk| && ParseAt(c.f, disk, p) == Some(r) && WrittenAt(c, disk, p, r)
    requires disk'[p..p + BlocksFor(c.f.bs, r.data)] == disk[p..p + BlocksFor(c.f.bs, r.data)]
    ensures ParseAt(c.f, disk', p) == Some(r)
  {
    var k := BlocksFor(c.f.bs, r.data);
    PermittedSize(c, |disk|, r);
    ParseIff(c.f, disk, p, r);
    ParseIff(c.f, disk', p, r);
    EncodeParts(c.f.hash, r, []);
    SameFlatPrefix(c.f.bs, disk, disk', p, k);
    SamePrefix(Flat(disk[p..]), Flat(disk'[p..]), k * c.f.bs, Encode(c.f.hash, r));
  }

  lemma SameFlatPrefix(bs: nat, disk: seq<Block>, disk': seq<Block>, p: nat, k: nat)
    requires Uniform(bs, disk) && Uniform(bs, disk') && |disk'| == |disk|
    requires p + k <= |disk| && disk'[p..p + k] == disk[p..p + k]
    ensures k * bs <= |Flat(disk[p..])| && k * bs <= |Flat(disk'[p..])|
    ensures Flat(disk[p..])[..k * bs] == Flat(disk'[p..])[..k * bs]
  {
    FlatTake(bs, disk[p..], k);
    FlatTake(bs, disk'[p..], k);
    assert disk[p..][..k] == disk[p..p + k] == disk'[p..][..k];
  }

  lemma SamePrefix(s: Bytes, s': Bytes, n: nat, e: Bytes)
    requires n <= |s| && n <= |s'| && s[..n] == s'[..n]
    requires e <= s && |e| <= n
    ensures e <= s'
  {
    assert e == s[..n][..|e|];
  }

  // ---------------------------------------------------------------------
  // Views of sound disks

  lemma FoundIntact(c: Setting, disk: seq<Block>, p: nat)
    requires Sound(c, disk)
    requires p < |disk| && ParseAt(c.f, disk, p).Some?
    ensures
      var k := BlocksFor(c.f.bs, ParseAt(c.f, disk, p).value.data);
      && k <= MaxBlocks(c.f.bs, |disk|)
      && p + k <= |disk|
      && forall i | p < i < p + k :: ParseAt(c.f, disk, i) == None
  {
    var r := ParseAt(c.f, disk, p).value;
    FoundIsWritten(c, disk, p);
    PermittedSize(c, |disk|, r);
    forall i | p < i < p + BlocksFor(c.f.bs, r.data)
      ensures ParseAt(c.f, disk, i) == None
    {
      NoHeaderInside(c, disk, p, r, i - p);
      NotHeaderNoEntry(c.f, disk, i);
    }
  }

  lemma SoundClean(c: Setting, disk: seq<Block>)
    requires Sound(c, disk)
    ensures Clean(c.f.bs, ViewOf(c.f, disk))
  {
    var v := ViewOf(c.f, disk);
    forall p | 0 <= p < |v| && v[p].Some?
      ensures Intact(c.f.bs, v, p)
    {
      ViewAt(c.f, disk, p);
      FoundIntact(c, disk, p);
      forall i | p < i < End(c.f.bs, v, p)
        ensures v[i].None?
      {
        ViewAt(c.f, disk, i);
      }
    }
  }

  lemma WriteProvenance(c: Setting, disk: seq<Block>, at: nat, r: Record, n: nat)
    requires Sound(c, disk)
    requires Permitted(c, |disk|, r)
    requires n <= BlocksFor(c.f.bs, r.data)
    requires at + BlocksFor(c.f.bs, r.data) <= |disk|
    ensures
      var disk' := AfterWrite(c.f, disk, at, r, n);
      && Provenance(c, disk')
      && (n > 0 ==> WrittenAt(c, disk', at, r))
      && (forall i | at < i < at + n :: !IsHeader(disk'[i]))
  {
    var disk' := AfterWrite(c.f, disk, at, r, n);
    forall i | at < i < at + n
      ensures !IsHeader(disk'[i])
    {
      ImageNoHeaderInside(c.f, r, i - at);
    }
    forall p | 0 <= p < |disk'| && IsHeader(disk'[p])
      ensures exists r' :: WrittenAt(c, disk', p, r')
    {
      if p == at && n > 0 {
        assert WrittenAt(c, disk', p, r);
      } else {
        var r' :| WrittenAt(c, disk, p, r');
        assert WrittenAt(c, disk', p, r');
      }
    }
  }

  /** A whole or torn write changes the view of a sound disk as expected. */
  lemma WriteOverlays(c: Setting, disk: seq<Block>, at: nat, r: Record, n: nat)
    requires Sound(c, disk)
    requires Permitted(c, |disk|, r)
    requires n <= BlocksFor(c.f.bs, r.data)
    requires at + BlocksFor(c.f.bs, r.data) <= |disk|
    requires NoCollision(c, AfterWrite(c.f, disk, at, r, n))
    ensures Sound(c, AfterWrite(c.f, disk, at, r, n))
    ensures Overlaid(c.f.bs, ViewOf(c.f, disk), ViewOf(c.f, AfterWrite(c.f, disk, at, r, n)), at, r, n)
  {
    var disk' := AfterWrite(c.f, disk, at, r, n);
    WriteProvenance(c, disk, at, r, n);
    var v, w := ViewOf(c.f, disk), ViewOf(c.f, disk');
    if n == 0 {
      assert disk' == disk;
    } else {
      forall i | 0 <= i < |v|
        ensures Overlays(c.f.bs, at, r, n, i, v[i], w[i])
      {
        ViewAt(c.f, disk, i);
        ViewAt(c.f, disk', i);
        OverlaysAt(c, disk, at, r, n, i);
      }
      assert Overlays(c.f.bs, at, r, n, at, v[at], w[at]);
    }
  }

  /** Writing `n` blocks of `r` at `at` turns what is found at block `i` from `found` into `found'`. */
  ghost predicate Overlays(bs: nat, at: nat, r: Record, n: nat, i: nat, found: Option<Record>, found': Option<Record>)
    requires bs > 0
  {
    if i < at then
      found' == if found.Some? && i + BlocksFor(bs, found.value.data) > at then None else found
    else if i == at then
      found' == Some(r) || (found' == None && n < BlocksFor(bs, r.data))
    else if i < at + n then
      found' == None
    else
      found' == found
  }

  lemma OverlaysAt(c: Setting, disk: seq<Block>, at: nat, r: Record, n: nat, i: nat)
    requires Sound(c, disk)
    requires Permitted(c, |disk|, r)
    requires 0 < n <= BlocksFor(c.f.bs, r.data)
    requires at + BlocksFor(c.f.bs, r.data) <= |disk| && i < |disk|
    requires Sound(c, AfterWrite(c.f, disk, at, r, n))
    ensures Overlays(c.f.bs, at, r, n, i, ParseAt(c.f, disk, i), ParseAt(c.f, AfterWrite(c.f, disk, at, r, n), i))
  {
    var disk' := AfterWrite(c.f, disk, at, r, n);
    if i < at {
      OverlaidBefore(c, disk, at, r, n, i);
    } else if i == at {
      OverlaidHead(c, disk, at, r, n);
    } else if i < at + n {
      ImageNoHeaderInside(c.f, r, i - at);
      NotHeaderNoEntry(c.f, disk', i);
    } else {
      assert disk'[i..] == disk[i..];
    }
  }

  lemma OverlaidHead(c: Setting, disk: seq<Block>, at: nat, r: Record, n: nat)
    requires Sound(c, disk)
    requires Permitted(c, |disk|, r)
    requires 0 < n <= BlocksFor(c.f.bs, r.data)
    requires at + BlocksFor(c.f.bs, r.data) <= |disk|
    requires NoCollision(c, AfterWrite(c.f, disk, at, r, n))
    ensures
      var found := ParseAt(c.f, AfterWrite(c.f, disk, at, r, n), at);
      && (found == None || found == Some(r))
      && (n == BlocksFor(c.f.bs, r.data) ==> found == Some(r))
  {
    var disk' := AfterWrite(c.f, disk, at, r, n);
    WriteProvenance(c, disk, at, r, n);
    if ParseAt(c.f, disk', at).Some? {
      OnlyWritten(c, disk', at, r, ParseAt(c.f, disk', at).value);
    }
    if n == BlocksFor(c.f.bs, r.data) {
      PermittedSize(c, |disk|, r);
      WholeIsFound(c.f, disk', at, r);
    }
  }

  lemma WholeIsFound(f: Format, disk: seq<Block>, at: nat, r: Record)
    requires f.Valid() && 1 <= r.revision < TWO32 && |r.data| < TWO64
    requires at + |Image(f, r)| <= |disk| && disk[at..at + |Image(f, r)|] == Image(f, r)
    ensures ParseAt(f, disk, at) == Some(r)
  {
    var n := |Image(f, r)|;
    assert disk[at..] == Image(f, r) + disk[at + n..];
    FlatConcat(Image(f, r), disk[at + n..]);
    FlatChop(f.bs, Encode(f.hash, r));
    ParseIff(f, disk, at, r);
  }

  /** An entry that ends before the blocks written is still found. */
  lemma EntrySurvives(c: Setting, disk: seq<Block>, at: nat, r: Record, n: nat, i: nat)
    requires Sound(c, disk)
    requires n <= BlocksFor(c.f.bs, r.data) && at + n <= |disk| && i < at
    requires ParseAt(c.f, disk, i).Some?
    requires i + BlocksFor(c.f.bs, ParseAt(c.f, disk, i).value.data) <= at
    ensures ParseAt(c.f, AfterWrite(c.f, disk, at, r, n), i) == ParseAt(c.f, disk, i)
  {
    var disk' := AfterWrite(c.f, disk, at, r, n);
    var e := ParseAt(c.f, disk, i).value;
    FoundIsWritten(c, disk, i);
    var k := BlocksFor(c.f.bs, e.data);
    assert disk'[i..i + k] == disk[i..i + k];
    SameBlocksSameEntry(c, disk, disk', i, e);
  }

  /** An entry found before the blocks written ends before them and was there already. */
  lemma EntryWasThere(c: Setting, disk: seq<Block>, at: nat, r: Record, n: nat, i: nat)
    requires Sound(c, disk)
    requires 0 < n <= BlocksFor(c.f.bs, r.data) && at + n <= |disk| && i < at
    requires
      var disk' := AfterWrite(c.f, disk, at, r, n);
      NoCollision(c, disk') && ParseAt(c.f, disk', i).Some?
    ensures ParseAt(c.f, disk, i) == ParseAt(c.f, AfterWrite(c.f, disk, at, r, n), i)
    ensures i + BlocksFor(c.f.bs, ParseAt(c.f, disk, i).value.data) <= at
  {
    var disk' := AfterWrite(c.f, disk, at, r, n);
    var e := ParseAt(c.f, disk', i).value;
    if !IsHeader(disk'[i]) {
      NotHeaderNoEntry(c.f, disk', i);
    }
    var r0 :| WrittenAt(c, disk, i, r0);
    OnlyWritten(c, disk', i, r0, e);
    var k := BlocksFor(c.f.bs, e.data);
    ImageHeader(c.f, r);
    if at < i + k {
      NoHeaderInside(c, disk', i, e, at - i);
    }
    assert disk'[i..i + k] == disk[i..i + k];
    SameBlocksSameEntry(c, disk', disk, i, e);
  }

  lemma OverlaidBefore(c: Setting, disk: seq<Block>, at: nat, r: Record, n: nat, i: nat)
    requires Sound(c, disk)
    requires 0 < n <= BlocksFor(c.f.bs, r.data) && at + n <= |disk| && i < at
    requires NoCollision(c, AfterWrite(c.f, disk, at, r, n))
    ensures
      var found := ParseAt(c.f, disk, i);
      ParseAt(c.f, AfterWrite(c.f, disk, at, r, n), i)
      == if found.Some? && i + BlocksFor(c.f.bs, found.value.data) > at then None else found
  {
    var found := ParseAt(c.f, disk, i);
    if found.Some? && i + BlocksFor(c.f.bs, found.value.data) <= at {
      EntrySurvives(c, disk, at, r, n, i);
    } else if ParseAt(c.f, AfterWrite(c.f, disk, at, r, n), i).Some? {
      EntryWasThere(c, disk, at, r, n, i);
    }
  }

  // ---------------------------------------------------------------------
  // Isolation: a journal's blocks among others

  /** The bytes claimed by any block of a sound journal lie inside the journal. */
  lemma ClaimInside(c: Setting, disk: seq<Block>, p: nat)
    requires Sound(c, disk) && p < |disk|
    ensures Claim(Flat(disk[p..])) <= |Flat(disk[p..])|
  {
    var s := Flat(disk[p..]);
    FirstBlock(c.f.bs, disk, p);
    assert s[..4] == disk[p][..4] && s[8..16] == disk[p][8..16];
    if IsHeader(disk[p]) {
      var r :| WrittenAt(c, disk, p, r);
      ImageHeader(c.f, r);
      PermittedSize(c, |disk|, r);
      Widths();
      FromToBE(|r.data|, 8);
      MulLe(BlocksFor(c.f.bs, r.data), |disk| - p, c.f.bs);
    }
  }

  lemma RegionPoint(c: Setting, disk: seq<Block>, start: nat, length: nat, i: nat)
    requires start + length <= |disk| && Uniform(c.f.bs, disk)
    requires Sound(c, disk[start..start + length]) && i < length
    ensures ParseAt(c.f, disk, start + i) == ParseAt(c.f, disk[start..start + length], i)
    ensures (start + i) * c.f.bs + Claim(Flat(disk[start + i..])) <= (start + length) * c.f.bs
  {
    var region := disk[start..start + length];
    ClaimInside(c, region, i);
    FlatLength(c.f.bs, region[i..]);
    MulSplit(start + i, length - i, start + length, c.f.bs);
    assert disk[start + i..] == region[i..] + disk[start + length..];
    FlatConcat(region[i..], disk[start + length..]);
    UnmarshalPrefix(c.f.hash, Flat(region[i..]), Flat(disk[start + i..]));
  }

  /** What is found in a sound journal does not depend on the blocks around it. */
  lemma RegionView(c: Setting, disk: seq<Block>, start: nat, length: nat)
    requires start + length <= |disk| && Uniform(c.f.bs, disk)
    requires Sound(c, disk[start..start + length])
    ensures ViewOf(c.f, disk)[start..start + length] == ViewOf(c.f, disk[start..start + length])
  {
    var region := disk[start..start + length];
    var v, w := ViewOf(c.f, disk)[start..start + length], ViewOf(c.f, region);
    assert |v| == |w| == length;
    forall i | 0 <= i < length
      ensures v[i] == w[i]
    {
      RegionViewAt(c, disk, start, length, i);
    }
  }

  lemma RegionViewAt(c: Setting, disk: seq<Block>, start: nat, length: nat, i: nat)
    requires start + length <= |disk| && Uniform(c.f.bs, disk)
    requires Sound(c, disk[start..start + length]) && i < length
    ensures ViewOf(c.f, disk)[start..start + length][i] == ViewOf(c.f, disk[start..start + length])[i]
  {
    ViewAt(c.f, disk, start + i);
    ViewAt(c.f, disk[start..start + length], i);
    RegionPoint(c, disk, start, length, i);
    assert ViewOf(c.f, disk)[start..start + length][i] == ViewOf(c.f, disk)[start + i];
  }
}
