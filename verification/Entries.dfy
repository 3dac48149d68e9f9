/**
 The on-disk form of one journal entry: a 48-byte header (magic, revision, data
 length, SHA-256 of the data) followed by the data. SHA-256 itself is a parameter.
 */
module Entries {
  import opened Blocks

  /** "TFJ0" */
  const MAGIC: Bytes := [84, 70, 74, 48]
  const HEADER_SIZE: nat := 4 + 4 + 8 + 32
  const TWO32: nat := 0x1_0000_0000
  const TWO64: nat := 0x1_0000_0000_0000_0000

  type Hash = Bytes -> Bytes

  ghost predicate IsHash(hash: Hash) {
    forall d :: |hash(d)| == 32
  }

  datatype Error = ShortRead | BadMagic | ZeroRevision | BadHash

  datatype Result<+T> = Ok(value: T) | Err(error: Error)

  datatype Entry = Entry(magic: Bytes, revision: nat, dataLen: nat, sha: Bytes, data: Bytes)
  {
    function Size(): nat {
      HEADER_SIZE + |data|
    }
  }

  /** What an entry says once its header has been checked. Revision 0 stands for "no entry". */
  datatype Record = Record(revision: nat, data: Bytes)

  const NO_RECORD := Record(0, [])

  function EntryOf(hash: Hash, r: Record): Entry {
    Entry(MAGIC, r.revision, |r.data|, hash(r.data), r.data)
  }

  function Marshal(hash: Hash, e: Entry): Result<Bytes> {
    if e.magic != MAGIC then Err(BadMagic)
    else if hash(e.data) != e.sha then Err(BadHash)
    else Ok(e.magic + ToBE(e.revision, 4) + ToBE(e.dataLen, 8) + e.sha + e.data)
  }

  /** Reads one entry from the front of a byte stream. */
  function Unmarshal(hash: Hash, s: Bytes): Result<Entry> {
    if |s| < 4 then Err(ShortRead)
    else if s[..4] != MAGIC then Err(BadMagic)
    else if |s| < 8 then Err(ShortRead)
    else
      var revision := FromBE(s[4..8]);
      if revision == 0 then Err(ZeroRevision)
      else if |s| < HEADER_SIZE then Err(ShortRead)
      else
        var dataLen := FromBE(s[8..16]);
        if |s| < HEADER_SIZE + dataLen then Err(ShortRead)
        else
          var data := s[HEADER_SIZE..HEADER_SIZE + dataLen];
          if hash(data) != s[16..48] then Err(BadHash)
          else Ok(Entry(s[..4], revision, dataLen, s[16..48], data))
  }

  /** The bytes an entry at the front of `s` claims; 48 if it is rejected before that. */
  function Claim(s: Bytes): nat {
    if |s| >= HEADER_SIZE && s[..4] == MAGIC && FromBE(s[4..8]) != 0
    then HEADER_SIZE + FromBE(s[8..16]) else HEADER_SIZE
  }

  /** The bytes of a record, as `marshalEntry` lays them out. */
  function Encode(hash: Hash, r: Record): Bytes {
    Marshal(hash, EntryOf(hash, r)).value
  }

  lemma EncodeParts(hash: Hash, r: Record, padding: Bytes)
    requires IsHash(hash)
    ensures Marshal(hash, EntryOf(hash, r)) == Ok(Encode(hash, r))
    ensures |Encode(hash, r)| == HEADER_SIZE + |r.data|
    ensures
      var s := Encode(hash, r) + padding;
      && s[..4] == MAGIC
      && s[4..8] == ToBE(r.revision, 4)
      && s[8..16] == ToBE(|r.data|, 8)
      && s[16..48] == hash(r.data)
      && s[48..48 + |r.data|] == r.data
  {
  }

  lemma DataByte(hash: Hash, r: Record, i: nat)
    requires IsHash(hash) && HEADER_SIZE <= i < HEADER_SIZE + |r.data|
    ensures |Encode(hash, r)| == HEADER_SIZE + |r.data|
    ensures Encode(hash, r)[i] == r.data[i - HEADER_SIZE]
  {
    EncodeParts(hash, r, []);
  }

  lemma Widths()
    ensures Pow256(4) == TWO32 && Pow256(8) == TWO64
  {
    assert Pow256(2) == 0x1_0000;
    assert Pow256(4) == 256 * 256 * Pow256(2);
    assert Pow256(6) == 256 * 256 * Pow256(4);
  }

  /** Unmarshalling what was marshalled, whatever follows it, gives the entry back. */
  lemma MarshalThenUnmarshal(hash: Hash, r: Record, padding: Bytes)
    requires IsHash(hash)
    requires 1 <= r.revision < TWO32 && |r.data| < TWO64
    ensures
      var m := Marshal(hash, EntryOf(hash, r));
      && m.Ok?
      && |m.value| == EntryOf(hash, r).Size()
      && Unmarshal(hash, m.value + padding) == Ok(EntryOf(hash, r))
  {
    EncodeParts(hash, r, padding);
    Widths();
    FromToBE(r.revision, 4);
    FromToBE(|r.data|, 8);
  }

  /** Any accepted byte string marshals back to itself, up to the entry's size. */
  lemma UnmarshalThenMarshal(hash: Hash, s: Bytes)
    requires Unmarshal(hash, s).Ok?
    ensures
      var e := Unmarshal(hash, s).value;
      && e.Size() <= |s|
      && 1 <= e.revision < TWO32 && e.dataLen == |e.data| < TWO64
      && e == EntryOf(hash, Record(e.revision, e.data))
      && Marshal(hash, e) == Ok(s[..e.Size()])
  {
    Widths();
    ToFromBE(s[4..8]);
    ToFromBE(s[8..16]);
    assert FromBE(s[4..8]) < Pow256(4);
    assert FromBE(s[8..16]) < Pow256(8);
    var n := FromBE(s[8..16]);
    assert s[..48 + n] == s[..4] + s[4..8] + s[8..16] + s[16..48] + s[48..48 + n];
  }

  /** A number in eight bytes, the most significant one first. */
  predicate IsNumber(b: Bytes, n: nat)
    requires |b| == 8
  {
    && b[0] as nat == n / 0x100_0000_0000_0000 % 256 && b[1] as nat == n / 0x1_0000_0000_0000 % 256
    && b[2] as nat == n / 0x100_0000_0000 % 256 && b[3] as nat == n / 0x1_0000_0000 % 256
    && b[4] as nat == n / 0x100_0000 % 256 && b[5] as nat == n / 0x1_0000 % 256
    && b[6] as nat == n / 0x100 % 256 && b[7] as nat == n % 256
  }

  lemma Powers()
    ensures Pow256(1) == 0x100 && Pow256(2) == 0x1_0000 && Pow256(3) == 0x100_0000 && Pow256(4) == 0x1_0000_0000
    ensures Pow256(5) == 0x100_0000_0000 && Pow256(6) == 0x1_0000_0000_0000 && Pow256(7) == 0x100_0000_0000_0000
  {
    assert Pow256(3) == 256 * Pow256(2);
    assert Pow256(5) == 256 * 256 * Pow256(3);
    assert Pow256(7) == 256 * 256 * Pow256(5);
    assert Pow256(4) == 256 * Pow256(3) && Pow256(6) == 256 * Pow256(5);
  }

  /** The bytes of a record, written out: "TFJ0", revision, data length, hash, data. */
  lemma EncodeLayout(hash: Hash, r: Record)
    requires IsHash(hash)
    ensures |Encode(hash, r)| == 48 + |r.data|
    ensures
      var e := Encode(hash, r);
      && e[..4] == [84, 70, 74, 48]
      && e[4] as nat == r.revision / 0x100_0000 % 256 && e[5] as nat == r.revision / 0x1_0000 % 256
      && e[6] as nat == r.revision / 0x100 % 256 && e[7] as nat == r.revision % 256
      && IsNumber(e[8..16], |r.data|)
      && e[16..48] == hash(r.data) && e[48..] == r.data
  {
    var e := Encode(hash, r);
    EncodeParts(hash, r, []);
    assert e + [] == e;
    Powers();
    RevisionBytes(r.revision, e[4..8]);
    LengthBytes(|r.data|);
    assert e[4..8][0] == e[4] && e[4..8][1] == e[5] && e[4..8][2] == e[6] && e[4..8][3] == e[7];
  }

  lemma RevisionBytes(n: nat, b: Bytes)
    requires b == ToBE(n, 4)
    ensures b[0] as nat == n / 0x100_0000 % 256 && b[1] as nat == n / 0x1_0000 % 256
    ensures b[2] as nat == n / 0x100 % 256 && b[3] as nat == n % 256
  {
    Powers();
    ToBEAt(n, 4, 0);
    ToBEAt(n, 4, 1);
    ToBEAt(n, 4, 2);
    ToBEAt(n, 4, 3);
  }

  lemma LengthBytes(n: nat)
    ensures IsNumber(ToBE(n, 8), n)
  {
    Powers();
    ToBEAt(n, 8, 0);
    ToBEAt(n, 8, 1);
    ToBEAt(n, 8, 2);
    ToBEAt(n, 8, 3);
    ToBEAt(n, 8, 4);
    ToBEAt(n, 8, 5);
    ToBEAt(n, 8, 6);
    ToBEAt(n, 8, 7);
  }

  /** The revision in a header, by its four bytes. */
  function RevisionIn(s: Bytes): nat
    requires |s| >= 8
  {
    s[4] as nat * 0x100_0000 + s[5] as nat * 0x1_0000 + s[6] as nat * 0x100 + s[7] as nat
  }

  /** The data length in a header, by its eight bytes. */
  function LengthIn(s: Bytes): nat
    requires |s| >= 16
  {
    s[8] as nat * 0x100_0000_0000_0000 + s[9] as nat * 0x1_0000_0000_0000
    + s[10] as nat * 0x100_0000_0000 + s[11] as nat * 0x1_0000_0000
    + s[12] as nat * 0x100_0000 + s[13] as nat * 0x1_0000 + s[14] as nat * 0x100 + s[15] as nat
  }

  /** Exactly which bytes are accepted as an entry, and what it says, written out. */
  lemma UnmarshalLayout(hash: Hash, s: Bytes)
    ensures Unmarshal(hash, s).Ok? <==>
      && |s| >= 48 && s[..4] == [84, 70, 74, 48]
      && RevisionIn(s) != 0 && |s| >= 48 + LengthIn(s)
      && hash(s[48..48 + LengthIn(s)]) == s[16..48]
    ensures Unmarshal(hash, s).Ok? ==>
      var e := Unmarshal(hash, s).value;
      e.revision == RevisionIn(s) && e.data == s[48..48 + LengthIn(s)]
  {
    if |s| >= 48 {
      FromBEFour(s[4..8]);
      FromBEEight(s[8..16]);
      assert FromBE(s[4..8]) == RevisionIn(s) && FromBE(s[8..16]) == LengthIn(s);
    }
  }

  /** Whatever follows the bytes an entry claims makes no difference. */
  lemma UnmarshalPrefix(hash: Hash, s: Bytes, t: Bytes)
    requires s <= t && Claim(s) <= |s|
    ensures Claim(t) == Claim(s) && Unmarshal(hash, t) == Unmarshal(hash, s)
  {
    assert t[..4] == s[..4] && t[4..8] == s[4..8] && t[8..16] == s[8..16] && t[16..48] == s[16..48];
    var n := Claim(s);
    assert t[48..n] == s[48..n];
  }
}
