/**
 Bytes, big-endian integers and fixed-size storage blocks.
 */
module Blocks {

  newtype byte = x: int | 0 <= x < 256

  type Bytes = seq<byte>
  type Block = Bytes

  datatype Option<+T> = None | Some(value: T)

  // ---------------------------------------------------------------------
  // Big-endian unsigned integers

  function Pow256(w: nat): (r: nat)
    ensures r >= 1
  {
    if w == 0 then 1 else 256 * Pow256(w - 1)
  }

  /** The low `w` bytes of `n`, most significant first. */
  function ToBE(n: nat, w: nat): (r: Bytes)
    ensures |r| == w
  {
    if w == 0 then [] else ToBE(n / 256, w - 1) + [(n % 256) as byte]
  }

  function FromBE(s: Bytes): (r: nat)
    ensures r < Pow256(|s|)
  {
    if s == [] then 0 else FromBE(s[..|s| - 1]) * 256 + s[|s| - 1] as nat
  }

  lemma {:induction false} FromToBE(n: nat, w: nat)
    requires n < Pow256(w)
    ensures FromBE(ToBE(n, w)) == n
  {
    if w > 0 {
      FromToBE(n / 256, w - 1);
      assert ToBE(n, w)[..w - 1] == ToBE(n / 256, w - 1);
    }
  }

  lemma {:induction false} ToFromBE(s: Bytes)
    ensures ToBE(FromBE(s), |s|) == s
  {
    if s != [] {
      ToFromBE(s[..|s| - 1]);
      assert s == s[..|s| - 1] + [s[|s| - 1]];
    }
  }

  lemma DivDiv(n: nat, x: nat)
    requires x > 0
    ensures n / 256 / x == n / (256 * x)
  {
    var q, r := n / 256 / x, n / 256 % x;
    assert n / 256 == q * x + r;
    assert n == 256 * (q * x + r) + n % 256;
    assert 256 * (q * x) == q * (256 * x);
    QuotientIs(n, 256 * x, q, 256 * r + n % 256);
  }

  lemma QuotientIs(n: nat, m: nat, q: nat, r: nat)
    requires m > 0 && n == q * m + r && r < m
    ensures n / m == q
  {
    var d := n / m;
    assert n == d * m + n % m;
    MulLess(d, q, m);
    MulLess(q, d, m);
  }

  /** Byte `i` of `w` is the digit of weight 256^(w - 1 - i): the most significant one comes first. */
  lemma {:induction false} ToBEAt(n: nat, w: nat, i: nat)
    requires i < w
    ensures ToBE(n, w)[i] as nat == n / Pow256(w - 1 - i) % 256
    decreases w
  {
    if i < w - 1 {
      ToBEAt(n / 256, w - 1, i);
      DivDiv(n, Pow256(w - 2 - i));
    }
  }

  lemma FromBETwo(s: Bytes)
    requires |s| == 2
    ensures FromBE(s) == s[0] as nat * 0x100 + s[1] as nat
  {
    assert s[..1][..0] == [];
  }

  lemma {:induction false} FromBESplit(s: Bytes, t: Bytes)
    ensures FromBE(s + t) == FromBE(s) * Pow256(|t|) + FromBE(t)
    decreases |t|
  {
    if t == [] {
      assert s + t == s;
    } else {
      var u := t[..|t| - 1];
      FromBESplit(s, u);
      assert (s + t)[..|s + t| - 1] == s + u;
      Shift(FromBE(s), Pow256(|u|), FromBE(u), t[|t| - 1] as nat);
    }
  }

  lemma Shift(a: nat, p: nat, b: nat, c: nat)
    ensures (a * p + b) * 256 + c == a * (256 * p) + (b * 256 + c)
  {
  }

  /** The first byte has weight 256^(|s| - 1), and so on down. */
  lemma FromBEFirst(s: Bytes)
    requires s != []
    ensures FromBE(s) == s[0] as nat * Pow256(|s| - 1) + FromBE(s[1..])
  {
    FromBESplit([s[0]], s[1..]);
    assert s == [s[0]] + s[1..];
    assert FromBE([s[0]]) == s[0] as nat;
  }

  /** Four and eight bytes written out. */
  lemma FromBEFour(s: Bytes)
    requires |s| == 4
    ensures FromBE(s)
      == s[0] as nat * 0x100_0000 + s[1] as nat * 0x1_0000 + s[2] as nat * 0x100 + s[3] as nat
  {
    FromBESplit(s[..2], s[2..]);
    assert s == s[..2] + s[2..];
    FromBETwo(s[..2]);
    FromBETwo(s[2..]);
    assert Pow256(2) == 0x1_0000;
  }

  lemma FromBEEight(s: Bytes)
    requires |s| == 8
    ensures FromBE(s)
      == s[0] as nat * 0x100_0000_0000_0000 + s[1] as nat * 0x1_0000_0000_0000
         + s[2] as nat * 0x100_0000_0000 + s[3] as nat * 0x1_0000_0000
         + s[4] as nat * 0x100_0000 + s[5] as nat * 0x1_0000 + s[6] as nat * 0x100 + s[7] as nat
  {
    FromBESplit(s[..4], s[4..]);
    assert s == s[..4] + s[4..];
    FromBEFour(s[..4]);
    FromBEFour(s[4..]);
    assert Pow256(2) == 0x1_0000;
    assert Pow256(4) == 0x1_0000_0000;
  }

  // ---------------------------------------------------------------------
  // Blocks

  lemma MulLe(a: nat, b: nat, n: nat)
    requires a <= b
    ensures a * n <= b * n
  {
  }

  lemma MulStep(n: nat, bs: nat)
    requires n > 0
    ensures n * bs == (n - 1) * bs + bs
  {
  }

  lemma MulSplit(a: nat, b: nat, c: nat, n: nat)
    requires c == a + b
    ensures c * n == a * n + b * n
  {
  }

  /** A product with a larger factor is larger by at least one other factor. */
  lemma MulLess(a: nat, b: nat, n: nat)
    ensures a < b ==> a * n + n <= b * n
  {
    if a < b {
      MulLe(a + 1, b, n);
      MulStep(a + 1, n);
    }
  }

  function Zeros(n: nat): (r: Bytes)
    ensures |r| == n
  {
    seq(n, _ => 0)
  }

  /** The number of `bs`-byte blocks needed for `n` bytes. */
  function CeilDiv(n: nat, bs: nat): (k: nat)
    requires bs > 0
    ensures n <= k * bs < n + bs
  {
    (n + bs - 1) / bs
  }

  lemma CeilDivUnique(n: nat, bs: nat, k: nat)
    requires bs > 0
    requires n <= k * bs < n + bs
    ensures CeilDiv(n, bs) == k
  {
    var c := CeilDiv(n, bs);
    MulLess(c, k, bs);
    MulLess(k, c, bs);
  }

  lemma CeilDivMonotone(m: nat, n: nat, bs: nat)
    requires bs > 0 && m <= n
    ensures CeilDiv(m, bs) <= CeilDiv(n, bs)
  {
    var c, d := CeilDiv(m, bs), CeilDiv(n, bs);
    MulLess(d, c, bs);
  }

  ghost predicate Uniform(bs: nat, blocks: seq<Block>) {
    forall i | 0 <= i < |blocks| :: |blocks[i]| == bs
  }

  /** Splits `s` into blocks, padding the last one with zeroes. */
  function Chop(bs: nat, s: Bytes): (r: seq<Block>)
    requires bs > 0
    ensures Uniform(bs, r)
    ensures s != [] ==> r != []
    decreases |s|
  {
    if s == [] then []
    else if |s| <= bs then [s + Zeros(bs - |s|)]
    else [s[..bs]] + Chop(bs, s[bs..])
  }

  lemma {:induction false} ChopCount(bs: nat, s: Bytes)
    requires bs > 0
    ensures |Chop(bs, s)| == CeilDiv(|s|, bs)
    decreases |s|
  {
    if s == [] {
      CeilDivUnique(0, bs, 0);
    } else if |s| <= bs {
      CeilDivUnique(|s|, bs, 1);
    } else {
      ChopCount(bs, s[bs..]);
      var k := CeilDiv(|s| - bs, bs);
      assert (k + 1) * bs == k * bs + bs;
      CeilDivUnique(|s|, bs, k + 1);
    }
  }

  lemma {:induction false} ChopConcat(bs: nat, n: nat, s: Bytes, t: Bytes)
    requires bs > 0 && |s| == n * bs
    ensures Chop(bs, s + t) == Chop(bs, s) + Chop(bs, t)
    decreases n
  {
    if n == 0 {
      assert s + t == t;
    } else {
      MulStep(n, bs);
      assert (s + t)[..bs] == s[..bs];
      assert (s + t)[bs..] == s[bs..] + t;
      ChopConcat(bs, n - 1, s[bs..], t);
      ChopFirst(bs, s);
      ChopFirst(bs, s + t);
    }
  }

  lemma ChopFirst(bs: nat, s: Bytes)
    requires bs > 0 && |s| >= bs
    ensures Chop(bs, s) == [s[..bs]] + Chop(bs, s[bs..])
  {
    if |s| == bs {
      assert s + Zeros(0) == s[..bs];
      assert s[bs..] == [];
    }
  }

  function Flat(blocks: seq<Block>): (r: Bytes) {
    if blocks == [] then [] else blocks[0] + Flat(blocks[1..])
  }

  lemma {:induction false} FlatConcat(a: seq<Block>, b: seq<Block>)
    ensures Flat(a + b) == Flat(a) + Flat(b)
  {
    if a == [] {
      assert a + b == b;
    } else {
      assert (a + b)[1..] == a[1..] + b;
      FlatConcat(a[1..], b);
    }
  }

  lemma {:induction false} FlatLength(bs: nat, blocks: seq<Block>)
    requires Uniform(bs, blocks)
    ensures |Flat(blocks)| == |blocks| * bs
  {
    if blocks != [] {
      FlatLength(bs, blocks[1..]);
      assert |blocks| * bs == (|blocks| - 1) * bs + bs;
    }
  }

  /** Flattening a suffix of blocks drops exactly the bytes of the others. */
  lemma FlatDrop(bs: nat, blocks: seq<Block>, p: nat)
    requires Uniform(bs, blocks) && p <= |blocks|
    ensures |Flat(blocks)| == |blocks| * bs
    ensures p * bs <= |blocks| * bs
    ensures Flat(blocks)[p * bs..] == Flat(blocks[p..])
  {
    FlatConcat(blocks[..p], blocks[p..]);
    assert blocks == blocks[..p] + blocks[p..];
    FlatLength(bs, blocks);
    FlatLength(bs, blocks[..p]);
    FlatLength(bs, blocks[p..]);
  }

  lemma FirstBlock(bs: nat, disk: seq<Block>, p: nat)
    requires bs > 0 && Uniform(bs, disk) && p < |disk|
    ensures |Flat(disk[p..])| == (|disk| - p) * bs >= bs
    ensures Flat(disk[p..])[..bs] == disk[p]
  {
    FlatLength(bs, disk[p..]);
    assert (|disk| - p) * bs >= bs;
  }

  lemma FlatTake(bs: nat, blocks: seq<Block>, k: nat)
    requires Uniform(bs, blocks) && k <= |blocks|
    ensures |Flat(blocks)| == |blocks| * bs
    ensures k * bs <= |blocks| * bs
    ensures Flat(blocks)[..k * bs] == Flat(blocks[..k])
  {
    FlatConcat(blocks[..k], blocks[k..]);
    assert blocks == blocks[..k] + blocks[k..];
    FlatLength(bs, blocks);
    FlatLength(bs, blocks[..k]);
    FlatLength(bs, blocks[k..]);
  }

  /** Chopping and flattening gives the bytes back, followed by the padding. */
  lemma {:induction false} FlatChop(bs: nat, s: Bytes)
    requires bs > 0
    ensures |s| <= |Flat(Chop(bs, s))|
    ensures Flat(Chop(bs, s)) == s + Zeros(|Flat(Chop(bs, s))| - |s|)
    decreases |s|
  {
    if s == [] {
    } else if |s| <= bs {
      assert Flat([s + Zeros(bs - |s|)]) == s + Zeros(bs - |s|);
    } else {
      FlatChop(bs, s[bs..]);
      assert Flat(Chop(bs, s)) == s[..bs] + Flat(Chop(bs, s[bs..]));
      assert s == s[..bs] + s[bs..];
    }
  }

  /** Byte `t` of block `j` is byte `j*bs + t` of the chopped bytes, or padding. */
  lemma {:induction false} ChopAt(bs: nat, s: Bytes, j: nat, t: nat)
    requires bs > 0 && j < |Chop(bs, s)| && t < bs
    ensures j * bs < |s|
    ensures Chop(bs, s)[j][t] == if j * bs + t < |s| then s[j * bs + t] else 0
    decreases |s|
  {
    if j > 0 {
      ChopAt(bs, s[bs..], j - 1, t);
      assert (j - 1) * bs + bs == j * bs;
    }
  }

  /** The blocks of `disk` with `blocks` written from address `lba` on. */
  function Splice(disk: seq<Block>, lba: nat, blocks: seq<Block>): (r: seq<Block>)
    requires lba + |blocks| <= |disk|
    ensures |r| == |disk|
    ensures forall i | 0 <= i < |disk| ::
      r[i] == if lba <= i < lba + |blocks| then blocks[i - lba] else disk[i]
  {
    disk[..lba] + blocks + disk[lba + |blocks|..]
  }
}
