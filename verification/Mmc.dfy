/**
 The storage device: transfers are split into requests of at most 32 KiB to the OS,
 which reads and writes the card. Seen from above, a transfer is one flat read, or one
 flat write of which, on error, a prefix of the blocks has landed.
 */
module Mmc {
  import opened Blocks

  const MAX_TRANSFER_BYTES: nat := 32 * 1024

  /** How the OS answers a write request: done, or an error with some of its blocks written. */
  datatype Answer = Done | Error(landed: nat)

  /** `s` fills whole blocks. */
  ghost predicate Aligned(bs: nat, s: Bytes)
    requires bs > 0
  {
    Flat(Chop(bs, s)) == s
  }

  ghost predicate Landable(disk: seq<Block>, lba: nat, image: seq<Block>, n: nat) {
    n <= |image| && (n == 0 || lba + n <= |disk|)
  }

  /** The disk with the first `n` blocks of `image` written at `lba`. */
  ghost function Wrote(disk: seq<Block>, lba: nat, image: seq<Block>, n: nat): seq<Block>
    requires Landable(disk, lba, image, n)
  {
    if n == 0 then disk else Splice(disk, lba, image[..n])
  }

  /** What comes of a transfer: whether it succeeds, the blocks written, and the answers left for later ones. */
  datatype Played = Played(ok: bool, landed: nat, left: seq<Answer>)

  /**
   Writing `n` blocks, `per` of them in a request, with `room` blocks left on the card: each
   request takes an answer; the first error, or the end of the card, ends the transfer.
   */
  function Play(per: nat, n: nat, room: int, answers: seq<Answer>): Played
    requires per > 0
  {
    if n == 0 then Played(true, 0, answers)
    else
      var m := if n < per then n else per;
      if m > room then Played(false, 0, answers)
      else if answers != [] && answers[0].Error? then
        Played(false, if answers[0].landed < m then answers[0].landed else m, answers[1..])
      else
        var p := Play(per, n - m, room - m, if answers == [] then [] else answers[1..]);
        p.(landed := m + p.landed)
  }

  /** How a request for `m` blocks, with `room` left on the card, is answered. */
  ghost predicate Answered(m: nat, room: int, answers: seq<Answer>, done: bool, more: nat, left: seq<Answer>) {
    var next := if answers == [] then Done else answers[0];
    if m > room then !done && more == 0 && left == answers
    else
      && (done <==> next.Done?)
      && more == (if next.Error? && next.landed < m then next.landed else m)
      && left == if answers == [] then [] else answers[1..]
  }

  /** The first `landed` blocks of `image` have been written at `lba`; `rest` goes to block `at`. */
  ghost predicate Sent(bs: nat, disk: seq<Block>, lba: nat, image: seq<Block>, landed: nat, at: nat, rest: Bytes,
                       blocks: seq<Block>)
    requires bs > 0
  {
    && Aligned(bs, rest)
    && Landable(disk, lba, image, landed) && at == lba + landed
    && image[landed..] == Chop(bs, rest)
    && blocks == Wrote(disk, lba, image, landed)
  }

  /** `whole` is `rest` after `landed` more blocks. */
  ghost predicate Continued(whole: Played, rest: Played, landed: nat) {
    whole == Played(rest.ok, landed + rest.landed, rest.left)
  }

  /** The first request, by its answer. */
  lemma PlayRequest(per: nat, n: nat, room: int, answers: seq<Answer>, m: nat, done: bool, more: nat, left: seq<Answer>)
    requires per > 0 && n > 0 && m == if n < per then n else per
    requires Answered(m, room, answers, done, more, left)
    ensures Play(per, n, room, answers)
         == if done then var p := Play(per, n - m, room - m, left); p.(landed := m + p.landed)
            else Played(false, more, left)
  {
  }

  /** The next request of a transfer of which `landed` blocks are written. */
  lemma PlayOn(per: nat, n: nat, room: int, answers: seq<Answer>, m: nat, done: bool, more: nat, left: seq<Answer>,
               played: Played, landed: nat, n': nat, room': int, total: nat)
    requires per > 0 && n > 0 && m == if n < per then n else per
    requires Answered(m, room, answers, done, more, left)
    requires Continued(played, Play(per, n, room, answers), landed) && total == landed + more
    requires done ==> n' == n - m && room' == room - m
    ensures done ==> Continued(played, Play(per, n', room', left), total)
    ensures !done ==> played == Played(false, total, left)
  {
    PlayRequest(per, n, room, answers, m, done, more, left);
  }

  /** A transfer succeeds exactly if it fits on the card and all its requests are answered without error. */
  lemma {:induction false} PlaySucceeds(per: nat, n: nat, room: int, answers: seq<Answer>)
    requires per > 0 && room >= 0
    ensures
      var p := Play(per, n, room, answers);
      && (p.ok <==> n <= room && forall j | 0 <= j < CeilDiv(n, per) && j < |answers| :: answers[j].Done?)
      && (p.ok ==> p.landed == n) && p.landed <= n && p.landed <= room
      && (answers == [] ==> p.left == [])
    decreases n
  {
    if n == 0 {
      CeilDivUnique(0, per, 0);
    } else {
      var m := if n < per then n else per;
      var k := CeilDiv(n - m, per);
      MulStep(k + 1, per);
      CeilDivUnique(n, per, k + 1);
      if m <= room && (answers == [] || answers[0].Done?) {
        var rest := if answers == [] then [] else answers[1..];
        PlaySucceeds(per, n - m, room - m, rest);
        assert forall j | 0 <= j < |rest| :: rest[j] == answers[j + 1];
        assert forall j | 1 <= j < |answers| :: answers[j] == rest[j - 1];
      }
    }
  }

  /** No request of a transfer of `n` blocks, in requests of 32768 bytes, is answered with an error. */
  ghost predicate AllDone(bs: nat, n: nat, answers: seq<Answer>) {
    forall j | 0 <= j < CeilDiv(n * bs, 32768) && j < |answers| :: answers[j].Done?
  }

  lemma TransferSucceeds(bs: nat, n: nat, room: nat, answers: seq<Answer>, per: nat)
    requires bs > 0 && MAX_TRANSFER_BYTES % bs == 0 && per == MAX_TRANSFER_BYTES / bs && per > 0
    ensures
      var p := Play(per, n, room, answers);
      && (p.ok <==> n <= room && AllDone(bs, n, answers))
      && (answers == [] ==> p.left == [])
  {
    PlaySucceeds(per, n, room, answers);
    RequestCount(bs, n, per);
  }

  lemma RequestCount(bs: nat, n: nat, per: nat)
    requires bs > 0 && per > 0 && MAX_TRANSFER_BYTES % bs == 0 && per == MAX_TRANSFER_BYTES / bs
    ensures CeilDiv(n * bs, 32768) == CeilDiv(n, per)
  {
    var k := CeilDiv(n, per);
    DivModParts(MAX_TRANSFER_BYTES, bs);
    assert per * bs == 32768;
    assert k * per * bs == k * 32768;
    MulLe(n, k * per, bs);
    MulLess(k * per, n + per, bs);
    assert (n + per) * bs == n * bs + 32768;
    CeilDivUnique(n * bs, 32768, k);
  }

  /** The card behind the OS. `answers` scripts the coming write requests; after that all succeed. */
  class Card {
    const bs: nat
    var blocks: seq<Block>
    var answers: seq<Answer>

    constructor (bs: nat, blocks: seq<Block>, answers: seq<Answer>)
      ensures this.bs == bs && this.blocks == blocks && this.answers == answers
    {
      this.bs, this.blocks, this.answers := bs, blocks, answers;
    }

    ghost predicate Valid()
      reads this
    {
      bs > 0 && Uniform(bs, blocks)
    }

    /** `RPC.WriteBlocks`: whole blocks, nothing at all beyond the end of the card. */
    method Write(lba: nat, data: Bytes) returns (ok: bool, ghost landed: nat)
      requires Valid() && Aligned(bs, data)
      modifies this
      ensures Valid()
      ensures Landable(old(blocks), lba, Chop(bs, data), landed)
      ensures blocks == Wrote(old(blocks), lba, Chop(bs, data), landed)
      ensures ok ==> landed == |Chop(bs, data)| && lba + landed <= |old(blocks)|
      ensures Answered(|Chop(bs, data)|, |old(blocks)| - lba, old(answers), ok, landed, answers)
    {
      var image := Chop(bs, data);
      if lba + |image| > |blocks| {
        return false, 0;
      }
      var n := |image|;
      ok := true;
      if answers != [] {
        if answers[0].Error? {
          ok, n := false, if answers[0].landed < |image| then answers[0].landed else |image|;
        }
        answers := answers[1..];
      }
      landed := n;
      blocks := Splice(blocks, lba, image[..n]);
      assert n == 0 ==> blocks == old(blocks);
    }

    /** `RPC.Read`: bytes at any offset. */
    method Read(offset: nat, size: nat) returns (r: Option<Bytes>)
      requires Valid()
      ensures r == if offset + size <= |Flat(blocks)| then Some(Flat(blocks)[offset..offset + size]) else None
    {
      var bytes := Flat(blocks);
      r := if offset + size <= |bytes| then Some(bytes[offset..offset + size]) else None;
    }
  }

  class Device {
    const card: Card

    constructor (card: Card)
      ensures this.card == card
    {
      this.card := card;
    }

    ghost predicate Valid()
      reads card
    {
      card.Valid() && MAX_TRANSFER_BYTES % card.bs == 0
    }

    /** Writes `b`, padded to whole blocks, in requests of at most MAX_TRANSFER_BYTES. */
    method WriteBlocks(lba: nat, b: Bytes) returns (n: nat, ok: bool, ghost landed: nat)
      requires Valid()
      modifies card
      ensures Valid()
      ensures Landable(old(card.blocks), lba, Chop(card.bs, b), landed)
      ensures card.blocks == Wrote(old(card.blocks), lba, Chop(card.bs, b), landed)
      ensures ok ==> n == landed == |Chop(card.bs, b)|
      ensures !ok ==> n == 0
      ensures MAX_TRANSFER_BYTES / card.bs > 0
      ensures Played(ok, landed, card.answers)
           == Play(MAX_TRANSFER_BYTES / card.bs, |Chop(card.bs, b)|, |old(card.blocks)| - lba, old(card.answers))
    {
      Whole(card.bs);
      if |b| == 0 {
        return 0, true, 0;
      }
      var padded, numBlocks := Pad(card.bs, b);
      ok, landed := WriteAligned(lba, padded, MAX_TRANSFER_BYTES / card.bs);
      n := if ok then numBlocks else 0;
    }

    /** Writes whole blocks, request by request. */
    method WriteAligned(lba: nat, b: Bytes, ghost per: nat) returns (ok: bool, ghost landed: nat)
      requires Valid() && Aligned(card.bs, b) && per == MAX_TRANSFER_BYTES / card.bs && per > 0
      modifies card
      ensures Valid()
      ensures Landable(old(card.blocks), lba, Chop(card.bs, b), landed)
      ensures card.blocks == Wrote(old(card.blocks), lba, Chop(card.bs, b), landed)
      ensures ok ==> landed == |Chop(card.bs, b)|
      ensures Played(ok, landed, card.answers)
           == Play(per, |Chop(card.bs, b)|, |old(card.blocks)| - lba, old(card.answers))
    {
      var bs := card.bs;
      ghost var image, disk := Chop(bs, b), card.blocks;
      ghost var played := Play(per, |image|, |disk| - lba, card.answers);
      var rest, at := b, lba;
      landed := 0;
      ok := true;
      while |rest| > 0
        invariant ok && card.Valid()
        invariant Sent(bs, disk, lba, image, landed, at, rest, card.blocks)
        invariant Continued(played, Play(per, |image| - landed, |disk| - at, card.answers), landed)
        decreases |rest|
      {
        ok, rest, at, landed := Send(at, rest, per, disk, lba, image, landed, played);
        if !ok {
          return;
        }
      }
      assert landed == |image|;
    }

    /** One request: the next blocks of `rest`; if it is answered without error `left` goes to block `next`. */
    method Send(at: nat, rest: Bytes, ghost per: nat, ghost disk: seq<Block>, ghost lba: nat,
                ghost image: seq<Block>, ghost landed: nat, ghost played: Played)
      returns (done: bool, left: Bytes, next: nat, ghost total: nat)
      requires Valid() && rest != [] && per == MAX_TRANSFER_BYTES / card.bs && per > 0
      requires Sent(card.bs, disk, lba, image, landed, at, rest, card.blocks)
      requires Continued(played, Play(per, |image| - landed, |disk| - at, card.answers), landed)
      modifies card
      ensures Valid() && |left| < |rest|
      ensures Landable(disk, lba, image, total) && card.blocks == Wrote(disk, lba, image, total)
      ensures !done ==> played == Played(false, total, card.answers)
      ensures done ==> Sent(card.bs, disk, lba, image, total, next, left, card.blocks)
      ensures done ==> Continued(played, Play(per, |image| - total, |disk| - next, card.answers), total)
    {
      ghost var script := card.answers;
      var step;
      ghost var more;
      done, left, next, step, more, total := Request(at, rest, per, disk, lba, image, landed);
      PlayOn(per, |image| - landed, |disk| - at, script, step, done, more, card.answers, played, landed,
             |image| - total, |disk| - next, total);
    }

    /** The request itself. */
    method Request(at: nat, rest: Bytes, ghost per: nat, ghost disk: seq<Block>, ghost lba: nat,
                   ghost image: seq<Block>, ghost landed: nat)
      returns (done: bool, left: Bytes, next: nat, step: nat, ghost more: nat, ghost total: nat)
      requires Valid() && rest != [] && per == MAX_TRANSFER_BYTES / card.bs
      requires Sent(card.bs, disk, lba, image, landed, at, rest, card.blocks)
      modifies card
      ensures Valid() && |left| < |rest| && landed < |image|
      ensures step == if |image| - landed < per then |image| - landed else per
      ensures next == at + step && total == landed + more
      ensures Landable(disk, lba, image, total) && card.blocks == Wrote(disk, lba, image, total)
      ensures done ==> more == step && Sent(card.bs, disk, lba, image, total, next, left, card.blocks)
      ensures Answered(step, |disk| - at, old(card.answers), done, more, card.answers)
    {
      var bl;
      bl, step := NextRequest(card.bs, rest, per);
      ghost var chunk, before := Chop(card.bs, rest[..bl]), card.blocks;
      done, more := card.Write(at, rest[..bl]);
      left, next, total := rest[bl..], at + step, landed + more;
      WroteMore(disk, lba, image, landed, at, chunk, more, total, before);
      assert done ==> image[total..] == image[landed..][more..];
    }

    /** Pads `b` with zeroes to whole blocks, and counts them. */
    static method Pad(bs: nat, b: Bytes) returns (padded: Bytes, numBlocks: nat)
      requires bs > 0 && b != []
      ensures Aligned(bs, padded) && Chop(bs, padded) == Chop(bs, b)
      ensures numBlocks == |Chop(bs, b)|
    {
      padded := b;
      var r := |b| % bs;
      if r != 0 {
        padded := b + Zeros(bs - r);
      }
      PaddedChop(bs, b, padded);
      numBlocks := |padded| / bs;
    }

    /** The size of the next request and the number of blocks in it. */
    static method NextRequest(bs: nat, rest: Bytes, ghost per: nat) returns (bl: nat, step: nat)
      requires bs > 0 && MAX_TRANSFER_BYTES % bs == 0 && per == MAX_TRANSFER_BYTES / bs
      requires rest != [] && Aligned(bs, rest)
      ensures 0 < bl <= |rest| && (bl == |rest| || bl == MAX_TRANSFER_BYTES)
      ensures Aligned(bs, rest[..bl]) && Aligned(bs, rest[bl..])
      ensures Chop(bs, rest) == Chop(bs, rest[..bl]) + Chop(bs, rest[bl..])
      ensures step == |Chop(bs, rest[..bl])|
      ensures step == if |Chop(bs, rest)| < per then |Chop(bs, rest)| else per
    {
      bl := |rest|;
      if bl > MAX_TRANSFER_BYTES {
        bl := MAX_TRANSFER_BYTES;
      }
      ChunkSplits(bs, rest, bl);
      step := bl / bs;
    }

    /** Reads `n` bytes from block `lba` on. */
    method ReadBlocks(lba: nat, n: nat) returns (r: Option<Bytes>)
      requires Valid() && n % card.bs == 0
      ensures
        var from := lba * card.bs;
        n > 0 ==> r == if from + n <= |Flat(card.blocks)| then Some(Flat(card.blocks)[from..from + n]) else None
      ensures n == 0 ==> r == Some([])
    {
      if n == 0 {
        return Some([]);
      }
      var bs := card.bs;
      var b: Bytes := [];
      var at, left := lba, n;
      ghost var bytes, from := Flat(card.blocks), lba * bs;
      while left > 0
        invariant left % bs == 0 && |b| + left == n
        invariant at * bs == from + |b|
        invariant |b| > 0 ==> from + |b| <= |bytes| && b == bytes[from..from + |b|]
      {
        var part;
        part, at, left := ReadRequest(at, left, from + |b|);
        if part.None? {
          return None;
        }
        b := b + part.value;
      }
      r := Some(b);
    }

    /** One request: the next bytes from block `at`, byte `off` of the card, on. */
    method ReadRequest(at: nat, left: nat, ghost off: nat) returns (part: Option<Bytes>, next: nat, after: nat)
      requires Valid() && left > 0 && left % card.bs == 0 && at * card.bs == off
      ensures after < left && after % card.bs == 0
      ensures
        var bl, bytes := left - after, Flat(card.blocks);
        next * card.bs == off + bl && part == if off + bl <= |bytes| then Some(bytes[off..off + bl]) else None
    {
      var bl, step := NextSize(card.bs, left);
      part := card.Read(at * card.bs, bl);
      Distribute(at, step, card.bs);
      next, after := at + step, left - bl;
    }

    /** The size of the next read request and the number of blocks in it. */
    static method NextSize(bs: nat, left: nat) returns (bl: nat, step: nat)
      requires bs > 0 && MAX_TRANSFER_BYTES % bs == 0
      requires left > 0 && left % bs == 0
      ensures 0 < bl <= left && (bl == left || bl == MAX_TRANSFER_BYTES)
      ensures step * bs == bl && (left - bl) % bs == 0
    {
      bl := left;
      if bl > MAX_TRANSFER_BYTES {
        bl := MAX_TRANSFER_BYTES;
      }
      ModSub(left, bl, bs);
      step := bl / bs;
    }
  }

  // ---------------------------------------------------------------------
  // Arithmetic of whole blocks

  lemma ModSub(a: nat, b: nat, bs: nat)
    requires bs > 0 && a % bs == 0 && b % bs == 0 && b <= a
    ensures (a - b) % bs == 0
  {
    var x, y := a / bs, b / bs;
    assert a == x * bs && b == y * bs;
    assert a - b == (x - y) * bs;
    assert x >= y;
    ModMul(x - y, bs);
  }

  lemma Whole(bs: nat)
    requires bs > 0 && MAX_TRANSFER_BYTES % bs == 0
    ensures MAX_TRANSFER_BYTES / bs > 0
  {
    DivModParts(MAX_TRANSFER_BYTES, bs);
  }

  lemma ModMul(x: nat, bs: nat)
    requires bs > 0
    ensures x * bs % bs == 0 && x * bs / bs == x
  {
    DivUnique(x * bs, bs, x);
  }

  lemma DivUnique(n: nat, bs: nat, q: nat)
    requires bs > 0 && q * bs <= n < (q + 1) * bs
    ensures n / bs == q && n % bs == n - q * bs
  {
    var d := n / bs;
    assert n == d * bs + n % bs;
    MulLess(d, q, bs);
    MulLess(q, d, bs);
    MulStep(q + 1, bs);
  }

  lemma Distribute(a: nat, b: nat, bs: nat)
    ensures (a + b) * bs == a * bs + b * bs
  {
  }

  lemma PaddedChop(bs: nat, b: Bytes, padded: Bytes)
    requires bs > 0 && b != []
    requires padded == if |b| % bs == 0 then b else b + Zeros(bs - |b| % bs)
    ensures Chop(bs, padded) == Chop(bs, b)
    ensures Aligned(bs, padded) && |padded| / bs == |Chop(bs, b)|
  {
    DivModParts(|b|, bs);
    PaddedParts(bs, b, padded, |b| / bs, |b| % bs);
  }

  lemma DivModParts(n: nat, bs: nat)
    requires bs > 0
    ensures n == n / bs * bs + n % bs
  {
  }

  lemma PaddedParts(bs: nat, b: Bytes, padded: Bytes, q: nat, r: nat)
    requires r < bs && |b| == q * bs + r
    requires padded == if r == 0 then b else b + Zeros(bs - r)
    ensures Chop(bs, padded) == Chop(bs, b)
    ensures Aligned(bs, padded) && |padded| / bs == |Chop(bs, b)|
  {
    var n := q * bs;
    if r == 0 {
      ChopWhole(bs, q, b);
    } else {
      PaddedTail(bs, q, b[..n], b[n..]);
      assert b == b[..n] + b[n..];
      assert padded == b[..n] + (b[n..] + Zeros(bs - |b[n..]|));
    }
  }

  lemma PaddedTail(bs: nat, q: nat, s: Bytes, t: Bytes)
    requires |s| == q * bs && 0 < |t| < bs
    ensures
      var padded := s + (t + Zeros(bs - |t|));
      Chop(bs, padded) == Chop(bs, s + t) && Aligned(bs, padded) && |padded| / bs == |Chop(bs, padded)|
  {
    var u := t + Zeros(bs - |t|);
    ChopConcat(bs, q, s, t);
    ChopConcat(bs, q, s, u);
    assert u + Zeros(0) == u;
    MulStep(q + 1, bs);
    ChopWhole(bs, q + 1, s + u);
  }

  /** Bytes that fill `k` blocks are chopped into `k` blocks, without padding. */
  lemma ChopWhole(bs: nat, k: nat, s: Bytes)
    requires bs > 0 && |s| == k * bs
    ensures |Chop(bs, s)| == k == |s| / bs && Aligned(bs, s)
  {
    ChopCount(bs, s);
    CeilDivUnique(|s|, bs, k);
    ModMul(k, bs);
    FlatLength(bs, Chop(bs, s));
    FlatChop(bs, s);
  }

  lemma AlignedLength(bs: nat, s: Bytes)
    requires bs > 0 && Aligned(bs, s)
    ensures |s| == |Chop(bs, s)| * bs
  {
    FlatLength(bs, Chop(bs, s));
  }

  lemma Difference(k: nat, q: nat, bs: nat)
    requires bs > 0 && q * bs <= k * bs
    ensures q <= k && (k - q) * bs == k * bs - q * bs
  {
    MulLess(k, q, bs);
  }

  /** A request's bytes are the first whole blocks of what is left. */
  lemma ChunkSplits(bs: nat, rest: Bytes, bl: nat)
    requires bs > 0 && Aligned(bs, rest) && MAX_TRANSFER_BYTES % bs == 0
    requires bl == if |rest| > MAX_TRANSFER_BYTES then MAX_TRANSFER_BYTES else |rest|
    ensures Aligned(bs, rest[..bl]) && Aligned(bs, rest[bl..])
    ensures Chop(bs, rest) == Chop(bs, rest[..bl]) + Chop(bs, rest[bl..])
    ensures |Chop(bs, rest[..bl])| == bl / bs
    ensures
      var k, per := |Chop(bs, rest)|, MAX_TRANSFER_BYTES / bs;
      bl / bs == if k < per then k else per
  {
    AlignedLength(bs, rest);
    var k := |Chop(bs, rest)|;
    var per := MAX_TRANSFER_BYTES / bs;
    DivModParts(MAX_TRANSFER_BYTES, bs);
    MulLess(k, per, bs);
    MulLess(per, k, bs);
    var q := if bl == |rest| then k else MAX_TRANSFER_BYTES / bs;
    assert bl == q * bs;
    assert rest == rest[..bl] + rest[bl..];
    ChopConcat(bs, q, rest[..bl], rest[bl..]);
    ChopWhole(bs, q, rest[..bl]);
    Difference(k, q, bs);
    ChopWhole(bs, k - q, rest[bl..]);
  }

  /** Writing the next blocks of an image, at `at`, after its first `landed` ones. */
  lemma WroteMore(disk: seq<Block>, lba: nat, image: seq<Block>, landed: nat, at: nat,
                  chunk: seq<Block>, more: nat, total: nat, before: seq<Block>)
    requires Landable(disk, lba, image, landed) && chunk <= image[landed..]
    requires before == Wrote(disk, lba, image, landed)
    requires at == lba + landed && total == landed + more
    requires Landable(before, at, chunk, more)
    ensures Landable(disk, lba, image, total)
    ensures Wrote(before, at, chunk, more) == Wrote(disk, lba, image, total)
  {
    var x, y := Wrote(before, at, chunk, more), Wrote(disk, lba, image, total);
    forall i | 0 <= i < |disk|
      ensures x[i] == y[i]
    {
      if at <= i < at + more {
        assert chunk[i - at] == image[landed..][i - at];
      }
    }
  }

  /** Reading back a successful write gives the data followed by the padding. */
  lemma ReadBack(bs: nat, blocks: seq<Block>, lba: nat, b: Bytes)
    requires bs > 0 && Uniform(bs, blocks) && lba + |Chop(bs, b)| <= |blocks|
    ensures
      var from, n := lba * bs, |Chop(bs, b)| * bs;
      var bytes := Flat(Splice(blocks, lba, Chop(bs, b)));
      && |b| <= n
      && from + n <= |bytes|
      && bytes[from..from + n] == b + Zeros(n - |b|)
  {
    var image := Chop(bs, b);
    FlatLength(bs, image);
    FlatLength(bs, blocks[..lba]);
    FlatChop(bs, b);
    FlatMiddle(blocks[..lba], image, blocks[lba + |image|..]);
  }

  lemma FlatMiddle(a: seq<Block>, b: seq<Block>, c: seq<Block>)
    ensures
      var s, m, n := Flat(a + b + c), |Flat(a)|, |Flat(b)|;
      m + n <= |s| && s[m..m + n] == Flat(b)
  {
    FlatConcat(a + b, c);
    FlatConcat(a, b);
  }
}
