/**
 Interleaved reads, writes and compare-and-swap writes on one open slot. Each operation
 holds the slot's lock, so an interleaving is a sequence of whole operations.
 */
module CompareAndSwap {
  import opened Blocks
  import opened Entries
  import opened JournalModel
  import opened Runs
  import opened SlotModel

  datatype Op =
    | Read
    | Write(data: Bytes, outcome: Outcome)
    | Cas(token: nat, data: Bytes, outcome: Outcome)

  ghost predicate WellFormedOps(f: Format, ops: seq<Op>) {
    f.Valid() && forall i | 0 <= i < |ops| ::
      ops[i].Read? || Landed(f.bs, ops[i].data, ops[i].outcome) <= BlocksFor(f.bs, ops[i].data)
  }

  /** The slot after the first `n` operations. */
  ghost function After(f: Format, s: Slot, ops: seq<Op>, n: nat): (s': Slot)
    requires WellFormedOps(f, ops) && s.Valid() && s.mem.Some? && n <= |ops|
    ensures s'.Valid() && s'.mem.Some? && |s'.disk| == |s.disk|
  {
    if n == 0 then s
    else
      var t := After(f, s, ops, n - 1);
      match ops[n - 1]
      case Read => t
      case Write(data, outcome) => SlotModel.Write(f, t, data, outcome)
      case Cas(token, data, outcome) => CheckAndWrite(f, t, token, data, outcome)
  }

  /** Operation `n` is a write that succeeds. */
  ghost predicate Wins(f: Format, s: Slot, ops: seq<Op>, n: nat)
    requires WellFormedOps(f, ops) && s.Valid() && s.mem.Some? && n < |ops|
  {
    var t := After(f, s, ops, n);
    match ops[n]
    case Read => false
    case Write(data, outcome) => Succeeds(f.bs, t, data, outcome)
    case Cas(token, data, outcome) => t.Current().revision == token && Succeeds(f.bs, t, data, outcome)
  }

  /** In the first `n` operations the revision counter does not reach its last value. */
  ghost predicate NoWrap(f: Format, s: Slot, ops: seq<Op>, n: nat)
    requires WellFormedOps(f, ops) && s.Valid() && s.mem.Some? && n <= |ops|
  {
    After(f, s, ops, n).Current().revision + 1 < TWO32 && (n > 0 ==> NoWrap(f, s, ops, n - 1))
  }

  lemma {:induction false} NoWrapBefore(f: Format, s: Slot, ops: seq<Op>, k: nat, n: nat)
    requires WellFormedOps(f, ops) && s.Valid() && s.mem.Some? && k <= n <= |ops| && NoWrap(f, s, ops, n)
    ensures NoWrap(f, s, ops, k)
    decreases n
  {
    if k < n {
      NoWrapBefore(f, s, ops, k, n - 1);
    }
  }

  /** Only a successful write changes what is read, and it moves the revision by one. */
  lemma OneOp(f: Format, s: Slot, ops: seq<Op>, n: nat)
    requires WellFormedOps(f, ops) && s.Valid() && s.mem.Some? && n < |ops|
    requires After(f, s, ops, n).Current().revision + 1 < TWO32
    ensures
      var before, after := After(f, s, ops, n).Current(), After(f, s, ops, n + 1).Current();
      if Wins(f, s, ops, n) then after == Record(before.revision + 1, ops[n].data) else after == before
  {
    var t := After(f, s, ops, n);
    if !ops[n].Read? && Accepted(f.bs, |t.disk|, ops[n].data) {
      UpdateIs(f, State(t.disk, t.mem.value), ops[n].data, ops[n].outcome);
    }
  }

  /** Over a stretch of operations the revision never falls; while it stays, so does the data. */
  lemma {:induction false} Monotone(f: Format, s: Slot, ops: seq<Op>, i: nat, j: nat)
    requires WellFormedOps(f, ops) && s.Valid() && s.mem.Some?
    requires i <= j <= |ops| && NoWrap(f, s, ops, j)
    ensures
      var a, b := After(f, s, ops, i).Current(), After(f, s, ops, j).Current();
      a.revision <= b.revision && (a.revision == b.revision ==> a == b)
    decreases j - i
  {
    if i < j {
      Monotone(f, s, ops, i, j - 1);
      OneOp(f, s, ops, j - 1);
    }
  }

  /** A successful write in a stretch raises the revision over it. */
  lemma Raised(f: Format, s: Slot, ops: seq<Op>, i: nat, k: nat, j: nat)
    requires WellFormedOps(f, ops) && s.Valid() && s.mem.Some?
    requires i <= k < j <= |ops| && NoWrap(f, s, ops, j) && Wins(f, s, ops, k)
    ensures After(f, s, ops, i).Current().revision < After(f, s, ops, j).Current().revision
  {
    NoWrapBefore(f, s, ops, k, j);
    Monotone(f, s, ops, i, k);
    OneOp(f, s, ops, k);
    Monotone(f, s, ops, k + 1, j);
  }

  /** At most one compare-and-swap succeeds per token. */
  lemma OneWinnerPerToken(f: Format, s: Slot, ops: seq<Op>, i: nat, j: nat)
    requires WellFormedOps(f, ops) && s.Valid() && s.mem.Some? && NoWrap(f, s, ops, |ops|)
    requires i < j < |ops| && ops[i].Cas? && ops[j].Cas?
    requires Wins(f, s, ops, i) && Wins(f, s, ops, j)
    ensures ops[i].token < ops[j].token
  {
    NoWrapBefore(f, s, ops, j, |ops|);
    Raised(f, s, ops, i, i, j);
  }

  /**
   If a compare-and-swap succeeds with the token an earlier read returned, nothing was
   written in between and the data read is still the data replaced.
   */
  lemma SuccessMeansUnchanged(f: Format, s: Slot, ops: seq<Op>, i: nat, j: nat)
    requires WellFormedOps(f, ops) && s.Valid() && s.mem.Some? && NoWrap(f, s, ops, |ops|)
    requires i < j < |ops| && ops[i].Read? && ops[j].Cas?
    requires ops[j].token == After(f, s, ops, i).Current().revision
    requires Wins(f, s, ops, j)
    ensures forall k | i <= k < j :: !Wins(f, s, ops, k)
    ensures forall k | i <= k <= j :: After(f, s, ops, k).Current() == After(f, s, ops, i).Current()
  {
    NoWrapBefore(f, s, ops, j, |ops|);
    forall k | i <= k < j
      ensures !Wins(f, s, ops, k)
    {
      if Wins(f, s, ops, k) {
        Raised(f, s, ops, i, k, j);
      }
    }
    forall k | i <= k <= j
      ensures After(f, s, ops, k).Current() == After(f, s, ops, i).Current()
    {
      NoWrapBefore(f, s, ops, k, j);
      Monotone(f, s, ops, i, k);
      Monotone(f, s, ops, k, j);
    }
  }
}
