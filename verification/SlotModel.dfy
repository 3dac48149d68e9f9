/**
 Slots as values: a journal's blocks together with the in-memory journal, which is
 absent until the slot is first opened and lost at a restart.
 */
module SlotModel {
  import opened Blocks
  import opened Entries
  import opened JournalModel
  import opened CrashSafety
  import opened Headers
  import opened Runs

  datatype Slot = Slot(disk: seq<Block>, mem: Option<Memory>)
  {
    predicate Valid() {
      mem.Some? ==> mem.value.next <= |disk|
    }

    /** The record that `Read` returns; revision 0 if there is none. */
    function Current(): Record
      requires mem.Some?
    {
      mem.value.current
    }
  }

  /** Opens the journal unless it is open already; a corrupt journal stays closed. */
  function Open(f: Format, s: Slot): (s': Slot)
    requires f.bs > 0 && s.Valid()
    ensures s'.Valid() && s'.disk == s.disk
  {
    if s.mem.Some? then s
    else
      match Scan(f.bs, ViewOf(f, s.disk))
      case Opened(mem) => s.(mem := Some(mem))
      case Corrupt(_) => s
  }

  function Write(f: Format, s: Slot, data: Bytes, outcome: Outcome): (s': Slot)
    requires f.Valid() && s.Valid() && s.mem.Some?
    requires Landed(f.bs, data, outcome) <= BlocksFor(f.bs, data)
    ensures s'.Valid() && s'.mem.Some? && |s'.disk| == |s.disk|
  {
    var u := Update(f, State(s.disk, s.mem.value), data, outcome);
    Slot(u.disk, Some(u.mem))
  }

  predicate Succeeds(bs: nat, s: Slot, data: Bytes, outcome: Outcome) {
    Accepted(bs, |s.disk|, data) && outcome.Written?
  }

  function CheckAndWrite(f: Format, s: Slot, token: nat, data: Bytes, outcome: Outcome): (s': Slot)
    requires f.Valid() && s.Valid() && s.mem.Some?
    requires Landed(f.bs, data, outcome) <= BlocksFor(f.bs, data)
    ensures s'.Valid() && s'.mem.Some? && |s'.disk| == |s.disk|
  {
    if s.Current().revision != token then s else Write(f, s, data, outcome)
  }

  // ---------------------------------------------------------------------
  // Slots and what a client may rely on

  ghost predicate Witness(c: Setting, s: Slot, l: Ledger, mem: Memory, first: nat, pos: nat) {
    (s.mem == None || s.mem == Some(mem)) && Safe(c, State(s.disk, mem), l, first, pos)
  }

  /** The slot's blocks, and its journal if open, are as some run of the journal left them. */
  ghost predicate SlotOk(c: Setting, s: Slot, l: Ledger) {
    exists mem, first, pos :: Witness(c, s, l, mem, first, pos)
  }

  /** Not an error reported after a record that may overlap the current one was written whole. */
  predicate Gentle(bs: nat, length: nat, data: Bytes, outcome: Outcome)
    requires bs > 0
  {
    length == 1 || !MayOverlap(bs, length, Put(data, outcome))
  }

  /** A write that crash atomicity covers. */
  ghost predicate LegalWrite(c: Setting, s: Slot, data: Bytes, outcome: Outcome) {
    && s.mem.Some?
    && Legal(c, State(s.disk, s.mem.value), Put(data, outcome))
    && Gentle(c.f.bs, |s.disk|, data, outcome)
  }

  ghost function WriteLedger(bs: nat, s: Slot, l: Ledger, data: Bytes, outcome: Outcome): Ledger {
    if !Accepted(bs, |s.disk|, data) then l
    else if outcome.Written? then Ledger(Record(l.committed.revision + 1, data), {})
    else l.(pending := l.pending + {data})
  }

  /** A write replaces the current record, with the next revision, exactly if it succeeds. */
  ghost predicate Replaces(f: Format, s: Slot, l: Ledger, data: Bytes, outcome: Outcome) {
    && f.Valid()
    && s.Valid()
    && s.mem.Some?
    && Landed(f.bs, data, outcome) <= BlocksFor(f.bs, data)
    && s.Current() == l.committed
    && s.Current().revision + 1 < TWO32
    && Write(f, s, data, outcome).Current()
       == if Succeeds(f.bs, s, data, outcome) then Record(s.Current().revision + 1, data) else s.Current()
  }

  lemma WriteOk(c: Setting, s: Slot, l: Ledger, data: Bytes, outcome: Outcome)
    requires SlotOk(c, s, l) && LegalWrite(c, s, data, outcome)
    ensures SlotOk(c, Write(c.f, s, data, outcome), WriteLedger(c.f.bs, s, l, data, outcome))
    ensures Accepted(c.f.bs, |s.disk|, data) ==> Replaces(c.f, s, l, data, outcome)
    ensures !Accepted(c.f.bs, |s.disk|, data) ==> Write(c.f, s, data, outcome) == s
    ensures s.Current() == l.committed
  {
    var mem, first, pos :| Witness(c, s, l, mem, first, pos);
    var s', first', pos' := StepSafe(c, State(s.disk, mem), l, Put(data, outcome), first, pos);
    assert Witness(c, Slot(s'.disk, Some(s'.mem)), WriteLedger(c.f.bs, s, l, data, outcome), s'.mem, first', pos');
  }

  lemma CurrentIsCommitted(c: Setting, s: Slot, l: Ledger)
    requires SlotOk(c, s, l) && s.mem.Some?
    ensures s.Current() == l.committed
  {
    var mem, first, pos :| Witness(c, s, l, mem, first, pos);
  }

  /** What a client may rely on once the slot has been opened. */
  ghost function OpenLedger(f: Format, s: Slot, l: Ledger): Ledger
    requires f.bs > 0 && s.Valid()
  {
    var s' := Open(f, s);
    if s.mem.Some? || s'.mem.None? then l else Ledger(s'.Current(), {})
  }

  /** Opening succeeds and yields the committed record or a pending one. */
  ghost predicate Opens(f: Format, s: Slot, l: Ledger) {
    && f.Valid()
    && s.Valid()
    && Open(f, s).mem.Some?
    && Open(f, s).Current() == OpenLedger(f, s, l).committed
    && CurrentOrPending(l.committed, l.pending, OpenLedger(f, s, l).committed)
    && (if s.mem.Some? then OpenLedger(f, s, l) == l else OpenLedger(f, s, l).pending == {})
  }

  lemma OpenOk(c: Setting, s: Slot, l: Ledger)
    requires SlotOk(c, s, l)
    ensures Opens(c.f, s, l)
    ensures SlotOk(c, Open(c.f, s), OpenLedger(c.f, s, l))
  {
    var mem, first, pos :| Witness(c, s, l, mem, first, pos);
    if s.mem.None? {
      SafeReopens(c, State(s.disk, mem), l, first, pos);
      var s', first', pos' := StepSafe(c, State(s.disk, mem), l, Restart, first, pos);
      assert Open(c.f, s) == Slot(s.disk, Some(s'.mem));
      assert Witness(c, Slot(s.disk, Some(s'.mem)), OpenLedger(c.f, s, l), s'.mem, first', pos');
    }
  }

  lemma CloseOk(c: Setting, s: Slot, l: Ledger)
    requires SlotOk(c, s, l)
    ensures SlotOk(c, s.(mem := None), l)
  {
    var mem, first, pos :| Witness(c, s, l, mem, first, pos);
    assert Witness(c, s.(mem := None), l, mem, first, pos);
  }

  lemma FreshSlotOk(c: Setting, length: nat)
    requires c.f.Valid() && length * c.f.bs < TWO32
    ensures SlotOk(c, Slot(Fresh(c.f, length).disk, None), EMPTY)
  {
    FreshGood(c, length);
    assert Witness(c, Slot(Fresh(c.f, length).disk, None), EMPTY, Memory(NO_RECORD, 0), 0, 0);
  }
}
