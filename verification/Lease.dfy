/**
 The lease supervisor: the DHCP client reports address changes; the callback stops the
 networked function, waits for it, changes the address and starts the function again. When
 the client stops it first reports that its address is gone; then the channel is closed.
 Callback, child goroutine and channel are one state machine over their steps.
 */
module Lease {

  datatype Addr = Addr(ip: nat, prefix: nat)
  {
    predicate Specified() {
      ip != 0
    }
  }

  const NO_ADDR := Addr(0, 0)

  /** Where the callback is: not running, waiting on the channel, or about to add an address. */
  datatype Phase = Idle | Waiting(old': Addr, new': Addr) | Adding(new': Addr)

  /**
   `reported` is the last new address the DHCP client reported, `added` whether the stack
   took it; `stack` holds the addresses configured; `running` counts child goroutines and
   `tokens` the entries in the channel, which has room for one.
   */
  datatype State = State(
    phase: Phase, reported: Addr, added: bool, stack: set<nat>,
    running: nat, tokens: nat, hasCancel: bool, cancelled: bool, closed: bool)

  datatype Event =
    | Report(old': Addr, new': Addr)   // the DHCP client calls back
    | Receive                          // the callback takes a token and removes the old address
    | Finish(addOk: bool)              // the callback adds the new address, if any
    | Exit                             // the function saw the cancellation: the child signals and ends
    | Close                            // the client has cleaned up and stopped: the channel is closed

  /** `Blocked` means the step cannot be taken now. */
  datatype Result = Next(s: State) | Blocked | Panic

  /** Before the first lease. */
  predicate Initial(s: State) {
    s == State(Idle, NO_ADDR, false, {}, 0, 0, false, false, false)
  }

  function Step(s: State, e: Event): Result {
    match e
    case Report(old', new') =>
      if s.phase != Idle || s.closed then Blocked
      else
        var s' := s.(reported := new');
        if old' == new' then Next(s')
        else if old'.Specified() then
          (if !s.hasCancel then Panic else Next(s'.(phase := Waiting(old', new'), cancelled := true)))
        else Next(s'.(phase := Adding(new')))
    case Receive =>
      if !s.phase.Waiting? || s.tokens == 0 then Blocked
      else Next(s.(phase := Adding(s.phase.new'), tokens := s.tokens - 1, stack := s.stack - {s.phase.old'.ip}))
    case Finish(addOk) =>
      if !s.phase.Adding? then Blocked
      else if !s.phase.new'.Specified() || !addOk then Next(s.(phase := Idle, added := false))
      else
        Next(s.(phase := Idle, added := true, stack := s.stack + {s.phase.new'.ip},
                running := s.running + 1, hasCancel := true, cancelled := false))
    case Exit =>
      if s.running == 0 then Blocked
      else if s.closed then Panic
      else if s.tokens >= 1 then Blocked
      else Next(s.(running := s.running - 1, tokens := s.tokens + 1))
    case Close =>
      if s.phase != Idle || s.closed || s.reported != NO_ADDR then Blocked else Next(s.(closed := true))
  }

  // ---------------------------------------------------------------------
  // Runs

  /** Each old address is the new one reported before. */
  predicate InOrder(s: State, e: Event) {
    e.Report? ==> e.old' == s.reported
  }

  /** Events that cannot be taken leave the state as it is; a panic ends the run. */
  ghost function Run(s: State, events: seq<Event>): Result
    decreases |events|
  {
    if events == [] then Next(s)
    else
      match Step(s, events[0])
      case Next(s') => Run(s', events[1..])
      case Blocked => Run(s, events[1..])
      case Panic => Panic
  }

  ghost predicate OrderedRun(s: State, events: seq<Event>)
    decreases |events|
  {
    events != [] ==>
      && InOrder(s, events[0])
      && match Step(s, events[0])
         case Next(s') => OrderedRun(s', events[1..])
         case Blocked => OrderedRun(s, events[1..])
         case Panic => true
  }

  predicate AddsSucceed(events: seq<Event>) {
    forall i | 0 <= i < |events| :: events[i].Finish? ==> events[i].addOk
  }

  /** The address whose function may be running, if any. */
  function Held(s: State): Addr {
    match s.phase
    case Idle => if s.added then s.reported else NO_ADDR
    case Waiting(old', _) => if s.added then old' else NO_ADDR
    case Adding(_) => NO_ADDR
  }

  /**
   At most one child or token, and one exactly while an address is held; the stack has
   exactly that address. The channel is closed only when there is none.
   */
  ghost predicate Inv(s: State) {
    && s.running + s.tokens == (if Held(s).Specified() then 1 else 0)
    && s.stack == (if Held(s).Specified() then {Held(s).ip} else {})
    && (s.added ==> s.hasCancel)
    && (s.phase.Idle? && s.added ==> s.reported.Specified())
    && (s.phase.Waiting? ==>
          s.phase.old'.Specified() && s.phase.old' != s.phase.new' && s.reported == s.phase.new' && s.cancelled)
    && (s.phase.Adding? ==> s.reported == s.phase.new')
    && (s.closed ==> s.phase.Idle? && s.reported == NO_ADDR)
  }

  lemma StepKeeps(s: State, e: Event)
    requires Inv(s) && InOrder(s, e)
    ensures Step(s, e).Next? ==> Inv(Step(s, e).s)
  {
  }

  lemma {:induction false} RunKeeps(s: State, events: seq<Event>)
    requires Inv(s) && OrderedRun(s, events)
    ensures Run(s, events).Next? ==> Inv(Run(s, events).s)
    decreases |events|
  {
    if events != [] {
      StepKeeps(s, events[0]);
      match Step(s, events[0])
      case Next(s') => RunKeeps(s', events[1..]);
      case Blocked => RunKeeps(s, events[1..]);
      case Panic =>
    }
  }

  /**
   In every run with addresses reported in order, from the start or any other state that
   satisfies the invariant: children and tokens number as many as
   there are addresses configured, at most one; no address is removed while its function
   runs; and no child's end is a send on the closed channel.
   */
  lemma {:induction false} Supervised(start: State, events: seq<Event>)
    requires Inv(start) && OrderedRun(start, events) && Run(start, events).Next?
    ensures
      var s := Run(start, events).s;
      && s.running + s.tokens == |s.stack| <= 1
      && (forall e :: Step(s, e).Next? && !(s.stack <= Step(s, e).s.stack) ==> s.running == 0)
      && !Step(s, Exit).Panic?
      && (s.closed ==> s.running == 0 && s.stack == {})
  {
    RunKeeps(start, events);
    OneAtATime(Run(start, events).s);
  }

  lemma OneAtATime(s: State)
    requires Inv(s)
    ensures s.running + s.tokens == |s.stack| <= 1
    ensures forall e :: Step(s, e).Next? && !(s.stack <= Step(s, e).s.stack) ==> s.running == 0
    ensures !Step(s, Exit).Panic?
    ensures s.closed ==> s.running == 0 && s.stack == {}
  {
  }

  // ---------------------------------------------------------------------
  // Starting and stopping the function

  /** The function of an address is running, not cancelled, and the callback is idle. */
  predicate Serving(s: State, a: Addr) {
    && s.phase.Idle? && !s.closed && s.reported == a && s.added
    && s.running == 1 && s.tokens == 0 && s.stack == {a.ip} && s.hasCancel && !s.cancelled
  }

  /** With the first lease the address is configured and the function started. */
  lemma LeaseStarts(start: State, a: Addr)
    requires Initial(start) && a.Specified()
    ensures
      var lease := [Report(NO_ADDR, a), Finish(true)];
      OrderedRun(start, lease) && Run(start, lease).Next? && Serving(Run(start, lease).s, a)
  {
    var l := [Report(NO_ADDR, a), Finish(true)];
    var s1 := Step(start, l[0]).s;
    assert l[1..][1..] == [];
    assert Run(start, l) == Run(s1, l[1..]) == Run(Step(s1, Finish(true)).s, []);
    assert OrderedRun(s1, l[1..]);
  }

  /** A renewal changes nothing. */
  lemma Renewal(s: State)
    requires s.phase.Idle? && !s.closed
    ensures Step(s, Report(s.reported, s.reported)) == Next(s)
  {
  }

  /**
   A change of address, step by step: the function is cancelled; it ends; only then is the
   old address removed; and the function is started again with the new address.
   */
  lemma LeaseChanges(s: State, b: Addr)
    requires Serving(s, s.reported) && s.reported.Specified() && b.Specified() && b != s.reported
    ensures
      var r1 := Step(s, Report(s.reported, b));
      && r1.Next? && r1.s.cancelled && r1.s.running == 1 && r1.s.stack == s.stack
      && Step(r1.s, Receive).Blocked?
      && var r2 := Step(r1.s, Exit);
      && r2.Next? && r2.s.running == 0 && r2.s.tokens == 1 && r2.s.stack == s.stack
      && var r3 := Step(r2.s, Receive);
      && r3.Next? && r3.s.stack == {} && r3.s.running == 0 && r3.s.tokens == 0
      && var r4 := Step(r3.s, Finish(true));
      && r4.Next? && Serving(r4.s, b)
  {
  }

  /** Only a child's end puts a token into the channel, and only adding an address starts a child. */
  lemma StepCounts(s: State, e: Event)
    requires Step(s, e).Next?
    ensures
      var s' := Step(s, e).s;
      && (s'.tokens > s.tokens ==> e.Exit? && s'.tokens == s.tokens + 1 && s'.running == s.running - 1)
      && (s'.running != s.running ==>
            (e.Exit? && s'.running == s.running - 1) || (e.Finish? && s'.running == s.running + 1 && !s'.cancelled))
      && (s'.stack > s.stack ==> s'.running == s.running + 1)
  {
  }

  /** While no child has ended, there is one for each address configured. */
  lemma {:induction false} RunningWhileHeld(s: State, events: seq<Event>)
    requires Inv(s) && s.tokens == 0 && OrderedRun(s, events) && Run(s, events).Next?
    requires forall i | 0 <= i < |events| :: !events[i].Exit?
    ensures Run(s, events).s.tokens == 0 && Run(s, events).s.running == |Run(s, events).s.stack|
    decreases |events|
  {
    if events == [] {
      OneAtATime(s);
    } else {
      StepKeeps(s, events[0]);
      match Step(s, events[0])
      case Next(s') => RunningWhileHeld(s', events[1..]);
      case Blocked => RunningWhileHeld(s, events[1..]);
      case Panic =>
    }
  }

  // ---------------------------------------------------------------------
  // Getting stuck

  /** The reported address, if any, is on the stack. */
  ghost predicate Fitted(s: State) {
    Inv(s) && (s.phase.Idle? ==> s.added == s.reported.Specified()) && (s.phase.Waiting? ==> s.added)
  }

  /** The state before the first lease is one that the results below, and those above, start from. */
  lemma InitialFitted(start: State)
    requires Initial(start)
    ensures Inv(start) && Fitted(start)
  {
  }

  lemma {:induction false} AddsKeepFitted(s: State, events: seq<Event>)
    requires Fitted(s) && OrderedRun(s, events) && AddsSucceed(events)
    ensures Run(s, events).Next? && Fitted(Run(s, events).s)
    decreases |events|
  {
    if events != [] {
      StepKeeps(s, events[0]);
      match Step(s, events[0])
      case Next(s') => AddsKeepFitted(s', events[1..]);
      case Blocked => AddsKeepFitted(s, events[1..]);
      case Panic =>
    }
  }

  /**
   If adding addresses succeeds, nothing ever panics, to the client's stop and beyond; and a
   waiting callback gets its token as soon as the child ends.
   */
  lemma {:induction false} NeverStuck(start: State, events: seq<Event>)
    requires Fitted(start) && OrderedRun(start, events) && AddsSucceed(events)
    ensures
      var r := Run(start, events);
      && r.Next?
      && (r.s.phase.Waiting? ==>
            Run(r.s, [Exit, Receive]).Next? && Run(r.s, [Exit, Receive]).s.phase == Adding(r.s.phase.new'))
  {
    AddsKeepFitted(start, events);
    var s := Run(start, events).s;
    if s.phase.Waiting? {
      Progress(s);
    }
  }

  /** The child, if it has not ended yet, ends, and the callback goes on. */
  lemma Progress(s: State)
    requires Inv(s) && s.phase.Waiting? && s.added
    ensures Run(s, [Exit, Receive]).Next? && Run(s, [Exit, Receive]).s.phase == Adding(s.phase.new')
  {
    assert [Exit, Receive][1..] == [Receive] && [Receive][1..] == [];
    var s' := if s.running > 0 then Step(s, Exit).s else s;
    assert Run(s, [Exit, Receive]) == Run(s', [Receive]);
    assert Run(s', [Receive]) == Run(Step(s', Receive).s, []);
  }

  /** A callback that waits without a child or a token waits for ever. */
  lemma {:induction false} StuckForEver(s: State, events: seq<Event>)
    requires s.phase.Waiting? && s.running == 0 && s.tokens == 0
    ensures Run(s, events) == Next(s)
    decreases |events|
  {
    if events != [] {
      StuckForEver(s, events[1..]);
    }
  }

  /** Whatever happens, the state stays as it is. */
  ghost predicate WaitsForEver(s: State) {
    forall events :: Run(s, events) == Next(s)
  }

  /**
   When the next change is reported, the clean-up report of a stopping client included, the
   callback panics exactly if no child was ever started, and otherwise waits for ever exactly
   if the stack did not take the address held until then.
   */
  lemma NextChange(s: State, new': Addr)
    requires Inv(s) && s.phase.Idle? && !s.closed && s.reported.Specified() && new' != s.reported
    ensures
      var r := Step(s, Report(s.reported, new'));
      && (r.Panic? <==> !s.hasCancel)
      && (r.Next? <==> s.hasCancel)
      && (r.Next? ==> r.s.phase.Waiting? && (WaitsForEver(r.s) <==> !s.added))
  {
    var r := Step(s, Report(s.reported, new'));
    if r.Next? {
      if s.added {
        StepKeeps(s, Report(s.reported, new'));
        Progress(r.s);
      } else {
        forall events
          ensures Run(r.s, events) == Next(r.s)
        {
          StuckForEver(r.s, events);
        }
      }
    }
  }

  /** What happens when the client stops: it reports its address gone, and the channel is closed. */
  function Stop(s: State): seq<Event> {
    [Report(s.reported, NO_ADDR), Exit, Receive, Finish(true), Close]
  }

  /**
   The client's stop goes through exactly if the stack took the last address reported, if
   any. If it did not, the clean-up callback panics, or waits for ever and the channel is
   never closed.
   */
  lemma StopsExactlyIf(s: State)
    requires Inv(s) && s.phase.Idle? && !s.closed
    ensures OrderedRun(s, Stop(s))
    ensures
      var r, refused := Run(s, Stop(s)), s.reported.Specified() && !s.added;
      && (r.Panic? <==> refused && !s.hasCancel)
      && (r.Next? && r.s.closed <==> !refused)
      && (refused && s.hasCancel ==> WaitsForEver(Step(s, Report(s.reported, NO_ADDR)).s))
  {
    var l := Stop(s);
    assert l[1..] == [Exit, Receive, Finish(true), Close];
    if s.reported.Specified() {
      NextChange(s, NO_ADDR);
      if s.added {
        StepKeeps(s, l[0]);
        StopsFrom(Step(s, l[0]).s);
      } else if s.hasCancel {
        StuckForEver(Step(s, l[0]).s, l[1..]);
        StuckOrdered(Step(s, l[0]).s, l[1..]);
      }
    } else {
      StepKeeps(s, l[0]);
      StopsFrom(Step(s, l[0]).s);
    }
  }

  /** The rest of the stop, once the clean-up report is in. */
  lemma StopsFrom(s: State)
    requires Inv(s) && !s.closed && s.reported == NO_ADDR && (s.phase.Waiting? ==> s.added)
    ensures
      var l := [Exit, Receive, Finish(true), Close];
      OrderedRun(s, l) && Run(s, l).Next? && Run(s, l).s.closed
  {
    var l := [Exit, Receive, Finish(true), Close];
    assert l[1..] == [Receive, Finish(true), Close] && l[1..][1..] == [Finish(true), Close];
    assert l[1..][1..][1..] == [Close] && l[1..][1..][1..][1..] == [];
    var s1 := if Step(s, Exit).Next? then Step(s, Exit).s else s;
    var s2 := if Step(s1, Receive).Next? then Step(s1, Receive).s else s1;
    var s3 := if Step(s2, Finish(true)).Next? then Step(s2, Finish(true)).s else s2;
    assert Run(s3, [Close]) == Run(Step(s3, Close).s, []) && OrderedRun(s3, [Close]);
    assert Run(s2, l[1..][1..]) == Run(s3, [Close]) && OrderedRun(s2, l[1..][1..]);
    assert Run(s1, l[1..]) == Run(s2, l[1..][1..]) && OrderedRun(s1, l[1..]);
  }

  lemma {:induction false} StuckOrdered(s: State, events: seq<Event>)
    requires s.phase.Waiting? && s.running == 0 && s.tokens == 0
    requires forall i | 0 <= i < |events| :: !events[i].Report?
    ensures OrderedRun(s, events)
    decreases |events|
  {
    if events != [] {
      StuckOrdered(s, events[1..]);
    }
  }

  /** If the very first address is refused, the next change, or the client's stop, is a panic. */
  lemma FirstAddFailurePanics(start: State, a: Addr, b: Addr)
    requires Initial(start) && a.Specified() && a != b
    ensures
      var leases := [Report(NO_ADDR, a), Finish(false), Report(a, b)];
      OrderedRun(start, leases) && Run(start, leases).Panic?
  {
    var s1 := Step(start, Report(NO_ADDR, a)).s;
    var s2 := Step(s1, Finish(false)).s;
    var l := [Report(NO_ADDR, a), Finish(false), Report(a, b)];
    assert l[1..][1..] == l[2..];
    assert Run(start, l) == Run(s1, l[1..]) == Run(s2, l[2..]);
    assert OrderedRun(s2, l[2..]) && OrderedRun(s1, l[1..]);
  }

  /** Such a run: one lease works, adding the second address fails, the third is never configured. */
  lemma AddFailureSticks(start: State, a: Addr, b: Addr, c: Addr, events: seq<Event>)
    requires Initial(start)
    requires a.Specified() && b.Specified() && c.Specified() && a != b && b != c
    ensures
      var leases := [Report(NO_ADDR, a), Finish(true), Report(a, b), Exit, Receive, Finish(false), Report(b, c)];
      && OrderedRun(start, leases)
      && Run(start, leases).Next?
      && Run(Run(start, leases).s, events) == Next(Run(start, leases).s)
      && Run(start, leases).s.stack == {}
  {
    var s1 := Step(start, Report(NO_ADDR, a)).s;
    var s2 := Step(s1, Finish(true)).s;
    var s3 := Step(s2, Report(a, b)).s;
    var s4 := Step(s3, Exit).s;
    var s5 := Step(s4, Receive).s;
    var s6 := Step(s5, Finish(false)).s;
    var s7 := Step(s6, Report(b, c)).s;
    var l := [Report(NO_ADDR, a), Finish(true), Report(a, b), Exit, Receive, Finish(false), Report(b, c)];
    assert l[1..][1..] == l[2..] && l[2..][1..] == l[3..] && l[3..][1..] == l[4..];
    assert l[4..][1..] == l[5..] && l[5..][1..] == l[6..] && l[6..][1..] == [];
    assert Run(start, l) == Run(s1, l[1..]) == Run(s2, l[2..]) == Run(s3, l[3..]);
    assert Run(s3, l[3..]) == Run(s4, l[4..]) == Run(s5, l[5..]) == Run(s6, l[6..]) == Next(s7);
    assert OrderedRun(s6, l[6..]);
    assert OrderedRun(s5, l[5..]) && OrderedRun(s4, l[4..]) && OrderedRun(s3, l[3..]);
    assert OrderedRun(s2, l[2..]) && OrderedRun(s1, l[1..]);
    StuckForEver(s7, events);
  }
}
