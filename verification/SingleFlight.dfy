/** The shared disk-usage scan: callers join the scan in flight or start one, and wait for it.
    Every step is one critical section or one atomic access, so every interleaving of the tasks is
    a sequence of steps. */
module SingleFlight {
  import opened Text

  /** How far the task of a scan has come. */
  datatype Phase = Created | Running | Published | Cleared | Notified

  /** A scan; `notifications` counts how often its waiters have been notified. */
  datatype Scan<Outcome> = Scan(phase: Phase, outcome: Option<Outcome>, cancelRequested: bool, notifications: nat)

  /** A caller of `analyze`. A registration remembers how many notifications came before it. */
  datatype Caller<Outcome> =
    | Starting(scan: nat)
    | Joined(scan: nat)
    | Registered(scan: nat, seen: nat)
    | Sleeping(scan: nat, seen: nat)
    | Returned(scan: nat, outcome: Outcome)
    | Abandoned(scan: nat)

  /** A caller of `cancel`, which finds no scan in flight, or clones it and then swaps its flag. */
  datatype Canceller = NothingToCancel | Holding(scan: nat) | Answered(scan: nat, result: bool)

  datatype State<Outcome> = State(
    inFlight: Option<nat>,
    scans: seq<Scan<Outcome>>,
    callers: seq<Caller<Outcome>>,
    cancellers: seq<Canceller>)

  datatype Step<Outcome> =
    | Analyze
    | Spawn(caller: nat)
    | Register(caller: nat)
    | Check(caller: nat)
    | Wake(caller: nat)
    | Abandon(caller: nat)
    | Publish(scan: nat, outcome: Outcome)
    | Clear(scan: nat)
    | Notify(scan: nat)
    | Cancel
    | Swap(canceller: nat)

  function Initial<Outcome>(): State<Outcome> {
    State(None, [], [], [])
  }

  predicate IsWaiting(caller: Caller) {
    caller.Joined? || caller.Registered? || caller.Sleeping?
  }

  /** A sleeper is woken by the notifications after its registration. */
  predicate CanWake(caller: Caller, scans: seq<Scan>) {
    caller.Sleeping? && caller.scan < |scans| && scans[caller.scan].notifications > caller.seen
  }

  predicate IsEnabled<Outcome>(s: State<Outcome>, step: Step<Outcome>) {
    match step
    case Analyze => true
    case Spawn(c) => c < |s.callers| && s.callers[c].Starting? && s.callers[c].scan < |s.scans|
    case Register(c) => c < |s.callers| && s.callers[c].Joined? && s.callers[c].scan < |s.scans|
    case Check(c) => c < |s.callers| && s.callers[c].Registered? && s.callers[c].scan < |s.scans|
    case Wake(c) => c < |s.callers| && CanWake(s.callers[c], s.scans)
    case Abandon(c) => c < |s.callers| && IsWaiting(s.callers[c])
    case Publish(i, _) => i < |s.scans| && s.scans[i].phase == Running
    case Clear(i) => i < |s.scans| && s.scans[i].phase == Published
    case Notify(i) => i < |s.scans| && s.scans[i].phase == Cleared
    case Cancel => true
    case Swap(k) => k < |s.cancellers| && s.cancellers[k].Holding? && s.cancellers[k].scan < |s.scans|
  }

  function Apply<Outcome>(s: State<Outcome>, step: Step<Outcome>): State<Outcome>
    requires IsEnabled(s, step)
  {
    match step
    case Analyze =>
      (match s.inFlight
       case Some(i) => s.(callers := s.callers + [Joined(i)])
       case None =>
         s.(inFlight := Some(|s.scans|), scans := s.scans + [Scan(Created, None, false, 0)],
            callers := s.callers + [Starting(|s.scans|)]))
    case Spawn(c) =>
      var i := s.callers[c].scan;
      s.(scans := s.scans[i := s.scans[i].(phase := Running)], callers := s.callers[c := Joined(i)])
    case Register(c) =>
      var i := s.callers[c].scan;
      s.(callers := s.callers[c := Registered(i, s.scans[i].notifications)])
    case Check(c) =>
      var i, seen := s.callers[c].scan, s.callers[c].seen;
      (match s.scans[i].outcome
       case Some(outcome) => s.(callers := s.callers[c := Returned(i, outcome)])
       case None => s.(callers := s.callers[c := Sleeping(i, seen)]))
    case Wake(c) => s.(callers := s.callers[c := Joined(s.callers[c].scan)])
    case Abandon(c) => s.(callers := s.callers[c := Abandoned(s.callers[c].scan)])
    case Publish(i, outcome) => s.(scans := s.scans[i := s.scans[i].(phase := Published, outcome := Some(outcome))])
    case Clear(i) =>
      s.(scans := s.scans[i := s.scans[i].(phase := Cleared)],
         inFlight := if s.inFlight == Some(i) then None else s.inFlight)
    case Notify(i) =>
      var scan := s.scans[i];
      s.(scans := s.scans[i := scan.(phase := Notified, notifications := scan.notifications + 1)])
    case Cancel =>
      (match s.inFlight
       case Some(i) => s.(cancellers := s.cancellers + [Holding(i)])
       case None => s.(cancellers := s.cancellers + [NothingToCancel]))
    case Swap(k) =>
      var i := s.cancellers[k].scan;
      s.(scans := s.scans[i := s.scans[i].(cancelRequested := true)],
         cancellers := s.cancellers[k := Answered(i, !s.scans[i].cancelRequested)])
  }

  /** The state after some steps from another one, if each was possible in its turn. */
  function Run<Outcome>(s: State<Outcome>, steps: seq<Step<Outcome>>): Option<State<Outcome>>
    decreases |steps|
  {
    if steps == [] then Some(s)
    else if IsEnabled(s, steps[0]) then Run(Apply(s, steps[0]), steps[1..])
    else None
  }

  // ---- What every step keeps ----

  ghost predicate IsActive(phase: Phase) {
    phase == Created || phase == Running || phase == Published
  }

  ghost predicate ScanValid(scan: Scan) {
    && (scan.outcome.Some? <==> scan.phase !in {Created, Running})
    && scan.notifications == (if scan.phase == Notified then 1 else 0)
  }

  ghost predicate CallerValid<Outcome>(caller: Caller<Outcome>, scans: seq<Scan<Outcome>>) {
    && caller.scan < |scans|
    && (caller.Starting? ==> scans[caller.scan].phase == Created)
    && (caller.Registered? ==> caller.seen <= scans[caller.scan].notifications)
    && (caller.Sleeping? ==> caller.seen == 0)
    && (caller.Returned? ==> scans[caller.scan].outcome == Some(caller.outcome))
  }

  ghost predicate CancellerValid(canceller: Canceller, scans: seq<Scan>) {
    match canceller
    case NothingToCancel => true
    case Holding(i) => i < |scans|
    case Answered(i, result) => i < |scans| && scans[i].cancelRequested
  }

  /** The active scans are exactly the one in flight. */
  ghost predicate OneInFlight(s: State) {
    && (s.inFlight.Some? ==> s.inFlight.value < |s.scans|)
    && forall i :: 0 <= i < |s.scans| ==> (IsActive(s.scans[i].phase) <==> s.inFlight == Some(i))
  }

  /** A scan that is created but not yet running has a caller about to start it. */
  ghost predicate StartersLive(s: State) {
    forall i :: 0 <= i < |s.scans| && s.scans[i].phase == Created ==> HasStarter(s, i)
  }

  ghost predicate HasStarter(s: State, i: nat) {
    exists c :: 0 <= c < |s.callers| && s.callers[c] == Starting(i)
  }

  ghost predicate StartersUnique(s: State) {
    forall c, d :: 0 <= c < d < |s.callers| && s.callers[c].Starting? ==> s.callers[c] != s.callers[d]
  }

  ghost predicate IsWin(canceller: Canceller) {
    canceller.Answered? && canceller.result
  }

  /** No two cancellers won the same scan. */
  ghost predicate CancelledOnce(s: State) {
    forall j, k :: 0 <= j < k < |s.cancellers| && IsWin(s.cancellers[j]) ==> s.cancellers[j] != s.cancellers[k]
  }

  ghost predicate HasWinner(s: State, i: nat) {
    exists k :: 0 <= k < |s.cancellers| && s.cancellers[k] == Answered(i, true)
  }

  ghost predicate CancelledByOne(s: State) {
    forall i :: 0 <= i < |s.scans| && s.scans[i].cancelRequested ==> HasWinner(s, i)
  }

  ghost predicate ScansValid(s: State) {
    OneInFlight(s) && forall i :: 0 <= i < |s.scans| ==> ScanValid(s.scans[i])
  }

  ghost predicate CallersValid(s: State) {
    StartersUnique(s) && forall c :: 0 <= c < |s.callers| ==> CallerValid(s.callers[c], s.scans)
  }

  ghost predicate CancellersValid(s: State) {
    CancelledOnce(s) && forall k :: 0 <= k < |s.cancellers| ==> CancellerValid(s.cancellers[k], s.scans)
  }

  ghost predicate Valid(s: State) {
    ScansValid(s) && CallersValid(s) && CancellersValid(s) && StartersLive(s) && CancelledByOne(s)
  }

  lemma StepKeepsScans<Outcome>(s: State<Outcome>, step: Step<Outcome>)
    requires ScansValid(s) && CallersValid(s) && IsEnabled(s, step)
    ensures ScansValid(Apply(s, step))
  {
    hide StartersUnique;
  }

  lemma StepKeepsCallers<Outcome>(s: State<Outcome>, step: Step<Outcome>)
    requires ScansValid(s) && CallersValid(s) && IsEnabled(s, step)
    ensures CallersValid(Apply(s, step))
  {
    var t := Apply(s, step);
    forall c | 0 <= c < |t.callers| ensures CallerValid(t.callers[c], t.scans) {
      if c < |s.callers| { assert CallerValid(s.callers[c], s.scans); }
    }
  }

  lemma StepKeepsCancellers<Outcome>(s: State<Outcome>, step: Step<Outcome>)
    requires ScansValid(s) && CancellersValid(s) && IsEnabled(s, step)
    ensures CancellersValid(Apply(s, step))
  {
  }

  lemma StepKeepsWinners<Outcome>(s: State<Outcome>, step: Step<Outcome>)
    requires Valid(s) && IsEnabled(s, step)
    ensures CancelledByOne(Apply(s, step))
  {
    var t := Apply(s, step);
    hide ScansValid, CallersValid, StartersLive;
    forall i | 0 <= i < |t.scans| && t.scans[i].cancelRequested ensures HasWinner(t, i) {
      if i < |s.scans| && s.scans[i].cancelRequested {
        assert HasWinner(s, i);
        var k :| 0 <= k < |s.cancellers| && s.cancellers[k] == Answered(i, true);
        assert t.cancellers[k] == Answered(i, true);
      } else {
        assert t.cancellers[step.canceller] == Answered(i, true);
      }
    }
  }

  lemma StepKeepsStarters<Outcome>(s: State<Outcome>, step: Step<Outcome>)
    requires Valid(s) && IsEnabled(s, step)
    ensures StartersLive(Apply(s, step))
  {
    var t := Apply(s, step);
    forall i | 0 <= i < |t.scans| && t.scans[i].phase == Created ensures HasStarter(t, i) {
      if i < |s.scans| {
        assert HasStarter(s, i);
        var c :| 0 <= c < |s.callers| && s.callers[c] == Starting(i);
        assert t.callers[c] == Starting(i);
      } else {
        assert t.callers[|s.callers|] == Starting(i);
      }
    }
  }

  lemma StepKeepsValid<Outcome>(s: State<Outcome>, step: Step<Outcome>)
    requires Valid(s) && IsEnabled(s, step)
    ensures Valid(Apply(s, step))
  {
    StepKeepsScans(s, step);
    StepKeepsCallers(s, step);
    StepKeepsCancellers(s, step);
    StepKeepsStarters(s, step);
    StepKeepsWinners(s, step);
    hide Apply, ScansValid, CallersValid, CancellersValid, StartersLive, CancelledByOne;
  }

  lemma {:induction false} RunKeepsValid<Outcome>(s: State<Outcome>, steps: seq<Step<Outcome>>)
    requires Valid(s) && Run(s, steps).Some?
    ensures Valid(Run(s, steps).value)
    decreases |steps|
  {
    if steps != [] {
      hide Valid, Apply, IsEnabled;
      StepKeepsValid(s, steps[0]);
      RunKeepsValid(Apply(s, steps[0]), steps[1..]);
    }
  }

  // ---- Safety over every run ----

  /** The states that some interleaving reaches. */
  ghost predicate IsReachable<Outcome(!new)>(s: State<Outcome>) {
    exists steps: seq<Step<Outcome>> :: Run(Initial(), steps) == Some(s)
  }

  lemma ReachableIsValid<Outcome(!new)>(s: State<Outcome>)
    requires IsReachable(s)
    ensures Valid(s)
  {
    var steps: seq<Step<Outcome>> :| Run(Initial(), steps) == Some(s);
    RunKeepsValid(Initial(), steps);
  }

  /** Whatever the interleaving: at most one scan is active, and it is the one callers join. */
  lemma AtMostOneActive<Outcome(!new)>(s: State<Outcome>, i: nat, j: nat)
    requires IsReachable(s) && i < |s.scans| && j < |s.scans|
    requires IsActive(s.scans[i].phase) && IsActive(s.scans[j].phase)
    ensures i == j && s.inFlight == Some(i)
  {
    ReachableIsValid(s);
  }

  /** Callers that got an answer from the same scan got the same one: its outcome. */
  lemma SameScanSameOutcome<Outcome(!new)>(s: State<Outcome>, c: nat, d: nat)
    requires IsReachable(s) && c < |s.callers| && d < |s.callers|
    requires s.callers[c].Returned? && s.callers[d].Returned? && s.callers[c].scan == s.callers[d].scan
    ensures s.callers[c].outcome == s.callers[d].outcome
    ensures s.callers[c].scan < |s.scans| && s.scans[s.callers[c].scan].outcome == Some(s.callers[c].outcome)
  {
    ReachableIsValid(s);
    assert CallerValid(s.callers[c], s.scans) && CallerValid(s.callers[d], s.scans);
  }

  /** No waiter sleeps past the notification of its scan. */
  lemma NoLostWakeup<Outcome(!new)>(s: State<Outcome>, c: nat)
    requires IsReachable(s) && c < |s.callers| && s.callers[c].Sleeping?
    ensures s.callers[c].scan < |s.scans|
    ensures s.scans[s.callers[c].scan].phase == Notified ==> IsEnabled(s, Wake(c))
  {
    ReachableIsValid(s);
    assert CallerValid(s.callers[c], s.scans);
    assert ScanValid(s.scans[s.callers[c].scan]);
  }

  /** Of the cancellations of one scan exactly one is answered with true. */
  lemma CancelledExactlyOnce<Outcome(!new)>(s: State<Outcome>, i: nat, k: nat)
    requires IsReachable(s) && k < |s.cancellers| && s.cancellers[k].Answered? && s.cancellers[k].scan == i
    ensures HasWinner(s, i)
    ensures forall j, l :: 0 <= j < l < |s.cancellers| ==> !(s.cancellers[j] == s.cancellers[l] == Answered(i, true))
  {
    ReachableIsValid(s);
    assert CancellerValid(s.cancellers[k], s.scans);
  }

  /** What a step leaves alone: outcomes once published, the scan of each caller, and every answer. */
  lemma StepKeepsAnswers<Outcome>(s: State<Outcome>, step: Step<Outcome>)
    requires Valid(s) && IsEnabled(s, step)
    ensures var t := Apply(s, step);
      && |t.scans| >= |s.scans| && |t.callers| >= |s.callers|
      && (forall i :: 0 <= i < |s.scans| && s.scans[i].outcome.Some? ==> t.scans[i].outcome == s.scans[i].outcome)
      && (forall c :: 0 <= c < |s.callers| ==> t.callers[c].scan == s.callers[c].scan)
      && (forall c :: 0 <= c < |s.callers| && s.callers[c].Returned? ==> t.callers[c] == s.callers[c])
  {
    hide CancellersValid, StartersLive, CancelledByOne, StartersUnique, OneInFlight;
  }

  // ---- Liveness ----

  /** The steps of the tasks themselves; new callers and callers that give up are not among them. */
  predicate IsProgress<Outcome>(step: Step<Outcome>) {
    !step.Analyze? && !step.Cancel? && !step.Abandon?
  }

  function CallerRank<Outcome>(caller: Caller<Outcome>, scans: seq<Scan<Outcome>>): nat {
    var published := caller.scan < |scans| && scans[caller.scan].outcome.Some?;
    match caller
    case Starting(_) => 7
    case Joined(_) => if published then 3 else 6
    case Registered(_, _) => if published then 2 else 5
    case Sleeping(_, _) => 4
    case Returned(_, _) => 0
    case Abandoned(_) => 0
  }

  function ScanRank(scan: Scan): nat {
    match scan.phase
    case Created => 4
    case Running => 3
    case Published => 2
    case Cleared => 1
    case Notified => 0
  }

  function CancellerRank(canceller: Canceller): nat {
    if canceller.Holding? then 1 else 0
  }

  function Sum(ranks: seq<nat>): nat {
    if ranks == [] then 0 else ranks[0] + Sum(ranks[1..])
  }

  lemma {:induction false} SumDecreases(before: seq<nat>, after: seq<nat>)
    requires |before| == |after| && forall i :: 0 <= i < |before| ==> after[i] <= before[i]
    ensures Sum(after) <= Sum(before)
    ensures (exists i :: 0 <= i < |before| && after[i] < before[i]) ==> Sum(after) < Sum(before)
    decreases before
  {
    if before != [] {
      SumDecreases(before[1..], after[1..]);
      if i :| 0 < i < |before| && after[i] < before[i] {
        assert after[1..][i - 1] < before[1..][i - 1];
      }
    }
  }

  function CallerRanks<Outcome>(s: State<Outcome>): seq<nat> {
    seq(|s.callers|, c requires 0 <= c < |s.callers| => CallerRank(s.callers[c], s.scans))
  }

  function ScanRanks<Outcome>(s: State<Outcome>): seq<nat> {
    seq(|s.scans|, i requires 0 <= i < |s.scans| => ScanRank(s.scans[i]))
  }

  function CancellerRanks<Outcome>(s: State<Outcome>): seq<nat> {
    seq(|s.cancellers|, k requires 0 <= k < |s.cancellers| => CancellerRank(s.cancellers[k]))
  }

  /** How many steps the tasks have before them at most. */
  function StepsLeft<Outcome>(s: State<Outcome>): nat {
    Sum(CallerRanks(s)) + Sum(ScanRanks(s)) + Sum(CancellerRanks(s))
  }

  ghost predicate Below(after: seq<nat>, before: seq<nat>) {
    |after| == |before| && forall i :: 0 <= i < |before| ==> after[i] <= before[i]
  }

  ghost predicate StrictlyBelow(after: seq<nat>, before: seq<nat>) {
    Below(after, before) && exists i :: 0 <= i < |before| && after[i] < before[i]
  }

  lemma ScanStepsDecrease<Outcome>(s: State<Outcome>, step: Step<Outcome>)
    requires Valid(s) && IsEnabled(s, step) && (step.Publish? || step.Clear? || step.Notify?)
    ensures var t := Apply(s, step);
      && Below(CallerRanks(t), CallerRanks(s)) && CancellerRanks(t) == CancellerRanks(s)
      && StrictlyBelow(ScanRanks(t), ScanRanks(s))
  {
    hide CancellersValid, StartersLive, CancelledByOne, StartersUnique, OneInFlight;
    var t := Apply(s, step);
    assert ScanRanks(t)[step.scan] < ScanRanks(s)[step.scan];
  }

  lemma CallerStepsDecrease<Outcome>(s: State<Outcome>, step: Step<Outcome>)
    requires Valid(s) && IsEnabled(s, step) && (step.Spawn? || step.Register? || step.Check? || step.Wake?)
    ensures var t := Apply(s, step);
      && StrictlyBelow(CallerRanks(t), CallerRanks(s)) && CancellerRanks(t) == CancellerRanks(s)
      && Below(ScanRanks(t), ScanRanks(s))
  {
    hide CancellersValid, StartersLive, CancelledByOne, StartersUnique, OneInFlight;
    var t := Apply(s, step);
    assert CallerValid(s.callers[step.caller], s.scans) && ScanValid(s.scans[s.callers[step.caller].scan]);
    assert CallerRanks(t)[step.caller] < CallerRanks(s)[step.caller];
  }

  lemma SwapDecreases<Outcome>(s: State<Outcome>, step: Step<Outcome>)
    requires Valid(s) && IsEnabled(s, step) && step.Swap?
    ensures var t := Apply(s, step);
      && CallerRanks(t) == CallerRanks(s) && StrictlyBelow(CancellerRanks(t), CancellerRanks(s))
      && ScanRanks(t) == ScanRanks(s)
  {
    hide Valid;
    var t := Apply(s, step);
    assert CancellerRanks(t)[step.canceller] < CancellerRanks(s)[step.canceller];
  }

  lemma ProgressDecreases<Outcome>(s: State<Outcome>, step: Step<Outcome>)
    requires Valid(s) && IsEnabled(s, step) && IsProgress(step)
    ensures StepsLeft(Apply(s, step)) < StepsLeft(s)
  {
    var t := Apply(s, step);
    hide Sum, Valid, IsEnabled, Apply, CallerRanks, ScanRanks, CancellerRanks;
    if step.Swap? {
      SwapDecreases(s, step);
    } else if step.Publish? || step.Clear? || step.Notify? {
      ScanStepsDecrease(s, step);
    } else {
      CallerStepsDecrease(s, step);
    }
    SumDecreases(CallerRanks(s), CallerRanks(t));
    SumDecreases(ScanRanks(s), ScanRanks(t));
    SumDecreases(CancellerRanks(s), CancellerRanks(t));
  }

  /** While a caller waits, some task can take a step: its own, the one that starts its scan, or
      the scan's. The outcome of a scan that is still running may be any. */
  lemma NoDeadlock<Outcome>(s: State<Outcome>, c: nat, outcome: Outcome) returns (step: Step<Outcome>)
    requires Valid(s) && c < |s.callers| && !s.callers[c].Returned? && !s.callers[c].Abandoned?
    ensures IsEnabled(s, step) && IsProgress(step)
  {
    hide CancellersValid, CancelledByOne, StartersUnique, OneInFlight;
    var caller := s.callers[c];
    var i := caller.scan;
    assert CallerValid(caller, s.scans) && ScanValid(s.scans[i]);
    match caller
    case Starting(_) => step := Spawn(c);
    case Joined(_) => step := Register(c);
    case Registered(_, _) => step := Check(c);
    case Sleeping(_, _) =>
      match s.scans[i].phase
      case Created =>
        assert HasStarter(s, i);
        var d :| 0 <= d < |s.callers| && s.callers[d] == Starting(i);
        step := Spawn(d);
      case Running => step := Publish(i, outcome);
      case Published => step := Clear(i);
      case Cleared => step := Notify(i);
      case Notified => step := Wake(c);
  }

  lemma {:induction false} ProgressEnds<Outcome>(s: State<Outcome>, steps: seq<Step<Outcome>>)
    requires Valid(s) && Run(s, steps).Some? && forall step <- steps :: IsProgress(step)
    ensures |steps| + StepsLeft(Run(s, steps).value) <= StepsLeft(s)
    decreases |steps|
  {
    if steps != [] {
      hide Valid, Apply, IsEnabled, StepsLeft, IsProgress;
      assert steps[0] in steps && forall step <- steps[1..] :: step in steps;
      StepKeepsValid(s, steps[0]);
      ProgressDecreases(s, steps[0]);
      ProgressEnds(Apply(s, steps[0]), steps[1..]);
    }
  }

  lemma WaitingIsBusy<Outcome(!new)>(s: State<Outcome>, c: nat, outcome: Outcome)
    requires Valid(s) && c < |s.callers| && !s.callers[c].Abandoned?
    ensures s.callers[c].Returned? || exists step: Step<Outcome> :: IsProgress(step) && IsEnabled(s, step)
  {
    hide Valid, IsProgress, IsEnabled;
    if !s.callers[c].Returned? {
      var step := NoDeadlock(s, c, outcome);
      assert IsProgress(step) && IsEnabled(s, step);
    }
  }

  /** From every reachable state the tasks take only so many steps, and when none of them can take
      another, every caller that has not given up has been given the outcome of its scan. */
  lemma EveryCallerReturns<Outcome(!new)>(s: State<Outcome>, steps: seq<Step<Outcome>>, outcome: Outcome)
    requires IsReachable(s) && Run(s, steps).Some? && forall step <- steps :: IsProgress(step)
    ensures |steps| <= StepsLeft(s)
    ensures var t := Run(s, steps).value;
      (forall step: Step<Outcome> :: IsProgress(step) ==> !IsEnabled(t, step))
      ==> forall c :: 0 <= c < |t.callers| && !t.callers[c].Abandoned? ==> HasAnswer(t, c)
  {
    ReachableIsValid(s);
    ProgressEnds(s, steps);
    RunKeepsValid(s, steps);
    var t := Run(s, steps).value;
    hide Run, StepsLeft, IsProgress, IsEnabled;
    if forall step: Step<Outcome> :: IsProgress(step) ==> !IsEnabled(t, step) {
      forall c | 0 <= c < |t.callers| && !t.callers[c].Abandoned? ensures HasAnswer(t, c) {
        assert CallerValid(t.callers[c], t.scans);
        WaitingIsBusy(t, c, outcome);
      }
    }
  }

  ghost predicate HasAnswer<Outcome>(s: State<Outcome>, c: nat)
    requires c < |s.callers|
  {
    var caller := s.callers[c];
    caller.Returned? && caller.scan < |s.scans| && s.scans[caller.scan].outcome == Some(caller.outcome)
  }
}
