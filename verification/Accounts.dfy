/** How changes of the account state reach its subscribers. A snapshot stands for the version of the
    state it was read from. Every step is one access to shared state, so every interleaving of the
    tasks is a sequence of steps. */
module Accounts {
  import opened Text

  datatype Event = Ready(version: nat) | Snapshot(version: nat) | End

  /** A subscription: asked for, refused because the state could not be read, or open. An open one
      has the snapshot it begins with, and a channel that holds the latest snapshot sent. */
  datatype Subscription =
    | Requested
    | Refused
    | Open(ready: Option<nat>, latest: Option<nat>, unseen: bool, borrowing: bool, cancelled: bool, dropped: bool,
           delivered: seq<Event>)

  /** A call of `publish`, which remembers the version current when it began. */
  datatype Publisher = Waiting(since: nat) | Done(since: nat, version: nat) | Failed(since: nat)

  /** Who holds the lock on the subscribers, and how far it has come. */
  datatype Holder =
    | Free
    | Publishing(publisher: nat, version: Option<nat>, remaining: set<nat>)
    | Subscribing(subscription: nat, version: Option<nat>)

  /** `published` is the version read by the last publish that completed. */
  datatype State = State(
    current: nat,
    published: nat,
    holder: Holder,
    registered: set<nat>,
    subscriptions: seq<Subscription>,
    publishers: seq<Publisher>)

  datatype Step =
    | Change
    | Publish
    | PublishLock(publisher: nat)
    | PublishRead
    | PublishFail
    | PublishSend(subscription: nat)
    | PublishUnlock
    | Subscribe
    | SubscribeLock(subscription: nat)
    | SubscribeRead
    | SubscribeFail
    | SubscribeInsert
    | Unsubscribe(subscription: nat)
    | NextReady(subscription: nat)
    | NextChanged(subscription: nat)
    | NextBorrow(subscription: nat)
    | NextEnd(subscription: nat)
    | Drop(subscription: nat)

  const INITIAL := State(0, 0, Free, {}, [], [])

  predicate IsHeld(s: State, i: nat) {
    i < |s.subscriptions| && s.subscriptions[i].Open? && !s.subscriptions[i].dropped
  }

  predicate IsEnabled(s: State, step: Step) {
    match step
    case Change => true
    case Publish => true
    case PublishLock(p) => s.holder.Free? && p < |s.publishers| && s.publishers[p].Waiting?
    case PublishRead => s.holder.Publishing? && s.holder.version.None?
    case PublishFail => s.holder.Publishing? && s.holder.version.None? && s.holder.publisher < |s.publishers|
    case PublishSend(i) => s.holder.Publishing? && s.holder.version.Some? && i in s.holder.remaining
                           && i < |s.subscriptions| && s.subscriptions[i].Open?
    case PublishUnlock => s.holder.Publishing? && s.holder.version.Some? && s.holder.remaining == {}
                          && s.holder.publisher < |s.publishers|
    case Subscribe => true
    case SubscribeLock(i) => s.holder.Free? && i < |s.subscriptions| && s.subscriptions[i].Requested?
    case SubscribeRead => s.holder.Subscribing? && s.holder.version.None?
    case SubscribeFail => s.holder.Subscribing? && s.holder.version.None? && s.holder.subscription < |s.subscriptions|
    case SubscribeInsert => s.holder.Subscribing? && s.holder.version.Some? && s.holder.subscription < |s.subscriptions|
    case Unsubscribe(i) => s.holder.Free? && (i in s.registered ==> IsHeld(s, i))
    case NextReady(i) => IsHeld(s, i) && s.subscriptions[i].ready.Some?
    case NextChanged(i) => IsHeld(s, i) && s.subscriptions[i].ready.None? && !s.subscriptions[i].borrowing
                           && s.subscriptions[i].unseen
    case NextBorrow(i) => IsHeld(s, i) && s.subscriptions[i].borrowing && s.subscriptions[i].latest.Some?
    case NextEnd(i) => IsHeld(s, i) && s.subscriptions[i].ready.None? && !s.subscriptions[i].borrowing
                       && s.subscriptions[i].cancelled
    case Drop(i) => s.holder.Free? && IsHeld(s, i) && !s.subscriptions[i].borrowing
  }

  function Apply(s: State, step: Step): State
    requires IsEnabled(s, step)
  {
    match step
    case Change => s.(current := s.current + 1)
    case Publish => s.(publishers := s.publishers + [Waiting(s.current)])
    case PublishLock(p) => s.(holder := Publishing(p, None, {}))
    case PublishRead => s.(holder := Publishing(s.holder.publisher, Some(s.current), s.registered))
    case PublishFail =>
      var p := s.holder.publisher;
      s.(holder := Free, publishers := s.publishers[p := Failed(s.publishers[p].since)])
    case PublishSend(i) =>
      var sub := s.subscriptions[i];
      s.(holder := s.holder.(remaining := s.holder.remaining - {i}),
         registered := if sub.dropped then s.registered - {i} else s.registered,
         subscriptions := s.subscriptions[i := sub.(latest := s.holder.version, unseen := true)])
    case PublishUnlock =>
      var p := s.holder.publisher;
      s.(holder := Free, published := s.holder.version.value,
         publishers := s.publishers[p := Done(s.publishers[p].since, s.holder.version.value)])
    case Subscribe => s.(subscriptions := s.subscriptions + [Requested])
    case SubscribeLock(i) => s.(holder := Subscribing(i, None))
    case SubscribeRead => s.(holder := Subscribing(s.holder.subscription, Some(s.current)))
    case SubscribeFail => s.(holder := Free, subscriptions := s.subscriptions[s.holder.subscription := Refused])
    case SubscribeInsert =>
      var i := s.holder.subscription;
      s.(holder := Free, registered := s.registered + {i},
         subscriptions := s.subscriptions[i := Open(s.holder.version, None, false, false, false, false, [])])
    case Unsubscribe(i) =>
      if i in s.registered then
        s.(registered := s.registered - {i},
           subscriptions := s.subscriptions[i := s.subscriptions[i].(cancelled := true)])
      else s
    case NextReady(i) =>
      var sub := s.subscriptions[i];
      s.(subscriptions := s.subscriptions[i :=
           sub.(ready := None, delivered := sub.delivered + [Ready(sub.ready.value)])])
    case NextChanged(i) =>
      s.(subscriptions := s.subscriptions[i := s.subscriptions[i].(unseen := false, borrowing := true)])
    case NextBorrow(i) =>
      var sub := s.subscriptions[i];
      s.(subscriptions := s.subscriptions[i :=
           sub.(unseen := false, borrowing := false, delivered := sub.delivered + [Snapshot(sub.latest.value)])])
    case NextEnd(i) =>
      var sub := s.subscriptions[i];
      s.(subscriptions := s.subscriptions[i := sub.(delivered := sub.delivered + [End])])
    case Drop(i) =>
      s.(registered := s.registered - {i},
         subscriptions := s.subscriptions[i := s.subscriptions[i].(dropped := true)])
  }

  function Run(s: State, steps: seq<Step>): Option<State>
    decreases |steps|
  {
    if steps == [] then Some(s)
    else if IsEnabled(s, steps[0]) then Run(Apply(s, steps[0]), steps[1..])
    else None
  }

  // ---- What a subscriber has been given ----

  /** The newest version among some events. */
  function Last(events: seq<Event>): Option<nat> {
    if events == [] then None
    else if events[|events| - 1].End? then Last(events[..|events| - 1])
    else Some(events[|events| - 1].version)
  }

  /** The newest version a subscriber has been given or will be given by its next calls. */
  function Newest(sub: Subscription): nat
    requires sub.Open?
  {
    if sub.latest.Some? then sub.latest.value
    else if sub.ready.Some? then sub.ready.value
    else Last(sub.delivered).GetOr(0)
  }

  /** First the ready event, no second one, and versions that never go backwards. */
  predicate IsOrderly(events: seq<Event>) {
    && (events != [] ==> events[0].Ready?)
    && (forall i :: 0 < i < |events| ==> !events[i].Ready?)
    && (forall i, j :: 0 <= i < j < |events| && !events[i].End? && !events[j].End?
                       ==> events[i].version <= events[j].version)
  }

  // ---- What every step keeps ----

  predicate SubscriptionValid(sub: Subscription, current: nat) {
    sub.Open? ==>
      && IsOrderly(sub.delivered) && Newest(sub) <= current
      && (sub.ready.Some? <==> sub.delivered == [])
      && (sub.ready.Some? ==> !sub.borrowing && sub.ready.value <= Newest(sub))
      && (sub.ready.None? ==> Last(sub.delivered).Some? && Last(sub.delivered).value <= Newest(sub))
      && (sub.unseen || sub.borrowing ==> sub.latest.Some?)
      && (sub.latest.Some? && !sub.unseen && !sub.borrowing ==> Last(sub.delivered) == sub.latest)
  }

  predicate HolderValid(s: State) {
    match s.holder
    case Free => true
    case Publishing(p, version, remaining) =>
      && p < |s.publishers| && s.publishers[p].Waiting? && remaining <= s.registered
      && (version.Some? ==> s.published <= version.value <= s.current && s.publishers[p].since <= version.value)
    case Subscribing(i, version) =>
      && i < |s.subscriptions| && s.subscriptions[i].Requested?
      && (version.Some? ==> s.published <= version.value <= s.current)
  }

  predicate PublisherValid(s: State, publisher: Publisher) {
    publisher.since <= s.current && (publisher.Done? ==> publisher.since <= publisher.version <= s.published)
  }

  /** A registered subscriber is at least as new as the last completed publish, and while another
      publish is sending, it has the new version or a version that is not newer. */
  predicate RegisteredValid(s: State, i: nat) {
    && i < |s.subscriptions|
    && var sub := s.subscriptions[i];
    && sub.Open? && !sub.dropped && !sub.cancelled && s.published <= Newest(sub)
    && (s.holder.Publishing? && s.holder.version.Some? ==>
          Newest(sub) <= s.holder.version.value
          && (i !in s.holder.remaining ==> Newest(sub) == s.holder.version.value))
  }

  predicate PublishersValid(s: State) {
    s.published <= s.current && forall p :: 0 <= p < |s.publishers| ==> PublisherValid(s, s.publishers[p])
  }

  predicate SubscriptionsValid(s: State) {
    forall i :: 0 <= i < |s.subscriptions| ==> SubscriptionValid(s.subscriptions[i], s.current)
  }

  predicate AllRegisteredValid(s: State) {
    forall i <- s.registered :: RegisteredValid(s, i)
  }

  predicate Valid(s: State) {
    PublishersValid(s) && HolderValid(s) && AllRegisteredValid(s) && SubscriptionsValid(s)
  }

  lemma StepKeepsPublishers(s: State, step: Step)
    requires PublishersValid(s) && HolderValid(s) && IsEnabled(s, step)
    ensures PublishersValid(Apply(s, step))
  {
  }

  lemma StepKeepsHolder(s: State, step: Step)
    requires PublishersValid(s) && HolderValid(s) && AllRegisteredValid(s) && IsEnabled(s, step)
    ensures HolderValid(Apply(s, step))
  {
    hide Newest;
  }

  // ---- The steps of one subscription ----

  lemma LastAfter(events: seq<Event>, event: Event)
    ensures Last(events + [event]) == if event.End? then Last(events) else Some(event.version)
  {
    assert (events + [event])[..|events|] == events;
  }

  /** No event of a list is newer than its last one. */
  lemma {:induction false} LastIsNewest(events: seq<Event>)
    requires IsOrderly(events)
    ensures Last(events).None? ==> forall i :: 0 <= i < |events| ==> events[i].End?
    ensures Last(events).Some? ==>
      forall i :: 0 <= i < |events| && !events[i].End? ==> events[i].version <= Last(events).value
    decreases |events|
  {
    if events != [] && events[|events| - 1].End? {
      var before := events[..|events| - 1];
      assert forall i :: 0 <= i < |before| ==> before[i] == events[i];
      LastIsNewest(before);
    }
  }

  lemma DeliveryIsOrderly(events: seq<Event>, event: Event)
    requires IsOrderly(events) && (event.Ready? <==> events == [])
    requires !event.End? && Last(events).Some? ==> Last(events).value <= event.version
    ensures IsOrderly(events + [event])
  {
    LastIsNewest(events);
  }

  lemma OpenedIsValid(version: nat, current: nat)
    requires version <= current
    ensures SubscriptionValid(Open(Some(version), None, false, false, false, false, []), current)
  {
  }

  lemma SendKeepsSubscription(sub: Subscription, version: nat, current: nat)
    requires sub.Open? && SubscriptionValid(sub, current) && Newest(sub) <= version <= current
    ensures SubscriptionValid(sub.(latest := Some(version), unseen := true), current)
  {
  }

  lemma ReadyKeepsSubscription(sub: Subscription, current: nat)
    requires sub.Open? && SubscriptionValid(sub, current) && sub.ready.Some?
    ensures var after := sub.(ready := None, delivered := sub.delivered + [Ready(sub.ready.value)]);
      SubscriptionValid(after, current) && Newest(after) == Newest(sub)
  {
    LastAfter(sub.delivered, Ready(sub.ready.value));
    DeliveryIsOrderly(sub.delivered, Ready(sub.ready.value));
    hide IsOrderly, Last;
    assert Last([]) == None by { EmptyLast(); }
  }

  lemma EmptyLast()
    ensures Last([]) == None
  {
  }

  lemma BorrowKeepsSubscription(sub: Subscription, current: nat)
    requires sub.Open? && SubscriptionValid(sub, current) && sub.borrowing && sub.latest.Some?
    ensures var after := sub.(unseen := false, borrowing := false,
                              delivered := sub.delivered + [Snapshot(sub.latest.value)]);
      SubscriptionValid(after, current) && Newest(after) == Newest(sub)
  {
    LastAfter(sub.delivered, Snapshot(sub.latest.value));
    DeliveryIsOrderly(sub.delivered, Snapshot(sub.latest.value));
    hide IsOrderly, Last;
  }

  lemma EndKeepsSubscription(sub: Subscription, current: nat)
    requires sub.Open? && SubscriptionValid(sub, current) && sub.ready.None?
    ensures SubscriptionValid(sub.(delivered := sub.delivered + [End]), current)
  {
    LastAfter(sub.delivered, End);
    DeliveryIsOrderly(sub.delivered, End);
    hide IsOrderly, Last;
  }

  lemma StepKeepsSubscriptions(s: State, step: Step)
    requires Valid(s) && IsEnabled(s, step)
    ensures SubscriptionsValid(Apply(s, step))
  {
    hide IsOrderly, Last, PublishersValid;
    match step
    case PublishSend(i) =>
      assert RegisteredValid(s, i);
      SendKeepsSubscription(s.subscriptions[i], s.holder.version.value, s.current);
    case SubscribeInsert => OpenedIsValid(s.holder.version.value, s.current);
    case NextReady(i) => ReadyKeepsSubscription(s.subscriptions[i], s.current);
    case NextBorrow(i) => BorrowKeepsSubscription(s.subscriptions[i], s.current);
    case NextEnd(i) => EndKeepsSubscription(s.subscriptions[i], s.current);
    case _ =>
  }

  lemma StepKeepsRegistered(s: State, step: Step)
    requires Valid(s) && IsEnabled(s, step)
    ensures AllRegisteredValid(Apply(s, step))
  {
    if step.NextReady? { ReadyKeepsSubscription(s.subscriptions[step.subscription], s.current); }
    if step.NextBorrow? { BorrowKeepsSubscription(s.subscriptions[step.subscription], s.current); }
    hide IsOrderly, Last, PublishersValid;
    var t := Apply(s, step);
    forall i <- t.registered ensures RegisteredValid(t, i) {
      if i in s.registered { assert RegisteredValid(s, i) && SubscriptionValid(s.subscriptions[i], s.current); }
    }
  }

  lemma StepKeepsValid(s: State, step: Step)
    requires Valid(s) && IsEnabled(s, step)
    ensures Valid(Apply(s, step))
  {
    StepKeepsPublishers(s, step);
    StepKeepsHolder(s, step);
    StepKeepsRegistered(s, step);
    StepKeepsSubscriptions(s, step);
    hide Apply, IsEnabled, PublishersValid, HolderValid, AllRegisteredValid, SubscriptionsValid;
  }

  lemma {:induction false} RunKeepsValid(s: State, steps: seq<Step>)
    requires Valid(s) && Run(s, steps).Some?
    ensures Valid(Run(s, steps).value)
    decreases |steps|
  {
    if steps != [] {
      hide Valid, Apply, IsEnabled;
      StepKeepsValid(s, steps[0]);
      RunKeepsValid(Apply(s, steps[0]), steps[1..]);
    }
  }

  // ---- Over every run ----

  /** The states that some interleaving reaches. */
  ghost predicate IsReachable(s: State) {
    exists steps :: Run(INITIAL, steps) == Some(s)
  }

  lemma ReachableIsValid(s: State)
    requires IsReachable(s)
    ensures Valid(s)
  {
    var steps :| Run(INITIAL, steps) == Some(s);
    RunKeepsValid(INITIAL, steps);
  }

  /** What a subscriber is given begins with its ready event and never goes back to an older version. */
  lemma DeliveriesAreOrderly(s: State, i: nat)
    requires IsReachable(s) && i < |s.subscriptions| && s.subscriptions[i].Open?
    ensures IsOrderly(s.subscriptions[i].delivered)
  {
    ReachableIsValid(s);
    assert SubscriptionValid(s.subscriptions[i], s.current);
  }

  predicate IsDelivered(events: seq<Event>, version: nat) {
    exists k :: 0 <= k < |events| && !events[k].End? && events[k].version == version
  }

  /** Whether a subscriber has been given a version or has it waiting: as its ready event, or as a
      snapshot in its channel that it has not taken. */
  predicate IsOffered(sub: Subscription, version: nat)
    requires sub.Open?
  {
    || sub.ready == Some(version)
    || (sub.latest == Some(version) && (sub.unseen || sub.borrowing))
    || IsDelivered(sub.delivered, version)
  }

  lemma {:induction false} LastIsDelivered(events: seq<Event>)
    ensures Last(events).Some? ==> IsDelivered(events, Last(events).value)
    decreases |events|
  {
    if events != [] && events[|events| - 1].End? {
      var before := events[..|events| - 1];
      LastIsDelivered(before);
      if Last(before).Some? {
        var k :| 0 <= k < |before| && !before[k].End? && before[k].version == Last(before).value;
        assert events[k] == before[k];
      }
    }
  }

  /** No published state is missed: a live subscriber has been given, or has waiting, a version that
      is at least as new as the one read by the last completed publish. */
  lemma NothingIsMissed(s: State, i: nat) returns (version: nat)
    requires IsReachable(s) && i in s.registered
    ensures i < |s.subscriptions| && s.subscriptions[i].Open?
    ensures IsOffered(s.subscriptions[i], version) && s.published <= version
  {
    ReachableIsValid(s);
    assert RegisteredValid(s, i) && SubscriptionValid(s.subscriptions[i], s.current);
    var sub := s.subscriptions[i];
    LastIsDelivered(sub.delivered);
    version := Newest(sub);
  }

  /** A publish that has completed covers every change made before it began. */
  lemma PublishCovers(s: State, p: nat)
    requires IsReachable(s) && p < |s.publishers| && s.publishers[p].Done?
    ensures s.publishers[p].since <= s.publishers[p].version <= s.published <= s.current
  {
    ReachableIsValid(s);
    assert PublisherValid(s, s.publishers[p]);
  }

  /** What is delivered stays delivered, and no step changes what was published to an older version. */
  lemma StepKeepsDeliveries(s: State, step: Step)
    requires Valid(s) && IsEnabled(s, step)
    ensures var t := Apply(s, step);
      && s.published <= t.published && |s.subscriptions| <= |t.subscriptions|
      && forall i :: 0 <= i < |s.subscriptions| && s.subscriptions[i].Open? ==>
           t.subscriptions[i].Open? && s.subscriptions[i].delivered <= t.subscriptions[i].delivered
  {
    hide SubscriptionValid, IsOrderly, Last, Newest;
  }

  predicate IsNext(step: Step, i: nat) {
    step == NextReady(i) || step == NextChanged(i) || step == NextBorrow(i)
  }

  /** A registered subscriber of a valid state. */
  ghost predicate IsLive(s: State, i: nat) {
    Valid(s) && i in s.registered && i < |s.subscriptions| && s.subscriptions[i].Open? && IsHeld(s, i)
  }

  lemma RegisteredIsLive(s: State, i: nat)
    requires Valid(s) && i in s.registered
    ensures IsLive(s, i)
  {
    assert RegisteredValid(s, i);
    hide SubscriptionsValid, PublishersValid, HolderValid, SubscriptionValid, Newest;
  }

  /** The ready step leaves no ready event, and the channel as it is. */
  lemma TakesReady(s: State, i: nat) returns (steps: seq<Step>, t: State)
    requires IsLive(s, i)
    ensures Run(s, steps) == Some(t) && IsLive(t, i) && t.published == s.published
    ensures |steps| <= 1 && forall step <- steps :: IsNext(step, i)
    ensures t.subscriptions[i].ready.None?
  {
    steps, t := [], s;
    hide PublishersValid, HolderValid, AllRegisteredValid, SubscriptionsValid, Newest, Last, IsOrderly;
    if s.subscriptions[i].ready.Some? {
      t := Taken(s, s, [], NextReady(i));
      steps := [NextReady(i)];
      RegisteredIsLive(t, i);
    }
  }

  /** The changed step leaves nothing unseen, unless a borrowed snapshot comes first. */
  lemma TakesChanged(s: State, i: nat) returns (steps: seq<Step>, t: State)
    requires IsLive(s, i) && s.subscriptions[i].ready.None?
    ensures Run(s, steps) == Some(t) && IsLive(t, i) && t.published == s.published
    ensures |steps| <= 1 && forall step <- steps :: IsNext(step, i)
    ensures t.subscriptions[i].ready.None? && (t.subscriptions[i].unseen ==> t.subscriptions[i].borrowing)
  {
    steps, t := [], s;
    hide PublishersValid, HolderValid, AllRegisteredValid, SubscriptionsValid, Newest, Last, IsOrderly;
    if s.subscriptions[i].unseen && !s.subscriptions[i].borrowing {
      t := Taken(s, s, [], NextChanged(i));
      steps := [NextChanged(i)];
      RegisteredIsLive(t, i);
    }
  }

  /** The borrow step leaves nothing unseen and nothing borrowed. */
  lemma TakesBorrow(s: State, i: nat) returns (steps: seq<Step>, t: State)
    requires IsLive(s, i) && s.subscriptions[i].ready.None? && (s.subscriptions[i].unseen ==> s.subscriptions[i].borrowing)
    ensures Run(s, steps) == Some(t) && IsLive(t, i) && t.published == s.published
    ensures |steps| <= 1 && forall step <- steps :: IsNext(step, i)
    ensures t.subscriptions[i].ready.None? && !t.subscriptions[i].unseen && !t.subscriptions[i].borrowing
  {
    steps, t := [], s;
    assert SubscriptionValid(s.subscriptions[i], s.current);
    hide PublishersValid, HolderValid, AllRegisteredValid, SubscriptionsValid, Newest, Last, IsOrderly;
    if s.subscriptions[i].borrowing {
      t := Taken(s, s, [], NextBorrow(i));
      steps := [NextBorrow(i)];
      RegisteredIsLive(t, i);
    }
  }

  /** A subscriber with nothing in front of it has been given the newest version it was offered. */
  lemma HasCaughtUp(s: State, i: nat)
    requires IsLive(s, i)
    requires var sub := s.subscriptions[i]; sub.ready.None? && !sub.unseen && !sub.borrowing
    ensures var last := Last(s.subscriptions[i].delivered); last.Some? && s.published <= last.value
  {
    assert RegisteredValid(s, i) && SubscriptionValid(s.subscriptions[i], s.current);
    hide PublishersValid, HolderValid, IsOrderly, Last;
  }

  /** A live subscriber catches up by its own calls: at most three steps of its own bring its newest
      delivered version up to the last completed publish, whatever state they begin in. */
  lemma CatchesUp(s: State, i: nat) returns (steps: seq<Step>)
    requires IsReachable(s) && i in s.registered
    ensures |steps| <= 3 && forall step <- steps :: IsNext(step, i)
    ensures Run(s, steps).Some? && i < |s.subscriptions|
    ensures var sub := Run(s, steps).value.subscriptions;
      i < |sub| && sub[i].Open? && Last(sub[i].delivered).Some? && s.published <= Last(sub[i].delivered).value
  {
    ReachableIsValid(s);
    RegisteredIsLive(s, i);
    var first, t := TakesReady(s, i);
    var second, u := TakesChanged(t, i);
    var third, v := TakesBorrow(u, i);
    HasCaughtUp(v, i);
    RunConcat(s, t, first, second);
    RunConcat(s, u, first + second, third);
    hide IsReachable, Valid, Run, Last;
    steps := first + second + third;
  }

  lemma {:induction false} RunConcat(s: State, t: State, a: seq<Step>, b: seq<Step>)
    requires Run(s, a) == Some(t)
    ensures Run(s, a + b) == Run(t, b)
    decreases |a|
  {
    if a == [] {
      assert a + b == b;
    } else {
      hide Apply, IsEnabled;
      assert (a + b)[0] == a[0] && (a + b)[1..] == a[1..] + b;
      RunConcat(Apply(s, a[0]), t, a[1..], b);
    }
  }

  /** One more step of a subscriber. */
  lemma Taken(s: State, t: State, steps: seq<Step>, step: Step) returns (u: State)
    requires Run(s, steps) == Some(t) && Valid(t) && IsEnabled(t, step)
    requires step.NextReady? || step.NextChanged? || step.NextBorrow?
    ensures u == Apply(t, step) && Run(s, steps + [step]) == Some(u) && Valid(u)
    ensures u.published == t.published && u.registered == t.registered
  {
    u := Apply(t, step);
    StepKeepsValid(t, step);
    hide Valid;
    RunThen(s, t, steps, step);
  }

  lemma {:induction false} RunThen(s: State, t: State, steps: seq<Step>, step: Step)
    requires Run(s, steps) == Some(t) && IsEnabled(t, step)
    ensures Run(s, steps + [step]) == Some(Apply(t, step))
    decreases |steps|
  {
    if steps == [] {
      assert steps + [step] == [step] && [step][1..] == [];
    } else {
      hide Apply, IsEnabled;
      assert (steps + [step])[0] == steps[0] && (steps + [step])[1..] == steps[1..] + [step];
      RunThen(Apply(s, steps[0]), t, steps[1..], step);
    }
  }
}
