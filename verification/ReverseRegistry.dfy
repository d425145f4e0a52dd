/** The connections that reverse calls can be made on, the newest one first in line. */
module ReverseRegistry {
  import opened Text

  /** The generation counter is an unsigned integer of 64 bits. */
  const WIDTH := 0x1_0000_0000_0000_0000

  datatype Connection<C> = Connection(client: C, id: string, generation: nat)

  /** The guard of a connection, which takes it from the registry when it is dropped. */
  datatype Registration = Registration(id: string, generation: nat)

  datatype Operation<C> = Connect(id: string, client: C) | Drop(number: nat)

  /** A connection that was made as the n-th one. */
  datatype Entry<C> = Entry(number: nat, id: string, client: C)

  // ---- What was connected and is still live ----

  function Connects<C>(h: seq<Operation<C>>): seq<Entry<C>> {
    if h == [] then []
    else
      var before := Connects(h[..|h| - 1]);
      match h[|h| - 1]
      case Connect(id, client) => before + [Entry(|before|, id, client)]
      case Drop(_) => before
  }

  function Without<C>(entries: seq<Entry<C>>, number: nat): seq<Entry<C>> {
    if entries == [] then []
    else if entries[0].number == number then Without(entries[1..], number)
    else [entries[0]] + Without(entries[1..], number)
  }

  /** The connections not dropped yet, in the order they were made. */
  function Live<C>(h: seq<Operation<C>>): seq<Entry<C>> {
    if h == [] then []
    else
      var before := h[..|h| - 1];
      match h[|h| - 1]
      case Connect(id, client) => Live(before) + [Entry(|Connects(before)|, id, client)]
      case Drop(number) => Without(Live(before), number)
  }

  /** Only registrations that were handed out are dropped. */
  predicate IsHistory<C>(h: seq<Operation<C>>) {
    h == [] || (IsHistory(h[..|h| - 1])
                && (h[|h| - 1].Drop? ==> h[|h| - 1].number < |Connects(h[..|h| - 1])|))
  }

  // ---- What the registry does ----

  function NextGeneration(generation: nat): nat {
    var wrapped := (generation + 1) % WIDTH;
    if wrapped > 1 then wrapped else 1
  }

  /** The counter after a number of connections. */
  function Counter(connects: nat): nat {
    if connects == 0 then 0 else NextGeneration(Counter(connects - 1))
  }

  function Retained<C>(connections: seq<Connection<C>>, id: string, generation: nat): seq<Connection<C>> {
    if connections == [] then []
    else if connections[0].id != id || connections[0].generation != generation then
      [connections[0]] + Retained(connections[1..], id, generation)
    else Retained(connections[1..], id, generation)
  }

  /** The generation of the connection made as the n-th one, counted from zero. */
  function GenerationOf(number: nat): nat {
    Counter(number + 1)
  }

  function Listed<C>(h: seq<Operation<C>>): seq<Connection<C>>
    requires IsHistory(h)
  {
    if h == [] then []
    else
      var before := h[..|h| - 1];
      var made := Connects(before);
      match h[|h| - 1]
      case Connect(id, client) => Listed(before) + [Connection(client, id, GenerationOf(|made|))]
      case Drop(number) => Retained(Listed(before), made[number].id, GenerationOf(number))
  }

  class Registry<C> {
    var connections: seq<Connection<C>>
    var generation: nat
    ghost var history: seq<Operation<C>>

    ghost predicate Valid()
      reads this
    {
      IsHistory(history) && connections == Listed(history) && generation == Counter(|Connects(history)|)
    }

    /** Whether a guard is that of the connection made as the n-th one. */
    ghost predicate IsRegistration(registration: Registration, number: nat)
      reads this
    {
      && number < |Connects(history)|
      && registration == Registration(Connects(history)[number].id, GenerationOf(number))
    }

    constructor ()
      ensures Valid() && history == []
    {
      connections := [];
      generation := 0;
      history := [];
    }

    method ConnectWeb(id: string, client: C) returns (registration: Registration, ghost number: nat)
      requires Valid()
      modifies this
      ensures Valid() && history == old(history) + [Connect(id, client)]
      ensures number == |Connects(old(history))| && IsRegistration(registration, number)
    {
      generation := if (generation + 1) % WIDTH > 1 then (generation + 1) % WIDTH else 1;
      connections := connections + [Connection(client, id, generation)];
      registration, number := Registration(id, generation), |Connects(history)|;
      history := history + [Connect(id, client)];
      assert history[..|history| - 1] == old(history);
    }

    method DropRegistration(registration: Registration, ghost number: nat)
      requires Valid() && IsRegistration(registration, number)
      modifies this
      ensures Valid() && history == old(history) + [Operation.Drop(number)]
    {
      var kept := [];
      for i := 0 to |connections|
        invariant kept + Retained(connections[i..], registration.id, registration.generation)
               == Retained(connections, registration.id, registration.generation)
        invariant history == old(history) && connections == old(connections)
      {
        assert connections[i..][0] == connections[i] && connections[i..][1..] == connections[i + 1..];
        if connections[i].id != registration.id || connections[i].generation != registration.generation {
          kept := kept + [connections[i]];
        }
      }
      history := history + [Operation.Drop(number)];
      connections := kept;
      assert history[..|history| - 1] == old(history);
    }

    /** The newest connection there is. */
    method Client() returns (client: Option<C>)
      ensures client == Newest(connections)
    {
      client := if |connections| > 0 then Some(connections[|connections| - 1].client) else None;
    }

    /** The newest connection with an identifier. */
    method ClientOn(id: string) returns (client: Option<C>)
      ensures client == NewestOn(connections, id)
    {
      var i := |connections|;
      assert connections[..i] == connections;
      while i > 0
        invariant 0 <= i <= |connections|
        invariant NewestOn(connections, id) == NewestOn(connections[..i], id)
      {
        i := i - 1;
        assert connections[..i + 1][..i] == connections[..i];
        if connections[i].id == id {
          return Some(connections[i].client);
        }
      }
      client := None;
    }
  }

  function Newest<C>(connections: seq<Connection<C>>): Option<C> {
    if connections == [] then None else Some(connections[|connections| - 1].client)
  }

  function NewestOn<C>(connections: seq<Connection<C>>, id: string): Option<C> {
    if connections == [] then None
    else if connections[|connections| - 1].id == id then Some(connections[|connections| - 1].client)
    else NewestOn(connections[..|connections| - 1], id)
  }

  // ---- Which connections are live ----

  /** The entries that no operation of a history drops. */
  ghost function Undropped<C>(entries: seq<Entry<C>>, h: seq<Operation<C>>): seq<Entry<C>> {
    if entries == [] then []
    else if Drop(entries[0].number) in h then Undropped(entries[1..], h)
    else [entries[0]] + Undropped(entries[1..], h)
  }

  lemma {:induction false} ConnectsAreNumbered<C>(h: seq<Operation<C>>)
    ensures forall k :: 0 <= k < |Connects(h)| ==> Connects(h)[k].number == k
    decreases |h|
  {
    if h != [] { ConnectsAreNumbered(h[..|h| - 1]); }
  }

  lemma {:induction false} UndroppedAfterDrop<C>(entries: seq<Entry<C>>, h: seq<Operation<C>>, number: nat)
    ensures Undropped(entries, h + [Drop(number)]) == Without(Undropped(entries, h), number)
    decreases entries
  {
    if entries != [] {
      UndroppedAfterDrop(entries[1..], h, number);
      var rest := Undropped(entries[1..], h);
      assert ([entries[0]] + rest)[1..] == rest;
    }
  }

  lemma {:induction false} UndroppedAfterConnect<C>(entries: seq<Entry<C>>, h: seq<Operation<C>>, id: string, client: C)
    ensures Undropped(entries, h + [Connect(id, client)]) == Undropped(entries, h)
    decreases entries
  {
    if entries != [] { UndroppedAfterConnect(entries[1..], h, id, client); }
  }

  lemma {:induction false} UndroppedConcat<C>(a: seq<Entry<C>>, b: seq<Entry<C>>, h: seq<Operation<C>>)
    ensures Undropped(a + b, h) == Undropped(a, h) + Undropped(b, h)
    decreases a
  {
    if a == [] {
      assert a + b == b;
    } else {
      assert (a + b)[1..] == a[1..] + b;
      UndroppedConcat(a[1..], b, h);
    }
  }

  lemma {:induction false} DropsAreOfConnects<C>(h: seq<Operation<C>>, number: nat)
    requires IsHistory(h) && Drop(number) in h
    ensures number < |Connects(h)|
    decreases |h|
  {
    var before := h[..|h| - 1];
    assert h == before + [h[|h| - 1]];
    if Drop(number) in before { DropsAreOfConnects(before, number); }
  }

  /** The live connections are the ones made and not dropped, in the order they were made. */
  lemma {:induction false} LiveIsUndropped<C>(h: seq<Operation<C>>)
    requires IsHistory(h)
    ensures Live(h) == Undropped(Connects(h), h)
    decreases |h|
  {
    if h != [] {
      var before, last := h[..|h| - 1], h[|h| - 1];
      assert h == before + [last];
      LiveIsUndropped(before);
      match last
      case Drop(number) => UndroppedAfterDrop(Connects(before), before, number);
      case Connect(id, client) =>
        var entry := Entry(|Connects(before)|, id, client);
        UndroppedConcat(Connects(before), [entry], h);
        UndroppedAfterConnect(Connects(before), before, id, client);
        NewIsUndropped(before, entry, last);
    }
  }

  lemma NewIsUndropped<C>(before: seq<Operation<C>>, entry: Entry<C>, last: Operation<C>)
    requires IsHistory(before) && entry.number == |Connects(before)| && last.Connect?
    ensures Undropped([entry], before + [last]) == [entry]
  {
    if Drop(entry.number) in before {
      DropsAreOfConnects(before, entry.number);
      assert false;
    }
    assert [entry][1..] == [];
  }

  // ---- Generations ----

  /** The generations count from one and begin again after 2^64 - 1 connections. */
  lemma {:induction false} GenerationsWrap(number: nat)
    ensures GenerationOf(number) == number % (WIDTH - 1) + 1
    decreases number
  {
    if number > 0 {
      GenerationsWrap(number - 1);
      var g := GenerationOf(number - 1);
      assert GenerationOf(number) == NextGeneration(g);
      assert g + 1 < WIDTH ==> (g + 1) % WIDTH == g + 1;
    }
  }

  lemma GenerationsDiffer(m: nat, n: nat)
    ensures GenerationOf(m) == GenerationOf(n) <==> m % (WIDTH - 1) == n % (WIDTH - 1)
    ensures m < WIDTH - 1 && n < WIDTH - 1 && m != n ==> GenerationOf(m) != GenerationOf(n)
  {
    GenerationsWrap(m);
    GenerationsWrap(n);
  }

  // ---- The list of the registry ----

  function Connections<C>(entries: seq<Entry<C>>): (r: seq<Connection<C>>)
    ensures |r| == |entries|
    ensures forall k :: 0 <= k < |r| ==> r[k] == Connection(entries[k].client, entries[k].id, GenerationOf(entries[k].number))
  {
    seq(|entries|, k requires 0 <= k < |entries| =>
      Connection(entries[k].client, entries[k].id, GenerationOf(entries[k].number)))
  }

  /** Another live connection looks like the one made as the n-th: the same identifier, and a number
      that differs by a multiple of 2^64 - 1. */
  ghost predicate HasDouble<C>(entries: seq<Entry<C>>, number: nat, id: string) {
    exists e :: e in entries && IsDouble(e, number, id)
  }

  predicate IsDouble<C>(e: Entry<C>, number: nat, id: string) {
    e.number != number && e.id == id && GenerationOf(e.number) == GenerationOf(number)
  }

  /** Entries are numbered so that the given number stands for the given identifier only. */
  ghost predicate Agrees<C>(entries: seq<Entry<C>>, number: nat, id: string) {
    forall e <- entries :: e.number == number ==> e.id == id
  }

  lemma {:induction false} RetainedIsWithout<C>(entries: seq<Entry<C>>, number: nat, id: string)
    requires Agrees(entries, number, id) && !HasDouble(entries, number, id)
    ensures Retained(Connections(entries), id, GenerationOf(number)) == Connections(Without(entries, number))
    decreases entries
  {
    if entries == [] {
      assert Connections(entries) == [];
    } else {
      hide GenerationOf;
      assert entries[0] in entries && forall e <- entries[1..] :: e in entries;
      assert !IsDouble(entries[0], number, id);
      RetainedIsWithout(entries[1..], number, id);
      var rest := Without(entries[1..], number);
      assert Connections(entries)[1..] == Connections(entries[1..]);
      assert Connections([entries[0]] + rest) == [Connections(entries)[0]] + Connections(rest);
    }
  }

  lemma {:induction false} RetainedHasNone<C>(connections: seq<Connection<C>>, id: string, generation: nat)
    ensures forall c <- Retained(connections, id, generation) :: c.id != id || c.generation != generation
    decreases connections
  {
    if connections != [] { RetainedHasNone(connections[1..], id, generation); }
  }

  lemma {:induction false} WithoutKeeps<C>(entries: seq<Entry<C>>, number: nat, e: Entry<C>)
    requires e in entries && e.number != number
    ensures e in Without(entries, number)
    decreases entries
  {
    if e != entries[0] { WithoutKeeps(entries[1..], number, e); }
  }

  /** A drop takes exactly its own connection from the list, if and only if no other live connection
      looks like it. */
  lemma DropTakesItsOwn<C>(entries: seq<Entry<C>>, number: nat, id: string)
    requires Agrees(entries, number, id)
    ensures Retained(Connections(entries), id, GenerationOf(number)) == Connections(Without(entries, number))
       <==> !HasDouble(entries, number, id)
  {
    hide GenerationOf;
    if !HasDouble(entries, number, id) {
      RetainedIsWithout(entries, number, id);
    } else {
      var e :| e in entries && IsDouble(e, number, id);
      WithoutKeeps(entries, number, e);
      var rest := Without(entries, number);
      var k :| 0 <= k < |rest| && rest[k] == e;
      RetainedHasNone(Connections(entries), id, GenerationOf(number));
      assert Connections(rest)[k].id == id && Connections(rest)[k].generation == GenerationOf(number);
      assert Connections(rest)[k] in Connections(rest);
    }
  }

  /** No drop of the history meets another live connection that looks like its own. */
  ghost predicate NeverDoubles<C>(h: seq<Operation<C>>)
    requires IsHistory(h)
  {
    h == [] || (NeverDoubles(h[..|h| - 1])
                && (h[|h| - 1].Drop? ==>
                      var made := Connects(h[..|h| - 1]);
                      !HasDouble(Live(h[..|h| - 1]), h[|h| - 1].number, made[h[|h| - 1].number].id)))
  }

  lemma {:induction false} LiveWereMade<C>(h: seq<Operation<C>>)
    requires IsHistory(h)
    ensures forall e <- Live(h) :: e.number < |Connects(h)| && Connects(h)[e.number] == e
    decreases |h|
  {
    LiveIsUndropped(h);
    ConnectsAreNumbered(h);
    UndroppedAreAmong(Connects(h), h);
  }

  lemma {:induction false} UndroppedAreAmong<C>(entries: seq<Entry<C>>, h: seq<Operation<C>>)
    ensures forall e <- Undropped(entries, h) :: e in entries
    decreases entries
  {
    if entries != [] { UndroppedAreAmong(entries[1..], h); }
  }

  /** The list is exactly the live connections, in the order they were made. */
  lemma {:induction false} ListedAreLive<C>(h: seq<Operation<C>>)
    requires IsHistory(h) && NeverDoubles(h)
    ensures Listed(h) == Connections(Live(h))
    decreases |h|
  {
    if h != [] {
      var before := h[..|h| - 1];
      ListedAreLive(before);
      LiveWereMade(before);
      hide GenerationOf;
      match h[|h| - 1]
      case Drop(number) => DropTakesItsOwn(Live(before), number, Connects(before)[number].id);
      case Connect(id, client) =>
        var entry := Entry(|Connects(before)|, id, client);
        assert Connections(Live(before) + [entry]) == Connections(Live(before)) + Connections([entry]);
    }
  }

  /** Fewer than 2^64 connections never look like each other. */
  lemma {:induction false} FewNeverDouble<C>(h: seq<Operation<C>>)
    requires IsHistory(h) && |Connects(h)| < WIDTH
    ensures NeverDoubles(h)
    decreases |h|
  {
    if h != [] {
      var before := h[..|h| - 1];
      FewNeverDouble(before);
      LiveWereMade(before);
      if h[|h| - 1].Drop? {
        var number := h[|h| - 1].number;
        forall e <- Live(before) ensures !IsDouble(e, number, Connects(before)[number].id) {
          GenerationsDiffer(e.number, number);
        }
      }
    }
  }

  ghost predicate IsNewestListed<C>(connections: seq<Connection<C>>, k: int, id: string, client: C) {
    && 0 <= k < |connections| && connections[k].id == id && connections[k].client == client
    && forall l :: k < l < |connections| ==> connections[l].id != id
  }

  ghost predicate IsNewestLive<C>(entries: seq<Entry<C>>, k: int, id: string, client: C) {
    && 0 <= k < |entries| && entries[k].id == id && entries[k].client == client
    && forall l :: k < l < |entries| ==> entries[l].id != id
  }

  /** The newest of some connections with an identifier, or none. */
  lemma {:induction false} NewestOnIsLast<C>(connections: seq<Connection<C>>, id: string)
    ensures NewestOn(connections, id).None? <==> forall c <- connections :: c.id != id
    ensures NewestOn(connections, id).Some? ==> exists k :: IsNewestListed(connections, k, id, NewestOn(connections, id).value)
    decreases |connections|
  {
    if connections != [] && connections[|connections| - 1].id != id {
      var before := connections[..|connections| - 1];
      NewestOnIsLast(before, id);
      assert connections == before + [connections[|connections| - 1]];
      if NewestOn(before, id).Some? {
        var k :| IsNewestListed(before, k, id, NewestOn(before, id).value);
        assert forall l :: k <= l < |before| ==> connections[l] == before[l];
        assert IsNewestListed(connections, k, id, NewestOn(connections, id).value);
      }
    } else if connections != [] {
      assert IsNewestListed(connections, |connections| - 1, id, NewestOn(connections, id).value);
    }
  }

  /** While fewer than 2^64 connections have been made, a call goes to the newest live connection, a
      call on an identifier to the newest live one with it, and each fails exactly when there is none. */
  lemma CallsReachNewestLive<C>(h: seq<Operation<C>>, id: string)
    requires IsHistory(h) && |Connects(h)| < WIDTH
    ensures Listed(h) == Connections(Live(h)) && Live(h) == Undropped(Connects(h), h)
    ensures Newest(Listed(h)) == if Live(h) == [] then None else Some(Live(h)[|Live(h)| - 1].client)
    ensures NewestOn(Listed(h), id).None? <==> forall e <- Live(h) :: e.id != id
    ensures NewestOn(Listed(h), id).Some? ==> exists k :: IsNewestLive(Live(h), k, id, NewestOn(Listed(h), id).value)
  {
    FewNeverDouble(h);
    ListedAreLive(h);
    LiveIsUndropped(h);
    NewestOfEntries(Live(h), id);
  }

  lemma NewestOfEntries<C>(entries: seq<Entry<C>>, id: string)
    ensures var r := NewestOn(Connections(entries), id);
      && (r.None? <==> forall e <- entries :: e.id != id)
      && (r.Some? ==> exists k :: IsNewestLive(entries, k, id, r.value))
  {
    var connections := Connections(entries);
    NewestOnIsLast(connections, id);
    hide GenerationOf, NewestOn, Connections;
    if NewestOn(connections, id).Some? {
      var k :| IsNewestListed(connections, k, id, NewestOn(connections, id).value);
      assert IsNewestLive(entries, k, id, NewestOn(connections, id).value);
      assert entries[k] in entries;
    } else {
      forall e <- entries ensures e.id != id {
        var k :| 0 <= k < |entries| && entries[k] == e;
        assert connections[k] in connections;
      }
    }
  }

  // ---- A drop that takes another connection with it ----

  /** A connection that stays, and n others that come and go after it. */
  function ComeAndGo<C>(id: string, first: C, n: nat): (h: seq<Operation<C>>)
    ensures h != []
  {
    if n == 0 then [Connect(id, first)] else ComeAndGo(id, first, n - 1) + [Connect(id, first), Operation.Drop(n)]
  }

  lemma AfterStep<C>(h: seq<Operation<C>>, op: Operation<C>)
    requires IsHistory(h) && (op.Drop? ==> op.number < |Connects(h)|)
    ensures IsHistory(h + [op])
    ensures Connects(h + [op]) == Connects(h) + if op.Connect? then [Entry(|Connects(h)|, op.id, op.client)] else []
    ensures Live(h + [op])
         == if op.Connect? then Live(h) + [Entry(|Connects(h)|, op.id, op.client)] else Without(Live(h), op.number)
  {
    assert (h + [op])[..|h|] == h;
  }

  lemma ListedAfterStep<C>(h: seq<Operation<C>>, op: Operation<C>)
    requires IsHistory(h) && IsHistory(h + [op]) && (op.Drop? ==> op.number < |Connects(h)|)
    ensures Listed(h + [op])
         == if op.Connect? then Listed(h) + [Connection(op.client, op.id, GenerationOf(|Connects(h)|))]
            else Retained(Listed(h), Connects(h)[op.number].id, GenerationOf(op.number))
  {
    assert (h + [op])[..|h|] == h;
    hide GenerationOf, Retained;
  }

  /** Only the first connection is live after this history. */
  ghost predicate OnlyFirst<C>(h: seq<Operation<C>>, first: Entry<C>, connects: nat) {
    IsHistory(h) && |Connects(h)| == connects > 0 && Connects(h)[0] == first && Live(h) == [first]
  }

  lemma OneMore<C>(h: seq<Operation<C>>, first: Entry<C>, connects: nat, id: string, client: C)
    requires OnlyFirst(h, first, connects) && first.number == 0
    ensures OnlyFirst(h + [Connect(id, client)] + [Operation.Drop(connects)], first, connects + 1)
  {
    hide IsHistory, Connects, Live, Without;
    var entry := Entry(connects, id, client);
    AfterStep(h, Connect(id, client));
    AfterStep(h + [Connect(id, client)], Operation.Drop(connects));
    assert [first] + [entry] == [first, entry];
    WithoutSecond(first, entry);
  }

  lemma OnlyOne<C>(id: string, first: C)
    ensures OnlyFirst([Connect(id, first)], Entry(0, id, first), 1)
  {
    var none: seq<Operation<C>> := [];
    assert IsHistory(none) && Connects(none) == [] && Live(none) == [];
    AfterStep(none, Connect(id, first));
    hide IsHistory, Connects, Live;
    assert none + [Connect(id, first)] == [Connect(id, first)];
  }

  lemma {:induction false} OneStays<C>(id: string, first: C, n: nat)
    ensures OnlyFirst(ComeAndGo(id, first, n), Entry(0, id, first), n + 1)
  {
    if n == 0 {
      OnlyOne(id, first);
      hide OnlyFirst;
    } else {
      OneStays(id, first, n - 1);
      hide OnlyFirst;
      var h := ComeAndGo(id, first, n - 1);
      OneMore(h, Entry(0, id, first), n, id, first);
      assert h + [Connect(id, first)] + [Operation.Drop(n)] == h + [Connect(id, first), Operation.Drop(n)];
    }
  }

  /** 2^64 connections, of which the first and the last one are live. */
  function Overlap<C>(id: string, first: C, last: C): seq<Operation<C>> {
    ComeAndGo(id, first, WIDTH - 2) + [Connect(id, last)]
  }

  /** There is a history in which two connections with the same identifier are live and listed, and
      dropping the first one takes the other with it. */
  lemma DropTakesItsDouble<C>(id: string, first: C, last: C)
    ensures var h := Overlap(id, first, last);
      && IsHistory(h) && Live(h) == [Entry(0, id, first), Entry(WIDTH - 1, id, last)] && Listed(h) == Connections(Live(h))
      && IsHistory(h + [Operation.Drop(0)]) && Live(h + [Operation.Drop(0)]) == [Entry(WIDTH - 1, id, last)]
      && Listed(h + [Operation.Drop(0)]) == []
  {
    OneStays(id, first, WIDTH - 2);
    hide ComeAndGo, IsHistory, Live, Listed, OnlyFirst;
    BothGo(ComeAndGo(id, first, WIDTH - 2), Entry(0, id, first), last);
  }

  lemma BothGo<C>(before: seq<Operation<C>>, first: Entry<C>, last: C)
    requires OnlyFirst(before, first, WIDTH - 1) && first.number == 0
    ensures var h := before + [Connect(first.id, last)];
      && IsHistory(h) && Live(h) == [first, Entry(WIDTH - 1, first.id, last)] && Listed(h) == Connections(Live(h))
      && IsHistory(h + [Operation.Drop(0)]) && Live(h + [Operation.Drop(0)]) == [Entry(WIDTH - 1, first.id, last)]
      && Listed(h + [Operation.Drop(0)]) == []
  {
    hide GenerationOf, Listed, Live, Connects, IsHistory, NeverDoubles, Without, Retained, Connections;
    var id, second := first.id, Entry(WIDTH - 1, first.id, last);
    var h := before + [Connect(id, last)];
    AfterStep(before, Connect(id, last));
    AfterStep(h, Operation.Drop(0));
    FewNeverDouble(before);
    ListedAreLive(before);
    ListedAfterStep(before, Connect(id, last));
    ListedAfterStep(h, Operation.Drop(0));
    assert [first] + [second] == [first, second];
    ListedTwo(first, second);
    SameGeneration();
    RetainsNeither(Connections([first, second])[0], Connections([first, second])[1], id, GenerationOf(0));
    WithoutFirst(first, second);
  }

  lemma SameGeneration()
    ensures GenerationOf(WIDTH - 1) == GenerationOf(0)
  {
    GenerationsDiffer(WIDTH - 1, 0);
    hide GenerationOf;
  }

  lemma ListedTwo<C>(a: Entry<C>, b: Entry<C>)
    ensures Connections([a]) + [Connection(b.client, b.id, GenerationOf(b.number))] == Connections([a, b])
    ensures Connections([a, b]) == [Connections([a, b])[0], Connections([a, b])[1]]
  {
    hide GenerationOf;
  }

  lemma RetainsNeither<C>(a: Connection<C>, b: Connection<C>, id: string, generation: nat)
    requires a.id == id == b.id && a.generation == generation == b.generation
    ensures Retained([a, b], id, generation) == []
  {
    assert [a, b][1..] == [b] && [b][1..] == [];
    assert Retained([b], id, generation) == Retained([b][1..], id, generation);
  }

  lemma WithoutFirst<C>(a: Entry<C>, b: Entry<C>)
    requires a.number != b.number
    ensures Without([a, b], a.number) == [b]
  {
    assert [a, b][1..] == [b] && [b][1..] == [];
    assert Without([b], a.number) == [b] + Without([b][1..], a.number);
  }

  lemma WithoutSecond<C>(a: Entry<C>, b: Entry<C>)
    requires a.number != b.number
    ensures Without([a, b], b.number) == [a]
  {
    assert [a, b][1..] == [b] && [b][1..] == [];
    assert Without([b], b.number) == Without([b][1..], b.number);
  }
}
