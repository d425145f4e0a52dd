/** The snapshot cache: a map with many keys per snapshot, and the log that evicts from it. */
module SnapshotCache {
  import opened Text

  /** A snapshot; its contents do not matter to the cache. */
  datatype Snapshot = Snapshot(id: string, windowId: nat, payload: int)

  datatype Entry = Entry(snapshotId: string, keys: seq<string>, createdAt: real)

  const MAX_ENTRIES := 32
  const MAX_AGE := 120.0

  predicate IsExpired(createdAt: real, now: real) {
    now - createdAt > MAX_AGE
  }

  predicate ShouldPrune(entryCount: nat, createdAt: real, now: real) {
    entryCount > MAX_ENTRIES || IsExpired(createdAt, now)
  }

  // ---- Keys ----

  function Decimal(n: nat): string {
    if n < 10 then ['0' + n as char] else Decimal(n / 10) + ['0' + (n % 10) as char]
  }

  /** Who asks for or stores a snapshot. Lower-casing is a library function. */
  datatype Names = Names(lower: string -> string, space: string) {
    predicate IsExplicit() {
      space != "default"
    }

    function Spaced(key: string): string {
      space + ":" + lower(key)
    }

    function WindowKey(query: string, windowId: nat): string {
      lower(query) + "#window:" + Decimal(windowId)
    }

    function WindowIndexKey(query: string, windowIndex: nat): string {
      lower(query) + "#windowIndex:" + Decimal(windowIndex)
    }

    function CanonicalWindowKey(windowId: nat): string {
      "window-id:" + Decimal(windowId)
    }

    function CanonicalIndexKey(windowIndex: nat): string {
      "window-index:" + Decimal(windowIndex)
    }
  }

  /** A key, and the same key without a namespace when the namespace is the default one. */
  function BothKeys(n: Names, canonical: string): seq<string> {
    if n.IsExplicit() then [n.Spaced(canonical)] else [n.lower(canonical), n.Spaced(canonical)]
  }

  function CanonicalKeys(n: Names, windowId: nat, windowIndex: Option<nat>): seq<string> {
    BothKeys(n, n.CanonicalWindowKey(windowId))
    + (if windowIndex.None? then [] else BothKeys(n, n.CanonicalIndexKey(windowIndex.value)))
  }

  function PlainKeys(n: Names, key: string, windowId: nat, windowIndex: Option<nat>): seq<string> {
    if n.IsExplicit() then []
    else [key, n.WindowKey(key, windowId)] + (if windowIndex.None? then [] else [n.WindowIndexKey(key, windowIndex.value)])
  }

  function SpacedKeys(n: Names, key: string, windowId: nat, windowIndex: Option<nat>): seq<string> {
    [n.Spaced(key), n.Spaced(n.WindowKey(key, windowId))]
    + (if windowIndex.None? then [] else [n.Spaced(n.WindowIndexKey(key, windowIndex.value))])
  }

  function KeysFor(n: Names, key: string, windowId: nat, windowIndex: Option<nat>): seq<string> {
    PlainKeys(n, key, windowId, windowIndex) + SpacedKeys(n, key, windowId, windowIndex)
  }

  function KeysForAll(n: Names, names: seq<string>, windowId: nat, windowIndex: Option<nat>): seq<string> {
    if names == [] then []
    else if names[0] == "" then KeysForAll(n, names[1..], windowId, windowIndex)
    else KeysFor(n, n.lower(names[0]), windowId, windowIndex) + KeysForAll(n, names[1..], windowId, windowIndex)
  }

  /** Every key under which a snapshot is stored. */
  function StoredKeys(n: Names, names: seq<string>, windowId: nat, windowIndex: Option<nat>): seq<string> {
    CanonicalKeys(n, windowId, windowIndex) + KeysForAll(n, names, windowId, windowIndex)
  }

  // ---- What the map should hold, given the log ----

  /** A live log entry together with the snapshot it was made for. */
  datatype Logged = Logged(entry: Entry, snapshot: Snapshot)

  function KeyMap(keys: seq<string>, snapshot: Snapshot): map<string, Snapshot> {
    map k | k in keys :: snapshot
  }

  /** Each key of a live entry, with the snapshot of the latest entry that lists it. */
  function Index(log: seq<Logged>): map<string, Snapshot> {
    if log == [] then map[]
    else Index(log[..|log| - 1]) + KeyMap(log[|log| - 1].entry.keys, log[|log| - 1].snapshot)
  }

  predicate HasDistinctIds(log: seq<Logged>) {
    && (forall i :: 0 <= i < |log| ==> log[i].snapshot.id == log[i].entry.snapshotId)
    && (forall i, j :: 0 <= i < j < |log| ==> log[i].entry.snapshotId != log[j].entry.snapshotId)
  }

  function Pruned(log: seq<Logged>, now: real): seq<Logged> {
    if log != [] && ShouldPrune(|log|, log[0].entry.createdAt, now) then Pruned(log[1..], now) else log
  }

  lemma {:induction false} IndexFront(log: seq<Logged>)
    requires log != []
    ensures Index(log) == KeyMap(log[0].entry.keys, log[0].snapshot) + Index(log[1..])
    decreases |log|
  {
    var n := |log| - 1;
    if n > 0 {
      IndexFront(log[..n]);
      assert log[..n][1..] == log[1..][..n - 1] && log[1..][n - 1] == log[n];
      MapAssoc(KeyMap(log[0].entry.keys, log[0].snapshot), Index(log[..n][1..]), KeyMap(log[n].entry.keys, log[n].snapshot));
      hide KeyMap;
    }
  }

  lemma MapAssoc(a: map<string, Snapshot>, b: map<string, Snapshot>, c: map<string, Snapshot>)
    ensures a + b + c == a + (b + c)
  {
  }

  /** The last entry that lists a key. */
  predicate IsLatest(log: seq<Logged>, i: nat, key: string)
    requires i < |log|
  {
    key in log[i].entry.keys && forall j :: i < j < |log| ==> key !in log[j].entry.keys
  }

  /** The meaning of the index: a key is present when some live entry lists it, and then it holds
      the snapshot of the last entry that does. */
  lemma {:induction false} IndexIsLatest(log: seq<Logged>, key: string)
    ensures key in Index(log) <==> exists i :: 0 <= i < |log| && key in log[i].entry.keys
    ensures key in Index(log) ==> (exists i :: 0 <= i < |log| && IsLatest(log, i, key) && Index(log)[key] == log[i].snapshot)
    decreases |log|
  {
    if log != [] {
      var n := |log| - 1;
      IndexIsLatest(log[..n], key);
      if key in log[n].entry.keys {
        assert IsLatest(log, n, key);
      } else if key in Index(log[..n]) {
        var i :| 0 <= i < n && IsLatest(log[..n], i, key) && Index(log[..n])[key] == log[..n][i].snapshot;
        assert log[i] == log[..n][i];
        forall j | i < j < |log| ensures key !in log[j].entry.keys {
          if j < n { assert log[..n][j] == log[j]; }
        }
        assert IsLatest(log, i, key);
      }
    }
  }

  /** What eviction takes out: the oldest entry's keys, but not those a newer entry stored again. */
  function WithoutOldest(snapshots: map<string, Snapshot>, oldest: Entry): map<string, Snapshot> {
    map k | k in snapshots && !(k in oldest.keys && snapshots[k].id == oldest.snapshotId) :: snapshots[k]
  }

  /** Evicting the oldest entry from the map gives the index of the rest of the log. */
  lemma EvictionKeepsIndex(log: seq<Logged>)
    requires log != [] && HasDistinctIds(log)
    ensures WithoutOldest(Index(log), log[0].entry) == Index(log[1..])
  {
    IndexFront(log);
    forall k | k in Index(log[1..]) ensures Index(log[1..])[k].id != log[0].entry.snapshotId {
      IndexIsLatest(log[1..], k);
    }
  }

  lemma DistinctTail(log: seq<Logged>)
    requires HasDistinctIds(log) && log != []
    ensures HasDistinctIds(log[1..])
  {
  }

  // ---- What pruning leaves ----

  predicate IsOrdered(log: seq<Logged>) {
    forall i, j :: 0 <= i < j < |log| ==> log[i].entry.createdAt <= log[j].entry.createdAt
  }

  /** Pruning drops a prefix: only entries that are expired or have 32 newer ones after them. */
  lemma {:induction false} PrunedDrops(log: seq<Logged>, now: real)
    ensures |Pruned(log, now)| <= |log|
    ensures Pruned(log, now) == log[|log| - |Pruned(log, now)|..]
    ensures forall i :: 0 <= i < |log| - |Pruned(log, now)| ==>
      IsExpired(log[i].entry.createdAt, now) || |log| - i > MAX_ENTRIES
    decreases log
  {
    if log != [] && ShouldPrune(|log|, log[0].entry.createdAt, now) {
      PrunedDrops(log[1..], now);
      var n := |Pruned(log[1..], now)|;
      assert log[1..][|log| - 1 - n..] == log[|log| - n..];
      forall i | 0 <= i < |log| - n ensures IsExpired(log[i].entry.createdAt, now) || |log| - i > MAX_ENTRIES {
        if i > 0 { assert log[1..][i - 1] == log[i]; }
      }
    }
  }

  /** Pruning stops at an entry that is neither expired nor too far back, and so at most 32 remain. */
  lemma {:induction false} PrunedStops(log: seq<Logged>, now: real)
    ensures |Pruned(log, now)| <= MAX_ENTRIES
    ensures var kept := Pruned(log, now); kept != [] ==> !IsExpired(kept[0].entry.createdAt, now)
    decreases log
  {
    if log != [] && ShouldPrune(|log|, log[0].entry.createdAt, now) {
      PrunedStops(log[1..], now);
    }
  }

  /** No expired entry stands behind one that is fresh and among the last 32. */
  predicate NoneHeldBack(log: seq<Logged>, now: real) {
    forall i, j :: 0 <= i < j < |log| && IsExpired(log[j].entry.createdAt, now) && |log| - i <= MAX_ENTRIES
      ==> IsExpired(log[i].entry.createdAt, now)
  }

  predicate AreFresh(log: seq<Logged>, now: real) {
    forall l <- log :: !IsExpired(l.entry.createdAt, now)
  }

  /** At most 32 entries remain, and none of them is expired, exactly when no expired entry is held
      back by a fresh one in front of it; so never while the clock does not go back. */
  lemma PrunedIsFresh(log: seq<Logged>, now: real)
    ensures |Pruned(log, now)| <= MAX_ENTRIES
    ensures AreFresh(Pruned(log, now), now) <==> NoneHeldBack(log, now)
    ensures IsOrdered(log) ==> AreFresh(Pruned(log, now), now)
  {
    PrunedDrops(log, now);
    PrunedStops(log, now);
    var kept := Pruned(log, now);
    var dropped := |log| - |kept|;
    hide Pruned;
    assert forall k :: 0 <= k < |kept| ==> kept[k] == log[dropped + k];
    if NoneHeldBack(log, now) {
      forall l <- kept ensures !IsExpired(l.entry.createdAt, now) {
        var k :| 0 <= k < |kept| && kept[k] == l;
        assert log[dropped] == kept[0] && log[dropped + k] == l;
      }
    }
    if AreFresh(kept, now) {
      forall i, j | 0 <= i < j < |log| && IsExpired(log[j].entry.createdAt, now) && |log| - i <= MAX_ENTRIES
        ensures IsExpired(log[i].entry.createdAt, now)
      {
        assert j >= dropped ==> kept[j - dropped] == log[j];
      }
    }
  }

  /** After the clock went back, an expired entry can stay behind one that is not. */
  lemma ClockWentBack()
    ensures exists log: seq<Logged> ::
      (HasDistinctIds(log) && (forall l <- log :: l.entry.keys != [])
       && !NoneHeldBack(log, 130.0) && !AreFresh(Pruned(log, 130.0), 130.0))
  {
    var first := Logged(Entry("a", ["window:1"], 100.0), Snapshot("a", 1, 0));
    var second := Logged(Entry("b", ["window:2"], 0.0), Snapshot("b", 2, 0));
    var log := [first, second];
    assert "a"[0] != "b"[0];
    assert HasDistinctIds(log) && forall l <- log :: l.entry.keys != [];
    assert IsExpired(log[1].entry.createdAt, 130.0) && !IsExpired(log[0].entry.createdAt, 130.0);
    assert Pruned(log, 130.0) == log && second in log;
  }

  // ---- Looking a snapshot up ----

  /** The keys a lookup tries, in order. */
  function LookupKeys(n: Names, query: string, windowId: Option<nat>, windowIndex: Option<nat>): seq<string> {
    if query == "" then []
    else if windowId.Some? then
      Tried(n, n.CanonicalWindowKey(windowId.value), n.WindowKey(n.lower(query), windowId.value))
    else if windowIndex.Some? then
      Tried(n, n.CanonicalIndexKey(windowIndex.value), n.WindowIndexKey(n.lower(query), windowIndex.value))
    else [n.Spaced(n.lower(query))] + (if n.IsExplicit() then [] else [n.lower(query)])
  }

  function Tried(n: Names, canonical: string, key: string): seq<string> {
    [n.Spaced(canonical)] + (if n.IsExplicit() then [] else [n.lower(canonical)])
    + [n.Spaced(key)] + (if n.IsExplicit() then [] else [key])
  }

  function FirstOf(snapshots: map<string, Snapshot>, keys: seq<string>): Option<Snapshot> {
    if keys == [] then None
    else if keys[0] in snapshots then Some(snapshots[keys[0]])
    else FirstOf(snapshots, keys[1..])
  }

  /** A snapshot just remembered is what every lookup of it finds: by its window, by its window
      index, or by any of the names it was stored under; exactly unless its own pruning drops it, and
      then nothing is found. */
  lemma RememberedIsFound(log: seq<Logged>, n: Names, names: seq<string>, query: string, snapshot: Snapshot, windowIndex: Option<nat>, createdAt: real, now: real)
    requires query in names && query != ""
    ensures var added := Logged(Entry(snapshot.id, StoredKeys(n, names, snapshot.windowId, windowIndex), createdAt), snapshot);
      var snapshots := Index(Pruned(log + [added], now));
      var found := if Outlives(log, createdAt, now) then Some(snapshot) else None;
      && FirstOf(snapshots, LookupKeys(n, query, Some(snapshot.windowId), windowIndex)) == found
      && FirstOf(snapshots, LookupKeys(n, query, None, windowIndex)) == found
      && FirstOf(snapshots, LookupKeys(n, query, None, None)) == found
  {
    var keys := StoredKeys(n, names, snapshot.windowId, windowIndex);
    var added := Logged(Entry(snapshot.id, keys, createdAt), snapshot);
    hide StoredKeys, KeyMap, Pruned, LookupKeys, Outlives;
    LastStays(log, added, now);
    var kept := Pruned(log + [added], now);
    if Outlives(log, createdAt, now) {
      LastIsIndexed(kept);
      StoredIsFound(Index(kept), n, names, query, snapshot, windowIndex);
    } else {
      assert Index(kept) == map[];
      NothingIsFound(LookupKeys(n, query, Some(snapshot.windowId), windowIndex));
      NothingIsFound(LookupKeys(n, query, None, windowIndex));
      NothingIsFound(LookupKeys(n, query, None, None));
    }
  }

  lemma LastIsIndexed(log: seq<Logged>)
    requires log != []
    ensures var last := log[|log| - 1]; forall k :: k in last.entry.keys ==> k in Index(log) && Index(log)[k] == last.snapshot
  {
  }

  lemma {:induction false} NothingIsFound(keys: seq<string>)
    ensures FirstOf(map[], keys) == None
    decreases keys
  {
    if keys != [] { NothingIsFound(keys[1..]); }
  }

  lemma StoredIsFound(snapshots: map<string, Snapshot>, n: Names, names: seq<string>, query: string, snapshot: Snapshot, windowIndex: Option<nat>)
    requires query in names && query != ""
    requires forall k :: k in StoredKeys(n, names, snapshot.windowId, windowIndex) ==> k in snapshots && snapshots[k] == snapshot
    ensures FirstOf(snapshots, LookupKeys(n, query, Some(snapshot.windowId), windowIndex)) == Some(snapshot)
    ensures FirstOf(snapshots, LookupKeys(n, query, None, windowIndex)) == Some(snapshot)
    ensures FirstOf(snapshots, LookupKeys(n, query, None, None)) == Some(snapshot)
  {
    NameIsStored(n, names, query, snapshot.windowId, windowIndex);
    CanonicalAreStored(n, snapshot.windowId, windowIndex);
    hide KeysForAll, CanonicalKeys;
    FirstIsFound(snapshots, LookupKeys(n, query, Some(snapshot.windowId), windowIndex), snapshot);
    FirstIsFound(snapshots, LookupKeys(n, query, None, windowIndex), snapshot);
    FirstIsFound(snapshots, LookupKeys(n, query, None, None), snapshot);
  }

  lemma FirstIsFound(snapshots: map<string, Snapshot>, keys: seq<string>, snapshot: Snapshot)
    requires keys != [] && keys[0] in snapshots && snapshots[keys[0]] == snapshot
    ensures FirstOf(snapshots, keys) == Some(snapshot)
  {
  }

  lemma CanonicalAreStored(n: Names, windowId: nat, windowIndex: Option<nat>)
    ensures n.Spaced(n.CanonicalWindowKey(windowId)) in CanonicalKeys(n, windowId, windowIndex)
    ensures windowIndex.Some? ==> n.Spaced(n.CanonicalIndexKey(windowIndex.value)) in CanonicalKeys(n, windowId, windowIndex)
  {
  }

  lemma {:induction false} NameIsStored(n: Names, names: seq<string>, query: string, windowId: nat, windowIndex: Option<nat>)
    requires query in names && query != ""
    ensures n.Spaced(n.lower(query)) in KeysForAll(n, names, windowId, windowIndex)
    decreases names
  {
    if names[0] == query {
      assert n.Spaced(n.lower(query)) in SpacedKeys(n, n.lower(query), windowId, windowIndex);
    } else {
      NameIsStored(n, names[1..], query, windowId, windowIndex);
    }
  }

  /** Whether an entry added now outlives the pruning that follows: it is not expired yet, or one in
      front of it holds it back. */
  ghost predicate Outlives(log: seq<Logged>, createdAt: real, now: real) {
    !IsExpired(createdAt, now)
    || exists i :: 0 <= i < |log| && |log| + 1 - i <= MAX_ENTRIES && !IsExpired(log[i].entry.createdAt, now)
  }

  /** Exactly then it stays, as the last one; otherwise nothing stays. Between the two readings of the
      clock, one for the entry and one for the pruning, it takes more than the age limit to expire. */
  lemma {:induction false} LastStays(log: seq<Logged>, added: Logged, now: real)
    ensures var kept := Pruned(log + [added], now);
      if Outlives(log, added.entry.createdAt, now) then kept != [] && kept[|kept| - 1] == added else kept == []
    decreases log
  {
    var all := log + [added];
    if log == [] {
      assert all == [added] && [added][1..] == [];
    } else {
      assert all[0] == log[0] && all[1..] == log[1..] + [added];
      LastStays(log[1..], added, now);
      if ShouldPrune(|all|, all[0].entry.createdAt, now) {
        var rest := log[1..];
        assert forall i :: 0 <= i < |rest| ==> rest[i] == log[i + 1];
        if i :| 0 <= i < |log| && |log| + 1 - i <= MAX_ENTRIES && !IsExpired(log[i].entry.createdAt, now) {
          assert i > 0 && rest[i - 1] == log[i];
        }
        if i :| 0 <= i < |rest| && |rest| + 1 - i <= MAX_ENTRIES && !IsExpired(rest[i].entry.createdAt, now) {
          assert log[i + 1] == rest[i];
        }
      } else {
        assert !IsExpired(log[0].entry.createdAt, now) && |log| + 1 <= MAX_ENTRIES;
      }
    }
  }

  lemma AddedIndex(log: seq<Logged>, added: Logged)
    ensures Index(log + [added]) == Index(log) + KeyMap(added.entry.keys, added.snapshot)
    ensures (HasDistinctIds(log) && added.snapshot.id == added.entry.snapshotId
             && forall l :: l in log ==> l.entry.snapshotId != added.entry.snapshotId)
      ==> HasDistinctIds(log + [added])
  {
    assert (log + [added])[..|log|] == log;
  }

  lemma KeysAssoc(a: seq<string>, b: seq<string>, c: seq<string>, d: seq<string>)
    ensures a + b + c + d == a + (b + c + d)
  {
  }

  lemma NoKeys(before: map<string, Snapshot>, snapshot: Snapshot)
    ensures before + KeyMap([], snapshot) == before
  {
  }

  // ---- The code ----

  class Provider {
    const lower: string -> string
    var snapshots: map<string, Snapshot>
    var snapshotEntries: seq<Entry>
    /** The log with the snapshots it was made for; the code keeps only their ids. */
    ghost var log: seq<Logged>

    ghost predicate Valid()
      reads this
    {
      && HasDistinctIds(log) && snapshots == Index(log)
      && |snapshotEntries| == |log| && forall i :: 0 <= i < |log| ==> snapshotEntries[i] == log[i].entry
    }

    constructor (lower: string -> string)
      ensures Valid() && log == [] && this.lower == lower
    {
      this.lower := lower;
      snapshots, snapshotEntries, log := map[], [], [];
    }

    /** Stores under one key and notes the key. */
    method Store(key: string, snapshot: Snapshot, storedKeys: seq<string>, ghost before: map<string, Snapshot>) returns (keys: seq<string>)
      requires snapshots == before + KeyMap(storedKeys, snapshot)
      modifies this`snapshots
      ensures snapshots == before + KeyMap(keys, snapshot) && keys == storedKeys + [key]
    {
      snapshots := snapshots[key := snapshot];
      keys := storedKeys + [key];
    }

    method StoreBoth(n: Names, canonical: string, snapshot: Snapshot, storedBefore: seq<string>, ghost before: map<string, Snapshot>)
      returns (storedKeys: seq<string>)
      requires snapshots == before + KeyMap(storedBefore, snapshot)
      modifies this`snapshots
      ensures snapshots == before + KeyMap(storedKeys, snapshot)
      ensures storedKeys == storedBefore + BothKeys(n, canonical)
    {
      hide KeyMap, Names.Spaced;
      storedKeys := storedBefore;
      if !n.IsExplicit() {
        storedKeys := Store(n.lower(canonical), snapshot, storedKeys, before);
      }
      storedKeys := Store(n.Spaced(canonical), snapshot, storedKeys, before);
    }

    method StorePlain(n: Names, key: string, snapshot: Snapshot, windowIndex: Option<nat>, storedBefore: seq<string>, ghost before: map<string, Snapshot>)
      returns (storedKeys: seq<string>)
      requires snapshots == before + KeyMap(storedBefore, snapshot)
      modifies this`snapshots
      ensures snapshots == before + KeyMap(storedKeys, snapshot)
      ensures storedKeys == storedBefore + PlainKeys(n, key, snapshot.windowId, windowIndex)
    {
      hide KeyMap, Names.WindowKey, Names.WindowIndexKey;
      storedKeys := storedBefore;
      if !n.IsExplicit() {
        storedKeys := Store(key, snapshot, storedKeys, before);
        storedKeys := Store(n.WindowKey(key, snapshot.windowId), snapshot, storedKeys, before);
        if windowIndex.Some? {
          storedKeys := Store(n.WindowIndexKey(key, windowIndex.value), snapshot, storedKeys, before);
        }
      }
    }

    method StoreSpaced(n: Names, key: string, snapshot: Snapshot, windowIndex: Option<nat>, storedBefore: seq<string>, ghost before: map<string, Snapshot>)
      returns (storedKeys: seq<string>)
      requires snapshots == before + KeyMap(storedBefore, snapshot)
      modifies this`snapshots
      ensures snapshots == before + KeyMap(storedKeys, snapshot)
      ensures storedKeys == storedBefore + SpacedKeys(n, key, snapshot.windowId, windowIndex)
    {
      hide KeyMap, Names.Spaced, Names.WindowKey, Names.WindowIndexKey;
      storedKeys := Store(n.Spaced(key), snapshot, storedBefore, before);
      storedKeys := Store(n.Spaced(n.WindowKey(key, snapshot.windowId)), snapshot, storedKeys, before);
      if windowIndex.Some? {
        storedKeys := Store(n.Spaced(n.WindowIndexKey(key, windowIndex.value)), snapshot, storedKeys, before);
      }
    }

    /** Stores a snapshot under all its keys, and returns them. */
    method StoreAll(n: Names, names: seq<string>, snapshot: Snapshot, windowIndex: Option<nat>) returns (storedKeys: seq<string>)
      requires n.lower == lower
      modifies this`snapshots
      ensures storedKeys == StoredKeys(n, names, snapshot.windowId, windowIndex)
      ensures snapshots == old(snapshots) + KeyMap(storedKeys, snapshot)
    {
      hide KeyMap, BothKeys, PlainKeys, SpacedKeys;
      ghost var before := snapshots;
      NoKeys(before, snapshot);
      storedKeys := StoreBoth(n, n.CanonicalWindowKey(snapshot.windowId), snapshot, [], before);
      if windowIndex.Some? {
        storedKeys := StoreBoth(n, n.CanonicalIndexKey(windowIndex.value), snapshot, storedKeys, before);
      }
      assert storedKeys == CanonicalKeys(n, snapshot.windowId, windowIndex);
      storedKeys := StoreNames(n, names, snapshot, windowIndex, storedKeys, before);
    }

    method StoreNames(n: Names, names: seq<string>, snapshot: Snapshot, windowIndex: Option<nat>, storedBefore: seq<string>, ghost before: map<string, Snapshot>)
      returns (storedKeys: seq<string>)
      requires n.lower == lower
      requires snapshots == before + KeyMap(storedBefore, snapshot)
      modifies this`snapshots
      ensures storedKeys == storedBefore + KeysForAll(n, names, snapshot.windowId, windowIndex)
      ensures snapshots == before + KeyMap(storedKeys, snapshot)
    {
      hide KeyMap, PlainKeys, SpacedKeys;
      storedKeys := storedBefore;
      for i := 0 to |names|
        invariant storedKeys + KeysForAll(n, names[i..], snapshot.windowId, windowIndex)
               == storedBefore + KeysForAll(n, names, snapshot.windowId, windowIndex)
        invariant snapshots == before + KeyMap(storedKeys, snapshot)
      {
        assert names[i..][1..] == names[i + 1..];
        if names[i] != "" {
          KeysAssoc(storedKeys, PlainKeys(n, lower(names[i]), snapshot.windowId, windowIndex),
                    SpacedKeys(n, lower(names[i]), snapshot.windowId, windowIndex), KeysForAll(n, names[i + 1..], snapshot.windowId, windowIndex));
          storedKeys := StorePlain(n, lower(names[i]), snapshot, windowIndex, storedKeys, before);
          storedKeys := StoreSpaced(n, lower(names[i]), snapshot, windowIndex, storedKeys, before);
        }
      }
    }

    /** The clock is read when the entry is made and again for the pruning. */
    method RememberSnapshot(names: seq<string>, space: string, snapshot: Snapshot, windowIndex: Option<nat>, createdAt: real, now: real)
      requires Valid()
      requires forall l :: l in log ==> l.entry.snapshotId != snapshot.id
      modifies this
      ensures Valid()
      ensures log == Pruned(old(log) + [Logged(Entry(snapshot.id,
          StoredKeys(Names(lower, space), names, snapshot.windowId, windowIndex), createdAt), snapshot)], now)
    {
      hide StoredKeys, KeyMap, Index, HasDistinctIds, Pruned;
      var storedKeys := StoreAll(Names(lower, space), names, snapshot, windowIndex);
      ghost var added := Logged(Entry(snapshot.id, storedKeys, createdAt), snapshot);
      AddedIndex(log, added);
      snapshotEntries := snapshotEntries + [Entry(snapshot.id, storedKeys, createdAt)];
      log := log + [added];
      PruneSnapshotCache(now);
    }

    /** Removes the keys of an evicted entry, except those that a newer entry stored again. */
    method Evict(expired: Entry)
      modifies this`snapshots
      ensures snapshots == WithoutOldest(old(snapshots), expired)
    {
      ghost var whole := snapshots;
      for i := 0 to |expired.keys|
        invariant forall k :: k in snapshots <==>
          k in whole && !(k in expired.keys[..i] && whole[k].id == expired.snapshotId)
        invariant forall k :: k in snapshots ==> snapshots[k] == whole[k]
      {
        var key := expired.keys[i];
        assert expired.keys[..i + 1] == expired.keys[..i] + [key];
        if key in snapshots && snapshots[key].id == expired.snapshotId {
          snapshots := snapshots - {key};
        }
      }
      assert expired.keys[..|expired.keys|] == expired.keys;
    }

    method PruneSnapshotCache(now: real)
      requires Valid()
      modifies this
      ensures Valid() && log == Pruned(old(log), now)
    {
      while snapshotEntries != [] && ShouldPrune(|snapshotEntries|, snapshotEntries[0].createdAt, now)
        invariant Valid() && Pruned(log, now) == Pruned(old(log), now)
        decreases |snapshotEntries|
      {
        var expired := snapshotEntries[0];
        snapshotEntries := snapshotEntries[1..];
        EvictionKeepsIndex(log);
        DistinctTail(log);
        hide Index, WithoutOldest;
        Evict(expired);
        log := log[1..];
      }
    }
  }
}
