/** The stack-driven disk usage scan of one worktree, against the recursive sum it stands for. */
module WorkspaceScan {

  const U64_MAX := 0xffff_ffff_ffff_ffff

  type u64 = n: int | 0 <= n <= U64_MAX

  datatype Kind = Directory | File | Symlink | Other

  /** A file system entry as the scan sees it: whether `stat` and listing it succeed. */
  datatype Node = Node(name: string, kind: Kind, size: u64, readable: bool, listable: bool, entries: seq<Node>)

  datatype Item = Item(name: string, kind: Kind, size: u64)

  datatype Pending = Pending(node: Node, depth: nat, topIndex: TopIndex)

  datatype TopIndex = NoTop | Top(index: nat)

  datatype Row = Row(size: u64, skipped: nat, items: seq<Item>, omittedCount: nat, omittedSize: u64)

  datatype Outcome = Scanned(row: Row) | Cancelled | TooLarge | Missing

  const MAX_TOP_LEVEL_ITEMS := 32
  const MAX_SCAN_DEPTH := 128
  const MAX_SCANNED_ENTRIES := 100_000

  /** A saturating 64-bit value. */
  function Sat(n: nat): u64 {
    if n <= U64_MAX then n else U64_MAX
  }

  // ---- Independent definitions over the tree ----

  predicate IsListed(node: Node, depth: nat) {
    depth <= MAX_SCAN_DEPTH && node.readable && node.kind == Directory && node.listable
  }

  /** Bytes of the readable nodes within the depth limit. */
  function Bytes(node: Node, depth: nat): nat
    decreases node, 1
  {
    (if depth <= MAX_SCAN_DEPTH && node.readable then node.size else 0)
    + (if IsListed(node, depth) then BytesOfAll(node.entries, depth + 1) else 0)
  }

  function BytesOfAll(nodes: seq<Node>, depth: nat): nat
    decreases nodes, 0
  {
    if nodes == [] then 0 else BytesOfAll(nodes[..|nodes| - 1], depth) + Bytes(nodes[|nodes| - 1], depth)
  }

  /** Nodes that could not be read or listed, or lie below the depth limit. */
  function Skips(node: Node, depth: nat): nat
    decreases node, 1
  {
    if depth > MAX_SCAN_DEPTH || !node.readable then 1
    else if node.kind != Directory then 0
    else if node.listable then SkipsOfAll(node.entries, depth + 1) else 1
  }

  function SkipsOfAll(nodes: seq<Node>, depth: nat): nat
    decreases nodes, 0
  {
    if nodes == [] then 0 else SkipsOfAll(nodes[..|nodes| - 1], depth) + Skips(nodes[|nodes| - 1], depth)
  }

  /** Entries the scan looks at, including the ones it skips. */
  function Entries(node: Node, depth: nat): nat
    decreases node, 1
  {
    1 + if IsListed(node, depth) then EntriesOfAll(node.entries, depth + 1) else 0
  }

  function EntriesOfAll(nodes: seq<Node>, depth: nat): nat
    decreases nodes, 0
  {
    if nodes == [] then 0 else EntriesOfAll(nodes[..|nodes| - 1], depth) + Entries(nodes[|nodes| - 1], depth)
  }

  /** One item for every readable child, last child first, with the bytes below it. */
  function ItemsOf(children: seq<Node>): seq<Item> {
    if children == [] then []
    else
      var last := children[|children| - 1];
      (if last.readable then [Item(last.name, last.kind, Sat(Bytes(last, 1)))] else []) + ItemsOf(children[..|children| - 1])
  }

  function Items(root: Node): seq<Item> {
    if IsListed(root, 0) then ItemsOf(root.entries) else []
  }

  // ---- The traversal, as a function of the accumulated state ----

  datatype Acc = Acc(top: seq<Item>, skipped: nat, size: u64, scanned: nat)

  const EMPTY := Acc([], 0, 0, 0)

  /** The effect of looking at one node, without its entries. */
  function Look(p: Pending, acc: Acc): (Acc, TopIndex)
    requires p.topIndex.Top? ==> p.topIndex.index < |acc.top|
  {
    var a := acc.(scanned := acc.scanned + 1);
    if p.depth > MAX_SCAN_DEPTH || !p.node.readable then (a.(skipped := a.skipped + 1), p.topIndex)
    else
      var sized := a.(size := Sat(a.size + p.node.size));
      var (b, index) :=
        if p.depth == 1 then (sized.(top := sized.top + [Item(p.node.name, p.node.kind, p.node.size)]), Top(|sized.top|))
        else if p.topIndex.Top? then
          var i := p.topIndex.index;
          (sized.(top := sized.top[i := sized.top[i].(size := Sat(sized.top[i].size + p.node.size))]), p.topIndex)
        else (sized, NoTop);
      (if p.node.kind == Directory && !p.node.listable then b.(skipped := b.skipped + 1) else b, index)
  }

  function Visit(p: Pending, acc: Acc): (r: Acc)
    requires p.topIndex.Top? ==> p.topIndex.index < |acc.top|
    ensures |r.top| >= |acc.top|
    decreases p.node, 1
  {
    var (a, index) := Look(p, acc);
    if IsListed(p.node, p.depth) then VisitAll(p.node.entries, p.depth + 1, index, a) else a
  }

  /** The entries of a directory, last one first, as a stack gives them back. */
  function VisitAll(nodes: seq<Node>, depth: nat, index: TopIndex, acc: Acc): (r: Acc)
    requires index.Top? ==> index.index < |acc.top|
    ensures |r.top| >= |acc.top|
    decreases nodes, 0
  {
    if nodes == [] then acc
    else VisitAll(nodes[..|nodes| - 1], depth, index, Visit(Pending(nodes[|nodes| - 1], depth, index), acc))
  }

  // ---- What the traversal computes ----

  predicate IsPlaced(depth: nat, index: TopIndex, acc: Acc) {
    && (index.Top? <==> depth >= 2)
    && (index.Top? ==> index.index < |acc.top|)
  }

  /** The totals a subtree adds, at any depth. */
  ghost predicate Adds(acc: Acc, r: Acc, bytes: nat, skips: nat, entries: nat) {
    && r.size == Sat(acc.size + bytes)
    && r.skipped == acc.skipped + skips
    && r.scanned == acc.scanned + entries
  }

  /** Below the top level, a subtree changes only its own item, by its bytes. */
  ghost predicate AddsToItem(acc: Acc, r: Acc, i: nat, bytes: nat)
    requires i < |acc.top|
  {
    r.top == acc.top[i := acc.top[i].(size := Sat(acc.top[i].size + bytes))]
  }

  lemma {:induction false} VisitAdds(p: Pending, acc: Acc)
    requires IsPlaced(p.depth, p.topIndex, acc) && p.depth >= 2
    ensures Adds(acc, Visit(p, acc), Bytes(p.node, p.depth), Skips(p.node, p.depth), Entries(p.node, p.depth))
    ensures AddsToItem(acc, Visit(p, acc), p.topIndex.index, Bytes(p.node, p.depth))
    decreases p.node, 1
  {
    var (a, index) := Look(p, acc);
    if IsListed(p.node, p.depth) {
      VisitAllAdds(p.node.entries, p.depth + 1, index, a);
    }
  }

  lemma {:induction false} VisitAllAdds(nodes: seq<Node>, depth: nat, index: TopIndex, acc: Acc)
    requires IsPlaced(depth, index, acc) && depth >= 2
    ensures Adds(acc, VisitAll(nodes, depth, index, acc), BytesOfAll(nodes, depth), SkipsOfAll(nodes, depth), EntriesOfAll(nodes, depth))
    ensures AddsToItem(acc, VisitAll(nodes, depth, index, acc), index.index, BytesOfAll(nodes, depth))
    decreases nodes, 0
  {
    if nodes == [] {
      var item := acc.top[index.index];
      assert item.(size := Sat(item.size + 0)) == item;
    } else {
      var last := nodes[|nodes| - 1];
      VisitAdds(Pending(last, depth, index), acc);
      var r := Visit(Pending(last, depth, index), acc);
      VisitAllAdds(nodes[..|nodes| - 1], depth, index, r);
    }
  }

  /** A child of the root adds one item of its own, if it can be read. */
  lemma ChildAdds(child: Node, acc: Acc)
    ensures var r := Visit(Pending(child, 1, NoTop), acc);
      && Adds(acc, r, Bytes(child, 1), Skips(child, 1), Entries(child, 1))
      && r.top == acc.top + (if child.readable then [Item(child.name, child.kind, Sat(Bytes(child, 1)))] else [])
  {
    var (a, index) := Look(Pending(child, 1, NoTop), acc);
    if IsListed(child, 1) {
      VisitAllAdds(child.entries, 2, index, a);
    }
  }

  lemma AddsTwice(acc: Acc, t: Acc, r: Acc, b1: nat, s1: nat, e1: nat, b2: nat, s2: nat, e2: nat)
    requires Adds(acc, t, b1, s1, e1) && Adds(t, r, b2, s2, e2)
    ensures Adds(acc, r, b2 + b1, s2 + s1, e2 + e1)
  {
  }

  lemma {:induction false} ChildrenAdd(children: seq<Node>, acc: Acc)
    ensures var r := VisitAll(children, 1, NoTop, acc);
      && Adds(acc, r, BytesOfAll(children, 1), SkipsOfAll(children, 1), EntriesOfAll(children, 1))
      && r.top == acc.top + ItemsOf(children)
    decreases children
  {
    if children != [] {
      hide Visit, Adds, Bytes, BytesOfAll, Skips, SkipsOfAll, Entries, EntriesOfAll, ItemsOf;
      var n := |children| - 1;
      var t := Visit(Pending(children[n], 1, NoTop), acc);
      ChildrenAdd(children[..n], t);
      LastChildAdds(children, acc, t, VisitAll(children[..n], 1, NoTop, t));
    } else {
      assert acc.top + [] == acc.top;
    }
  }

  lemma SumsOfLast(children: seq<Node>)
    requires children != []
    ensures var n := |children| - 1;
      var last, front := children[n], children[..n];
      && BytesOfAll(children, 1) == BytesOfAll(front, 1) + Bytes(last, 1)
      && SkipsOfAll(children, 1) == SkipsOfAll(front, 1) + Skips(last, 1)
      && EntriesOfAll(children, 1) == EntriesOfAll(front, 1) + Entries(last, 1)
      && ItemsOf(children)
         == (if last.readable then [Item(last.name, last.kind, Sat(Bytes(last, 1)))] else []) + ItemsOf(front)
  {
    hide Bytes, Skips, Entries, Sat;
  }

  lemma Associate(a: seq<Item>, b: seq<Item>, c: seq<Item>)
    ensures a + b + c == a + (b + c)
  {
  }

  /** What the last child adds and what those before it add is what all add. */
  lemma LastChildAdds(children: seq<Node>, acc: Acc, t: Acc, r: Acc)
    requires children != []
    requires var n := |children| - 1;
      && t == Visit(Pending(children[n], 1, NoTop), acc)
      && Adds(t, r, BytesOfAll(children[..n], 1), SkipsOfAll(children[..n], 1), EntriesOfAll(children[..n], 1))
      && r.top == t.top + ItemsOf(children[..n])
    ensures Adds(acc, r, BytesOfAll(children, 1), SkipsOfAll(children, 1), EntriesOfAll(children, 1))
    ensures r.top == acc.top + ItemsOf(children)
  {
    SumsOfLast(children);
    hide Visit, Look, Bytes, BytesOfAll, Skips, SkipsOfAll, Entries, EntriesOfAll, ItemsOf, Adds, Sat;
    var n := |children| - 1;
    var last, front := children[n], children[..n];
    ChildAdds(last, acc);
    Associate(acc.top, if last.readable then [Item(last.name, last.kind, Sat(Bytes(last, 1)))] else [], ItemsOf(front));
    AddsTwice(acc, t, r, Bytes(last, 1), Skips(last, 1), Entries(last, 1),
              BytesOfAll(front, 1), SkipsOfAll(front, 1), EntriesOfAll(front, 1));
  }

  /** The traversal of the whole tree computes the recursive totals and the items. */
  lemma RootAdds(root: Node)
    ensures var r := Visit(Pending(root, 0, NoTop), EMPTY);
      && r == Acc(Items(root), Skips(root, 0), Sat(Bytes(root, 0)), Entries(root, 0))
  {
    var (a, index) := Look(Pending(root, 0, NoTop), EMPTY);
    if IsListed(root, 0) {
      ChildrenAdd(root.entries, a);
      assert [] + ItemsOf(root.entries) == ItemsOf(root.entries);
    }
  }

  // ---- The stack ----

  predicate IsStack(stack: seq<Pending>, acc: Acc) {
    forall p :: p in stack && p.topIndex.Top? ==> p.topIndex.index < |acc.top|
  }

  /** What is left to do, taken from the end of the stack. */
  function Run(stack: seq<Pending>, acc: Acc): Acc
    requires IsStack(stack, acc)
    decreases |stack|
  {
    if stack == [] then acc
    else
      var last := stack[|stack| - 1];
      assert last in stack;
      Run(stack[..|stack| - 1], Visit(last, acc))
  }

  function Pushed(nodes: seq<Node>, depth: nat, index: TopIndex): seq<Pending> {
    seq(|nodes|, i requires 0 <= i < |nodes| => Pending(nodes[i], depth, index))
  }

  /** Pushing the entries of a directory leaves the traversal of those entries to do first. */
  lemma {:induction false} RunPushed(stack: seq<Pending>, nodes: seq<Node>, depth: nat, index: TopIndex, acc: Acc)
    requires IsStack(stack, acc) && (index.Top? ==> index.index < |acc.top|)
    ensures IsStack(stack + Pushed(nodes, depth, index), acc)
    ensures Run(stack + Pushed(nodes, depth, index), acc) == Run(stack, VisitAll(nodes, depth, index, acc))
    decreases nodes
  {
    var all := stack + Pushed(nodes, depth, index);
    if nodes == [] {
      assert all == stack;
    } else {
      var n := |nodes| - 1;
      var last := Pending(nodes[n], depth, index);
      assert all[..|all| - 1] == stack + Pushed(nodes[..n], depth, index);
      RunPushed(stack, nodes[..n], depth, index, Visit(last, acc));
    }
  }

  /** One step of the loop: the last entry is looked at, and its own entries take its place. */
  lemma RunStep(stack: seq<Pending>, acc: Acc)
    requires IsStack(stack, acc) && stack != []
    ensures var p := stack[|stack| - 1];
      var below := stack[..|stack| - 1];
      && (p.topIndex.Top? ==> p.topIndex.index < |acc.top|)
      && var (a, index) := Look(p, acc);
         var next := if IsListed(p.node, p.depth) then below + Pushed(p.node.entries, p.depth + 1, index) else below;
         IsStack(next, a) && Run(stack, acc) == Run(next, a)
    ensures Run(stack, acc).scanned > acc.scanned
  {
    var p := stack[|stack| - 1];
    var below := stack[..|stack| - 1];
    assert p in stack;
    RunCounts(stack, acc);
    var (a, index) := Look(p, acc);
    if IsListed(p.node, p.depth) {
      RunPushed(below, p.node.entries, p.depth + 1, index, a);
    }
  }

  lemma {:induction false} RunCounts(stack: seq<Pending>, acc: Acc)
    requires IsStack(stack, acc)
    ensures Run(stack, acc).scanned >= acc.scanned + |stack|
    decreases |stack|
  {
    if stack != [] {
      var last := stack[|stack| - 1];
      assert last in stack;
      VisitCounts(last, acc);
      RunCounts(stack[..|stack| - 1], Visit(last, acc));
    }
  }

  lemma {:induction false} VisitCounts(p: Pending, acc: Acc)
    requires p.topIndex.Top? ==> p.topIndex.index < |acc.top|
    ensures Visit(p, acc).scanned > acc.scanned
    decreases p.node, 1
  {
    var (a, index) := Look(p, acc);
    if IsListed(p.node, p.depth) {
      VisitAllCounts(p.node.entries, p.depth + 1, index, a);
    }
  }

  lemma {:induction false} VisitAllCounts(nodes: seq<Node>, depth: nat, index: TopIndex, acc: Acc)
    requires index.Top? ==> index.index < |acc.top|
    ensures VisitAll(nodes, depth, index, acc).scanned >= acc.scanned
    decreases nodes, 0
  {
    if nodes != [] {
      var last := Pending(nodes[|nodes| - 1], depth, index);
      VisitCounts(last, acc);
      VisitAllCounts(nodes[..|nodes| - 1], depth, index, Visit(last, acc));
    }
  }

  // ---- The largest items ----

  /** Inserts before the first smaller item, so items of equal size keep their order. */
  function Inserted(item: Item, sorted: seq<Item>): (r: seq<Item>)
    ensures |r| == |sorted| + 1
  {
    if sorted == [] then [item]
    else if sorted[0].size >= item.size then [sorted[0]] + Inserted(item, sorted[1..])
    else [item] + sorted
  }

  /** Largest first; a stable sort. */
  function Sorted(items: seq<Item>): (r: seq<Item>)
    ensures |r| == |items|
  {
    if items == [] then [] else Inserted(items[|items| - 1], Sorted(items[..|items| - 1]))
  }

  lemma {:induction false} InsertedPermutes(item: Item, sorted: seq<Item>)
    ensures multiset(Inserted(item, sorted)) == multiset([item]) + multiset(sorted)
    decreases sorted
  {
    if sorted != [] && sorted[0].size >= item.size {
      InsertedPermutes(item, sorted[1..]);
      assert sorted == [sorted[0]] + sorted[1..];
    }
  }

  lemma {:induction false} SortedPermutes(items: seq<Item>)
    ensures multiset(Sorted(items)) == multiset(items)
    decreases items
  {
    if items != [] {
      var n := |items| - 1;
      SortedPermutes(items[..n]);
      InsertedPermutes(items[n], Sorted(items[..n]));
      assert items == items[..n] + [items[n]];
    }
  }

  predicate IsDescending(items: seq<Item>) {
    forall i, j :: 0 <= i < j < |items| ==> items[i].size >= items[j].size
  }

  lemma {:induction false} InsertedDescending(item: Item, sorted: seq<Item>)
    requires IsDescending(sorted)
    ensures IsDescending(Inserted(item, sorted))
    decreases sorted
  {
    if sorted != [] && sorted[0].size >= item.size {
      InsertedDescending(item, sorted[1..]);
      InsertedPermutes(item, sorted[1..]);
      var r := Inserted(item, sorted[1..]);
      forall i | 0 <= i < |r| ensures sorted[0].size >= r[i].size {
        assert r[i] in multiset(r);
        assert r[i] == item || r[i] in sorted[1..];
      }
    }
  }

  lemma {:induction false} TotalInserted(item: Item, sorted: seq<Item>)
    ensures Total(Inserted(item, sorted)) == item.size + Total(sorted)
    decreases sorted
  {
    if sorted != [] && sorted[0].size >= item.size {
      TotalInserted(item, sorted[1..]);
      assert ([sorted[0]] + Inserted(item, sorted[1..]))[1..] == Inserted(item, sorted[1..]);
    } else {
      assert ([item] + sorted)[1..] == sorted;
    }
  }

  function Total(items: seq<Item>): nat {
    if items == [] then 0 else items[0].size + Total(items[1..])
  }

  lemma {:induction false} TotalConcat(a: seq<Item>, b: seq<Item>)
    ensures Total(a + b) == Total(a) + Total(b)
    decreases a
  {
    if a == [] {
      assert a + b == b;
    } else {
      assert (a + b)[1..] == a[1..] + b;
      TotalConcat(a[1..], b);
    }
  }

  lemma TotalOne(item: Item)
    ensures Total([item]) == item.size && Total([]) == 0
  {
    assert [item][1..] == [];
  }

  lemma {:induction false} SortedDescending(items: seq<Item>)
    ensures IsDescending(Sorted(items)) && Total(Sorted(items)) == Total(items)
    decreases items
  {
    TotalOne(Item("", Other, 0));
    if items != [] {
      var n := |items| - 1;
      hide Total, Inserted, IsDescending;
      SortedDescending(items[..n]);
      InsertedDescending(items[n], Sorted(items[..n]));
      TotalInserted(items[n], Sorted(items[..n]));
      TotalOne(items[n]);
      assert items == items[..n] + [items[n]];
      TotalConcat(items[..n], [items[n]]);
    }
  }

  /** The `sum` of 64-bit sizes, which wraps around in release builds. */
  function WrappingTotal(items: seq<Item>): u64 {
    Total(items) % (U64_MAX + 1)
  }

  function RowOf(root: Node, a: Acc): Row {
    var sorted := Sorted(a.top);
    var kept := if |sorted| <= MAX_TOP_LEVEL_ITEMS then |sorted| else MAX_TOP_LEVEL_ITEMS;
    Row(if a.size >= root.size then a.size else root.size, a.skipped, sorted[..kept], |sorted| - kept, WrappingTotal(sorted[kept..]))
  }

  /** The row the recursive totals and items of the tree stand for. */
  function ReportedRow(root: Node): Row {
    RowOf(root, Acc(Items(root), Skips(root, 0), Sat(Bytes(root, 0)), Entries(root, 0)))
  }

  // ---- The code ----

  /** Adds one entry to the totals and to the item it belongs to. */
  method LookAt(p: Pending, top0: seq<Item>, skipped0: nat, size0: u64, ghost scannedEntries: nat)
    returns (top: seq<Item>, skipped: nat, size: u64, index: TopIndex)
    requires p.topIndex.Top? ==> p.topIndex.index < |top0|
    requires scannedEntries > 0
    ensures Look(p, Acc(top0, skipped0, size0, scannedEntries - 1)) == (Acc(top, skipped, size, scannedEntries), index)
  {
    top, skipped, size, index := top0, skipped0, size0, p.topIndex;
    if p.depth > MAX_SCAN_DEPTH || !p.node.readable {
      skipped := skipped + 1;
      return;
    }
    size := Sat(size + p.node.size);
    if p.depth == 1 {
      top := top + [Item(p.node.name, p.node.kind, p.node.size)];
      index := Top(|top| - 1);
    } else if p.topIndex.Top? {
      var i := p.topIndex.index;
      top := top[i := top[i].(size := Sat(top[i].size + p.node.size))];
    }
    if p.node.kind == Directory && !p.node.listable {
      skipped := skipped + 1;
    }
  }

  /** Scans a worktree; the cancel flag is seen set from the given iteration on, if ever. */
  method ScanWorktree(root: Node, cancelledFrom: nat, cancels: bool) returns (r: Outcome)
    ensures r == if !root.readable then Missing
                 else if cancels && cancelledFrom < Entries(root, 0) && cancelledFrom <= MAX_SCANNED_ENTRIES then Cancelled
                 else if Entries(root, 0) > MAX_SCANNED_ENTRIES then TooLarge
                 else Scanned(ReportedRow(root))
  {
    if !root.readable {
      return Missing;
    }
    hide RowOf, Items, Bytes, Skips, Entries, Visit, VisitAll, Pushed, IsListed, Sat;
    RootAdds(root);
    ghost var whole := Visit(Pending(root, 0, NoTop), EMPTY);
    var top: seq<Item> := [];
    var skipped: nat, size: u64, scannedEntries: nat := 0, 0, 0;
    var stack := [Pending(root, 0, NoTop)];
    var iteration := 0;
    RunStart(root);
    hide Run, IsStack, Look;
    while stack != []
      invariant IsStack(stack, Acc(top, skipped, size, scannedEntries))
      invariant Run(stack, Acc(top, skipped, size, scannedEntries)) == whole
      invariant iteration == scannedEntries <= MAX_SCANNED_ENTRIES
      invariant cancels ==> iteration <= cancelledFrom
      decreases MAX_SCANNED_ENTRIES - scannedEntries
    {
      var p := stack[|stack| - 1];
      ghost var acc := Acc(top, skipped, size, scannedEntries);
      RunStep(stack, acc);
      stack := stack[..|stack| - 1];
      if cancels && iteration >= cancelledFrom {
        return Cancelled;
      }
      iteration := iteration + 1;
      scannedEntries := scannedEntries + 1;
      if scannedEntries > MAX_SCANNED_ENTRIES {
        return TooLarge;
      }
      var index;
      top, skipped, size, index := LookAt(p, top, skipped, size, scannedEntries);
      if IsListed(p.node, p.depth) {
        stack := stack + Pushed(p.node.entries, p.depth + 1, index);
      }
    }
    RunEnd(Acc(top, skipped, size, scannedEntries));
    return Scanned(RowOf(root, Acc(top, skipped, size, scannedEntries)));
  }

  lemma RunStart(root: Node)
    ensures IsStack([Pending(root, 0, NoTop)], EMPTY)
    ensures Run([Pending(root, 0, NoTop)], EMPTY) == Visit(Pending(root, 0, NoTop), EMPTY)
  {
    assert [Pending(root, 0, NoTop)][..0] == [];
  }

  lemma RunEnd(acc: Acc)
    ensures Run([], acc) == acc
  {
  }

  // ---- Conservation ----

  lemma {:induction false} ItemBytes(children: seq<Node>)
    requires BytesOfAll(children, 1) <= U64_MAX
    ensures Total(ItemsOf(children)) == BytesOfAll(children, 1)
    decreases children
  {
    if children != [] {
      var n := |children| - 1;
      ItemBytes(children[..n]);
      var last := children[n];
      if last.readable {
        var item := Item(last.name, last.kind, Sat(Bytes(last, 1)));
        assert ItemsOf(children)[1..] == ItemsOf(children[..n]);
      } else {
        assert ItemsOf(children) == ItemsOf(children[..n]);
      }
    }
  }

  /** Without saturation, the reported bytes are the root's own, the kept items' and the omitted
      items'. With saturation they stand at the largest 64-bit value. */
  lemma RowConserves(root: Node)
    requires root.readable
    ensures var row := ReportedRow(root);
      && (Bytes(root, 0) <= U64_MAX ==> row.size == Bytes(root, 0) == root.size + Total(row.items) + row.omittedSize)
      && (Bytes(root, 0) > U64_MAX ==> row.size == U64_MAX)
  {
    hide Sorted, Total, Items, Bytes, Skips, Entries;
    var row := ReportedRow(root);
    var sorted := Sorted(Items(root));
    SortedDescending(Items(root));
    var n := |row.items|;
    assert sorted == sorted[..n] + sorted[n..];
    TotalConcat(sorted[..n], sorted[n..]);
    RootBytes(root);
    if Bytes(root, 0) <= U64_MAX {
      assert row.omittedSize == Total(sorted[n..]);
    }
  }

  /** The root's bytes are its own and those of its items. */
  lemma RootBytes(root: Node)
    requires root.readable
    ensures root.size <= Bytes(root, 0)
    ensures Bytes(root, 0) <= U64_MAX ==> Bytes(root, 0) == root.size + Total(Items(root))
  {
    if Bytes(root, 0) <= U64_MAX && IsListed(root, 0) {
      ItemBytes(root.entries);
    }
  }

  /** The kept items are a largest selection of at most 32, and nothing is lost or doubled. */
  lemma RowSelects(root: Node)
    ensures var row := ReportedRow(root);
      var omitted := Sorted(Items(root))[|row.items|..];
      && multiset(row.items) + multiset(omitted) == multiset(Items(root))
      && |row.items| <= MAX_TOP_LEVEL_ITEMS && row.omittedCount == |omitted|
      && (omitted != [] ==> |row.items| == MAX_TOP_LEVEL_ITEMS)
      && (forall k, o :: k in row.items && o in omitted ==> k.size >= o.size)
  {
    hide Sorted, Items, WrappingTotal, Bytes, Skips, Entries;
    var sorted := Sorted(Items(root));
    SortedDescending(Items(root));
    SortedPermutes(Items(root));
    var n := |ReportedRow(root).items|;
    assert sorted == sorted[..n] + sorted[n..];
  }
}
