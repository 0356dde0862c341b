/** What operations on one address space cost in free frames, and what they leave alone. */
module Budget {
  import opened FreeList
  import opened Paging
  import opened Frames
  import opened Tree
  import opened PageTables
  import opened VmaSpec

  // ---- What is left alone ----

  /** The slots of a root table that user space takes up. */
  const USER_SLOTS: nat := USER_TOP / 0x80_0000_0000

  /** The address space has tables in user space only, and its root is counted. */
  ghost predicate LowSlots(t: Tree, root: nat) {
    && Region(root, 4, 0) !in t.fixed
    && forall r :: r in t.tables && r.root == root && r.level == 3 ==> r.index < USER_SLOTS
  }

  /** Tables and mappings of all other address spaces are as before. */
  ghost predicate OthersKept(t: Tree, t': Tree, root: nat) {
    && t'.fixed == t.fixed
    && (forall r: Region :: r.root != root ==> (r in t'.tables <==> r in t.tables))
    && (forall r :: r in t.tables && r.root != root ==> t'.tables[r] == t.tables[r])
    && (forall r: Region :: r.root != root ==> (r in t'.Leaves() <==> r in t.Leaves()))
  }

  /** Nothing has leaked: the same allocated blocks as before are in use by nobody, and no other address space
      has been touched. */
  ghost predicate Clean(v: Snapshot, v': Snapshot, root: nat) {
    OthersKept(v.tree, v'.tree, root) && v'.tree.Unused(v'.owned) == v.tree.Unused(v.owned)
  }

  lemma CleanNothing(v: Snapshot, v': Snapshot, root: nat)
    requires v'.tree == v.tree && v'.owned == v.owned
    ensures Clean(v, v', root)
  {
  }

  lemma CleanTwice(v0: Snapshot, v1: Snapshot, v2: Snapshot, root: nat)
    requires Clean(v0, v1, root) && Clean(v1, v2, root)
    ensures Clean(v0, v2, root)
  {
    hide Tree.Unused, Tree.Leaves;
  }

  lemma CleanSame(v0: Snapshot, v1: Snapshot, v2: Snapshot, root: nat)
    requires Clean(v0, v1, root) && v2.tree == v1.tree && v2.owned == v1.owned
    ensures Clean(v0, v2, root)
  {
  }

  /** One block has been allocated and forgotten, and nothing else has happened. */
  ghost predicate OneWasted(v: Snapshot, v': Snapshot) {
    && v'.tree == v.tree
    && exists nd: Node :: !nd.huge && nd !in v.owned && v'.tree.Unused(v'.owned) == v.tree.Unused(v.owned) + {nd}
  }

  /** Such an address space is one the teardown is made for. */
  lemma LowIsUser(t: Tree, root: nat)
    requires t.WellFormed() && LowSlots(t, root)
    requires forall r :: r in t.Leaves() && r.root == root ==> r.level == 0 && r !in t.fixed
    ensures UserTree(t, Region(root, 4, 0), USER_SLOTS)
  {
    var top := Region(root, 4, 0);
    forall s | t.IsLeaf(s) && Under(s, top) ensures s.level == 0 && s !in t.fixed {
      UnderSameRoot(s, top);
      assert s in t.Leaves();
    }
    forall s | s in t.entries && s.Parent() == top ensures s.Slot() < USER_SLOTS {
      assert t.EntryOk(s);
    }
  }

  /** A page of user space adds only tables in user space. */
  lemma PathIsLow(t: Tree, t': Tree, root: nat, va: nat)
    requires LowSlots(t, root) && va < USER_TOP && t'.fixed == t.fixed
    requires t'.tables.Keys <= t.tables.Keys + PathTo(root, va)
    ensures LowSlots(t', root)
  {
  }

  lemma PathIsOwn(root: nat, va: nat)
    ensures forall r :: r in PathTo(root, va) ==> r.root == root
  {
  }

  lemma AddedKeys(t: Tree, t': Tree, path: set<Region>)
    requires TablesAdded(t, t', path)
    ensures t'.tables.Keys == t.tables.Keys + path
  {
  }

  // ---- What it costs ----

  lemma ZeroWeight(free: seq<Node>)
    ensures Weight(free) == 0 <==> free == []
  {
  }

  /** The tables on the way to a page. */
  ghost function PathTo(root: nat, va: nat): set<Region> {
    PathOf(root, Vpn(va), false)
  }

  /** The tables on the way to several pages. */
  ghost function PathsTo(root: nat, order: seq<nat>): set<Region> {
    if order == [] then {} else PathsTo(root, order[..|order| - 1]) + PathTo(root, order[|order| - 1])
  }

  lemma OneMorePath(root: nat, order: seq<nat>, i: nat)
    requires i < |order|
    ensures PathsTo(root, order[..i + 1]) == PathsTo(root, order[..i]) + PathTo(root, order[i])
    ensures PathsTo(root, order[..i + 1]) <= PathsTo(root, order)
  {
    assert order[..i + 1][..i] == order[..i];
    PathsGrow(root, order, i + 1);
  }

  lemma {:induction false} PathsGrow(root: nat, order: seq<nat>, i: nat)
    requires i <= |order|
    ensures PathsTo(root, order[..i]) <= PathsTo(root, order)
    decreases |order| - i
  {
    if i == |order| {
      assert order[..i] == order;
    } else {
      assert order[..i + 1][..i] == order[..i];
      PathsGrow(root, order, i + 1);
    }
  }

  /** The frames that n pages and the missing ones among the needed tables take. */
  ghost function Cost(v: Snapshot, n: nat, needed: set<Region>): nat {
    n + |needed - v.tree.tables.Keys|
  }

  /** At most the cost of n pages and the needed tables has been spent, and exactly that unless pages came back. */
  ghost predicate Spent(v: Snapshot, v': Snapshot, n: nat, needed: set<Region>, exact: bool) {
    && v'.tree.tables.Keys == v.tree.tables.Keys + needed
    && v.spare <= v'.spare + Cost(v, n, needed)
    && (exact ==> v.spare == v'.spare + Cost(v, n, needed))
  }

  lemma CostSum(k: set<Region>, a: set<Region>, b: set<Region>)
    ensures |(a + b) - k| == |a - k| + |b - (k + a)|
  {
    assert (a + b) - k == (a - k) + (b - (k + a));
  }

  lemma SpentNothing(v: Snapshot, exact: bool)
    ensures Spent(v, v, 0, {}, exact)
  {
    assert v.tree.tables.Keys + {} == v.tree.tables.Keys;
    assert {} - v.tree.tables.Keys == {};
  }

  lemma SpentMore(v0: Snapshot, v1: Snapshot, v2: Snapshot, n: nat, a: set<Region>, b: set<Region>, exact: bool)
    requires Spent(v0, v1, n, a, exact) && Spent(v1, v2, 1, b, exact)
    ensures Spent(v0, v2, n + 1, a + b, exact)
  {
    CostSum(v0.tree.tables.Keys, a, b);
  }

  /** If one more page cannot be paid for, the whole could not. */
  lemma SpentShort(v0: Snapshot, v1: Snapshot, n: nat, a: set<Region>, b: set<Region>, total: nat, all: set<Region>)
    requires Spent(v0, v1, n, a, false) && v1.spare < Cost(v1, 1, b) && n < total && a + b <= all
    ensures v0.spare < Cost(v0, total, all)
  {
    var k := v0.tree.tables.Keys;
    CostSum(k, a, b);
    SubsetSize((a + b) - k, all - k);
  }

  lemma SpentEnough(v: Snapshot, v': Snapshot, n: nat, needed: set<Region>)
    requires Spent(v, v', n, needed, true)
    ensures v.spare >= Cost(v, n, needed)
  {
  }

  lemma SpentSame(v0: Snapshot, v1: Snapshot, v2: Snapshot, n: nat, needed: set<Region>, exact: bool)
    requires Spent(v0, v1, n, needed, exact) && v2.tree == v1.tree && v2.spare == v1.spare
    ensures Spent(v0, v2, n, needed, exact)
  {
  }

  lemma SpentLoosely(v: Snapshot, v': Snapshot, n: nat, needed: set<Region>, exact: bool, weaker: bool)
    requires Spent(v, v', n, needed, exact) && (weaker ==> exact)
    ensures Spent(v, v', n, needed, weaker)
  {
  }

  /** A page allocated and then mapped: it costs one frame and the missing tables, less what it displaces. */
  lemma PageSpent(v0: Snapshot, v1: Snapshot, v2: Snapshot, root: nat, va: nat, page: nat, perm: nat)
    requires v1.tree == v0.tree && v1.spare + 1 == v0.spare && v0.tree.WellFormed()
    requires var r := Target(root, va, false);
      Mapped(v1, r, page, perm, v2) && TablesAdded(v1.tree, v2.tree, PathTo(root, va))
    ensures Spent(v0, v2, 1, PathTo(root, va), Target(root, va, false) !in v0.tree.Leaves())
  {
    hide PathTo;
    var r, k, path := Target(root, va, false), v0.tree.tables.Keys, PathTo(root, va);
    assert v0.tree.EntryOk(r);
    assert r !in v0.tree.Leaves() ==> r !in v0.tree.entries;
    assert k + path == k + (path - k);
    assert |v2.tree.tables.Keys| == |v2.tree.tables| && |k| == |v0.tree.tables|;
  }

  /** It is the page's own address space that has grown, and no other. */
  lemma PageClean(v0: Snapshot, v1: Snapshot, v2: Snapshot, root: nat, va: nat, page: nat, perm: nat)
    requires v1.tree == v0.tree && Node(page, false) !in v0.owned
    requires v1.tree.Unused(v1.owned) == v0.tree.Unused(v0.owned) + {Node(page, false)}
    requires v2.tree.Unused(v2.owned) == v1.tree.Unused(v1.owned) - {Node(page, false)}
    requires var r := Target(root, va, false);
      Mapped(v1, r, page, perm, v2) && TablesAdded(v1.tree, v2.tree, PathTo(root, va))
    ensures Clean(v0, v2, root)
  {
    hide PathTo, TablesAdded, Tree.Unused, Tree.Leaves, Displaced, DisplacedSpan, OthersKept;
    UnusedIsOwned(v0.tree, v0.owned, Node(page, false));
    PageKeepsOthers(v1.tree, v2.tree, root, va, Target(root, va, false), Entry(page, perm, Huge(perm)));
  }

  lemma PageKeepsOthers(t: Tree, t': Tree, root: nat, va: nat, r: Region, e: Entry)
    requires TablesAdded(t, t', PathTo(root, va)) && t'.fixed == t.fixed && t'.Leaves() == t.Leaves()[r := e]
    requires r.root == root
    ensures OthersKept(t, t', root)
  {
    PathIsOwn(root, va);
    hide PathTo, Tree.Leaves;
  }
}
