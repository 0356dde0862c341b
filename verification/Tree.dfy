/** Page-table trees as values: which region of an address space has a table, which has an
    entry, and who points to which frame. */
module Tree {
  import opened Paging
  import opened FreeList

  /** A naturally aligned part of the address space with the given root table: a page (level 0),
      or the part one entry of a page directory (1), of a page directory pointer table (2) or of
      the root (3) spans, or all of it (4). */
  datatype Region = Region(root: nat, level: nat, index: nat) {
    function Parent(): Region { Region(root, level + 1, index / 512) }
    /** The place of the region's entry in the table of its parent. */
    function Slot(): nat { index % 512 }
    function Child(i: nat): Region
      requires level > 0
    {
      Region(root, level - 1, index * 512 + i)
    }
  }

  /** The region of the given level that page `vpn` lies in. */
  function RegionAt(root: nat, vpn: nat, level: nat): Region
    requires level <= 4
  {
    Region(root, level,
      if level == 0 then vpn
      else if level == 1 then vpn / 512
      else if level == 2 then vpn / 512 / 512
      else if level == 3 then vpn / 512 / 512 / 512
      else vpn / 512 / 512 / 512 / 512)
  }

  /** A present entry, decoded: the frame it refers to and the permissions it was written with. */
  datatype Entry = Entry(frame: nat, perm: nat, huge: bool)

  /** `tables` gives the frame that holds the table of a region, `entries` the present entry of a
      region. Entries in `fixed` are static mappings, and roots in `fixed` are tables in boot memory; neither
      is reference counted. */
  datatype Tree = Tree(tables: map<Region, nat>, entries: map<Region, Entry>, fixed: set<Region>) {
    ghost predicate IsLeaf(r: Region) {
      r in entries && r !in tables
    }

    ghost predicate Points(r: Region, f: nat) {
      || (r in entries && r !in fixed && entries[r].frame == f)
      || (r in tables && r.level == 4 && tables[r] == f)
    }

    /** Everything that refers to a frame: entries, and being a root. */
    ghost function Refs(f: nat): set<Region> {
      set r | r in entries.Keys + tables.Keys && Points(r, f)
    }

    /** Of the references to a frame one is not counted when it holds a root in boot memory. */
    ghost function Uncounted(f: nat): nat {
      if Region(f, 4, 0) in fixed then 1 else 0
    }

    ghost predicate TableOk(r: Region) {
      r in tables ==>
        && 1 <= r.level <= 4
        && (r.level == 4 ==> r.index == 0 && tables[r] == r.root)
        && (r.level < 4 ==> r in entries && r !in fixed && entries[r].frame == tables[r])
    }

    ghost predicate EntryOk(r: Region) {
      r in entries ==>
        && r.level <= 3
        && r.Parent() in tables
        && (r.level >= 2 ==> !entries[r].huge)
        && (r in tables <==> r.level >= 1 && !entries[r].huge)
    }

    /** Every table hangs in the entry of its region or is a root, every entry lies in a table, and
        the entries that are not leaves are those that link a table. */
    ghost predicate WellFormed() {
      && (forall r {:trigger TableOk(r)} :: TableOk(r))
      && (forall r {:trigger EntryOk(r)} :: EntryOk(r))
      && (forall r :: r in fixed ==> IsLeaf(r) || (r in tables && r.level == 4))
    }

    /** The allocated blocks that no table and no entry refers to. */
    ghost function Unused(owned: set<Node>): set<Node> {
      set nd | nd in owned && Refs(nd.frame) == {}
    }

    /** A table frame is referred to by its own entry and by nothing else. */
    ghost predicate Unaliased() {
      forall r, s :: r in tables && Points(s, tables[r]) ==> s == r
    }

    /** Tables and mapped frames are allocated blocks of the right size. */
    ghost predicate Held(owned: set<Node>) {
      && (forall r :: r in tables ==> Node(tables[r], false) in owned)
      && (forall r :: IsLeaf(r) && r !in fixed ==> Node(entries[r].frame, r.level == 1) in owned)
    }

    ghost predicate Sound(owned: set<Node>) {
      WellFormed() && Unaliased() && Held(owned)
    }

    /** The flat view: the present leaf entries. */
    ghost function Leaves(): map<Region, Entry> {
      map r | r in entries && r !in tables :: entries[r]
    }

    /** The leaf region that maps a page. */
    ghost function LeafOf(root: nat, vpn: nat): Option<Region> {
      if IsLeaf(RegionAt(root, vpn, 1)) then Some(RegionAt(root, vpn, 1))
      else if IsLeaf(RegionAt(root, vpn, 0)) then Some(RegionAt(root, vpn, 0))
      else None
    }

    // ---- Single steps ----

    /** Links an empty table into the entry of a region. */
    ghost function AddTable(r: Region, f: nat, e: Entry): Tree {
      this.(tables := tables[r := f], entries := entries[r := e])
    }

    ghost function AddRoot(f: nat): Tree {
      this.(tables := tables[Region(f, 4, 0) := f])
    }

    /** A root table in boot memory, not reference counted. */
    ghost function AddFixedRoot(f: nat): Tree {
      AddRoot(f).(fixed := fixed + {Region(f, 4, 0)})
    }

    ghost function AddLeaf(r: Region, e: Entry): Tree {
      this.(entries := entries[r := e])
    }

    /** A static mapping, not reference counted. */
    ghost function AddFixed(r: Region, e: Entry): Tree {
      this.(entries := entries[r := e], fixed := fixed + {r})
    }

    ghost function RemoveLeaf(r: Region): Tree {
      this.(entries := entries - {r})
    }

    /** Removes a table together with the entry that links it. */
    ghost function RemoveTable(r: Region): Tree {
      this.(tables := tables - {r}, entries := entries - {r})
    }
  }

  lemma ParentChild(r: Region, s: Region, i: nat)
    requires r.level > 0 && i < 512
    ensures r.Child(i) == s <==> r == s.Parent() && i == s.Slot()
  {
  }

  lemma PathRegions(root: nat, vpn: nat)
    requires vpn < FRAME_LIMIT
    ensures RegionAt(root, vpn, 4) == Region(root, 4, 0)
    ensures forall l :: 0 <= l < 4 ==> RegionAt(root, vpn, l).Parent() == RegionAt(root, vpn, l + 1)
  {
  }

  /** A table is never inside a huge mapping, so a page is mapped by at most one leaf. */
  lemma LeafUnique(t: Tree, root: nat, vpn: nat)
    requires t.WellFormed()
    ensures !(t.IsLeaf(RegionAt(root, vpn, 1)) && t.IsLeaf(RegionAt(root, vpn, 0)))
  {
    assert RegionAt(root, vpn, 0).Parent() == RegionAt(root, vpn, 1);
    assert t.EntryOk(RegionAt(root, vpn, 0));
  }

  /** Every table is pointed to by its own region. */
  lemma TablePoints(t: Tree, r: Region)
    requires t.WellFormed() && r in t.tables
    ensures t.Points(r, t.tables[r])
  {
    assert t.TableOk(r);
  }

  lemma TablesInjective(t: Tree, r: Region, s: Region)
    requires t.WellFormed() && t.Unaliased() && r in t.tables && s in t.tables && t.tables[r] == t.tables[s]
    ensures r == s
  {
    TablePoints(t, r);
  }

  /** The blocks that hold the tables of the given regions. */
  ghost function TableNodes(t: Tree, regions: set<Region>): set<Node>
    requires regions <= t.tables.Keys
  {
    set r | r in regions :: Node(t.tables[r], false)
  }

  lemma {:induction false} TableCount(t: Tree, regions: set<Region>)
    requires t.WellFormed() && t.Unaliased() && regions <= t.tables.Keys
    ensures |TableNodes(t, regions)| == |regions|
    decreases |regions|
  {
    if regions != {} {
      var r :| r in regions;
      var rest := regions - {r};
      TableCount(t, rest);
      assert TableNodes(t, regions) == TableNodes(t, rest) + {Node(t.tables[r], false)};
      forall s | s in rest ensures t.tables[s] != t.tables[r] {
        if t.tables[s] == t.tables[r] {
          TablesInjective(t, r, s);
        }
      }
    }
  }

  /** When all mappings are static, an allocated block holds a table or is unused. */
  lemma OwnedAreTables(t: Tree, n: nat, free: seq<Node>, owned: set<Node>)
    requires Partition(n, free, owned) && t.Sound(owned) && forall r :: r in t.Leaves() ==> r in t.fixed
    ensures owned == t.Unused(owned) + TableNodes(t, t.tables.Keys) && t.Unused(owned) !! TableNodes(t, t.tables.Keys)
  {
    var held := TableNodes(t, t.tables.Keys);
    forall nd | nd in owned && t.Refs(nd.frame) != {} ensures nd in held {
      var r :| r in t.Refs(nd.frame);
      assert t.TableOk(r) && t.EntryOk(r);
      assert r in t.tables || r in t.Leaves();
      var table := Node(nd.frame, false);
      assert r in t.tables && t.tables[r] == nd.frame && table in owned;
      assert IsBlock(free, owned, table) && IsBlock(free, owned, nd) && !table.Apart(nd);
    }
    forall r | r in t.tables ensures Node(t.tables[r], false) in owned && r in t.Refs(t.tables[r]) {
      TablePoints(t, r);
    }
  }

  lemma NoRefs(t: Tree, f: nat)
    requires |t.Refs(f)| == 0
    ensures forall r :: !t.Points(r, f)
  {
    assert t.Refs(f) == {};
    forall r ensures !t.Points(r, f) {
      assert r !in t.Refs(f);
    }
  }

  // ---- Effect of each step ----

  lemma RefsGrow(t: Tree, t': Tree, r: Region, f: nat)
    requires forall s, g :: t'.Points(s, g) <==> t.Points(s, g) || (s == r && g == f)
    ensures t'.Refs(f) == t.Refs(f) + {r}
    ensures forall g :: g != f ==> t'.Refs(g) == t.Refs(g)
  {
    forall g ensures t'.Refs(g) == if g == f then t.Refs(f) + {r} else t.Refs(g) {
      assert forall s :: s in t'.Refs(g) <==> t'.Points(s, g);
      assert forall s :: s in t.Refs(g) <==> t.Points(s, g);
    }
  }

  lemma RefsShrink(t: Tree, t': Tree, r: Region, f: nat)
    requires forall s, g :: t'.Points(s, g) <==> t.Points(s, g) && !(s == r && g == f)
    ensures t'.Refs(f) == t.Refs(f) - {r}
    ensures forall g :: g != f ==> t'.Refs(g) == t.Refs(g)
  {
    forall g ensures t'.Refs(g) == if g == f then t.Refs(f) - {r} else t.Refs(g) {
      assert forall s :: s in t'.Refs(g) <==> t'.Points(s, g);
      assert forall s :: s in t.Refs(g) <==> t.Points(s, g);
    }
  }

  lemma AddTablePoints(t: Tree, r: Region, f: nat, e: Entry)
    requires t.WellFormed() && r !in t.entries && 1 <= r.level <= 3 && e.frame == f
    ensures r !in t.tables && r !in t.fixed
    ensures forall s, g :: t.AddTable(r, f, e).Points(s, g) <==> t.Points(s, g) || (s == r && g == f)
    ensures t.AddTable(r, f, e).Leaves() == t.Leaves()
  {
    assert t.TableOk(r);
  }

  lemma AddTableWellFormed(t: Tree, r: Region, f: nat, e: Entry)
    requires t.WellFormed() && r !in t.entries && 1 <= r.level <= 3 && r.Parent() in t.tables
    requires e.frame == f && !e.huge
    ensures t.AddTable(r, f, e).WellFormed()
  {
    var t' := t.AddTable(r, f, e);
    AddTablePoints(t, r, f, e);
    forall s ensures t'.TableOk(s) {
      assert t.TableOk(s);
    }
    forall s ensures t'.EntryOk(s) {
      assert t.EntryOk(s);
    }
  }

  /** Linking an empty table held in a frame nobody points to. */
  lemma AddTableSound(t: Tree, r: Region, f: nat, e: Entry, owned: set<Node>)
    requires t.Sound(owned) && r !in t.entries && 1 <= r.level <= 3 && r.Parent() in t.tables
    requires forall s :: !t.Points(s, f)
    requires e.frame == f && !e.huge && Node(f, false) in owned
    ensures t.AddTable(r, f, e).Sound(owned)
  {
    var t' := t.AddTable(r, f, e);
    AddTablePoints(t, r, f, e);
    AddTableWellFormed(t, r, f, e);
    forall p, s | p in t'.tables && t'.Points(s, t'.tables[p]) ensures s == p {
      assert t.Points(s, t'.tables[p]) || (s == r && t'.tables[p] == f);
      if p != r {
        TablePoints(t, p);
      }
    }
  }

  lemma AddRootPoints(t: Tree, f: nat)
    requires t.WellFormed() && forall s :: !t.Points(s, f)
    ensures Region(f, 4, 0) !in t.tables && Region(f, 4, 0) !in t.entries && Region(f, 4, 0) !in t.fixed
    ensures forall s, g :: t.AddRoot(f).Points(s, g) <==> t.Points(s, g) || (s == Region(f, 4, 0) && g == f)
    ensures t.AddRoot(f).Leaves() == t.Leaves()
  {
    assert t.TableOk(Region(f, 4, 0)) && t.EntryOk(Region(f, 4, 0));
    assert Region(f, 4, 0) in t.tables ==> t.Points(Region(f, 4, 0), f);
  }

  /** A new empty root table in a frame nobody points to. */
  lemma AddRootSound(t: Tree, f: nat, owned: set<Node>)
    requires t.Sound(owned) && (forall s :: !t.Points(s, f)) && Node(f, false) in owned
    ensures t.AddRoot(f).Sound(owned)
  {
    var t' := t.AddRoot(f);
    AddRootPoints(t, f);
    forall s | s in t'.fixed ensures t'.IsLeaf(s) || (s in t'.tables && s.level == 4) {
      assert t.IsLeaf(s) || (s in t.tables && s.level == 4);
    }
    forall s ensures t'.TableOk(s) {
      assert t.TableOk(s);
    }
    forall s ensures t'.EntryOk(s) {
      assert t.EntryOk(s);
    }
    forall p, s | p in t'.tables && t'.Points(s, t'.tables[p]) ensures s == p {
      assert t.Points(s, t'.tables[p]) || (s == Region(f, 4, 0) && t'.tables[p] == f);
      if p != Region(f, 4, 0) {
        TablePoints(t, p);
      }
    }
    forall s | t'.IsLeaf(s) && s !in t'.fixed ensures Node(t'.entries[s].frame, s.level == 1) in owned {
      assert t.IsLeaf(s);
    }
  }

  /** The same, without counting. */
  lemma AddFixedRootSound(t: Tree, f: nat, owned: set<Node>)
    requires t.Sound(owned) && (forall s :: !t.Points(s, f)) && Node(f, false) in owned
    ensures t.AddFixedRoot(f).Sound(owned)
    ensures forall g :: t.AddFixedRoot(f).Refs(g) == t.AddRoot(f).Refs(g)
    ensures t.AddFixedRoot(f).Leaves() == t.Leaves()
  {
    var t', t1 := t.AddFixedRoot(f), t.AddRoot(f);
    AddRootSound(t, f, owned);
    AddRootPoints(t, f);
    forall s, g ensures t'.Points(s, g) <==> t1.Points(s, g) {
    }
    forall s ensures t'.TableOk(s) && t'.EntryOk(s) {
      assert t1.TableOk(s) && t1.EntryOk(s);
    }
    forall s | t'.IsLeaf(s) && s !in t'.fixed ensures Node(t'.entries[s].frame, s.level == 1) in owned {
      assert t1.IsLeaf(s);
    }
  }

  lemma AddLeafPoints(t: Tree, r: Region, e: Entry)
    requires t.WellFormed() && r !in t.entries && r.level <= 1
    ensures r !in t.tables && r !in t.fixed
    ensures forall s, g :: t.AddLeaf(r, e).Points(s, g) <==> t.Points(s, g) || (s == r && g == e.frame)
    ensures t.AddLeaf(r, e).Leaves() == t.Leaves()[r := e]
  {
    assert t.TableOk(r);
  }

  /** Mapping an allocated frame that holds no table. */
  lemma AddLeafSound(t: Tree, r: Region, e: Entry, owned: set<Node>)
    requires t.Sound(owned) && r !in t.entries && r.level <= 1 && r.Parent() in t.tables
    requires r.level == 1 ==> e.huge
    requires forall p :: p in t.tables ==> t.tables[p] != e.frame
    requires Node(e.frame, r.level == 1) in owned
    ensures t.AddLeaf(r, e).Sound(owned)
  {
    var t' := t.AddLeaf(r, e);
    AddLeafPoints(t, r, e);
    forall s ensures t'.TableOk(s) {
      assert t.TableOk(s);
    }
    forall s ensures t'.EntryOk(s) {
      assert t.EntryOk(s);
    }
    forall p, s | p in t'.tables && t'.Points(s, t'.tables[p]) ensures s == p {
      assert t.Points(s, t'.tables[p]);
    }
    forall s | t'.IsLeaf(s) && s !in t'.fixed ensures Node(t'.entries[s].frame, s.level == 1) in owned {
      assert s != r ==> t.IsLeaf(s);
    }
  }

  lemma AddFixedPoints(t: Tree, r: Region, e: Entry)
    requires t.WellFormed() && (r in t.entries ==> r in t.fixed) && r.level == 0
    ensures r !in t.tables
    ensures forall s, g :: t.AddFixed(r, e).Points(s, g) <==> t.Points(s, g)
    ensures t.AddFixed(r, e).Leaves() == t.Leaves()[r := e]
  {
    assert t.TableOk(r);
  }

  /** Writing a static mapping over nothing or over another static mapping. */
  lemma AddFixedSound(t: Tree, r: Region, e: Entry, owned: set<Node>)
    requires t.Sound(owned) && (r in t.entries ==> r in t.fixed) && r.level == 0 && r.Parent() in t.tables
    ensures t.AddFixed(r, e).Sound(owned)
  {
    var t' := t.AddFixed(r, e);
    AddFixedPoints(t, r, e);
    forall s ensures t'.TableOk(s) {
      assert t.TableOk(s);
    }
    forall s ensures t'.EntryOk(s) {
      assert t.EntryOk(s);
    }
    forall p, s | p in t'.tables && t'.Points(s, t'.tables[p]) ensures s == p {
      assert t.Points(s, t'.tables[p]);
    }
    forall s | t'.IsLeaf(s) && s !in t'.fixed ensures Node(t'.entries[s].frame, s.level == 1) in owned {
      assert t.IsLeaf(s);
    }
  }

  lemma RemoveLeafPoints(t: Tree, r: Region)
    requires t.WellFormed() && t.IsLeaf(r) && r !in t.fixed
    ensures var f := t.entries[r].frame;
      forall s, g :: t.RemoveLeaf(r).Points(s, g) <==> t.Points(s, g) && !(s == r && g == f)
    ensures t.RemoveLeaf(r).Leaves() == t.Leaves() - {r}
  {
  }

  /** Unmapping a leaf. */
  lemma RemoveLeafSound(t: Tree, r: Region, owned: set<Node>)
    requires t.Sound(owned) && t.IsLeaf(r) && r !in t.fixed
    ensures t.RemoveLeaf(r).Sound(owned)
  {
    var t' := t.RemoveLeaf(r);
    RemoveLeafPoints(t, r);
    forall s ensures t'.TableOk(s) {
      assert t.TableOk(s);
    }
    forall s ensures t'.EntryOk(s) {
      assert t.EntryOk(s);
    }
    forall p, s | p in t'.tables && t'.Points(s, t'.tables[p]) ensures s == p {
      assert t.Points(s, t'.tables[p]);
    }
    forall s | t'.IsLeaf(s) && s !in t'.fixed ensures Node(t'.entries[s].frame, s.level == 1) in owned {
      assert t.IsLeaf(s);
    }
  }

  /** A block nobody points to can be given up. */
  lemma DisownSound(t: Tree, owned: set<Node>, nd: Node)
    requires t.Sound(owned) && forall s :: !t.Points(s, nd.frame)
    ensures t.Sound(owned - {nd})
  {
    forall r | r in t.tables ensures Node(t.tables[r], false) in owned - {nd} {
      TablePoints(t, r);
    }
    forall r | t.IsLeaf(r) && r !in t.fixed ensures Node(t.entries[r].frame, r.level == 1) in owned - {nd} {
      assert t.Points(r, t.entries[r].frame);
    }
  }

  lemma OwnMoreSound(t: Tree, owned: set<Node>, more: set<Node>)
    requires t.Sound(owned) && owned <= more
    ensures t.Sound(more)
  {
  }

  // ---- Subtrees ----

  /** Region s is r or lies below it. */
  predicate Under(s: Region, r: Region)
    decreases r.level - s.level
  {
    s == r || (s.level < r.level && Under(s.Parent(), r))
  }

  /** The slot in the table of r on the way to a region below. */
  function TopSlot(s: Region, r: Region): nat
    requires s.level < r.level
    decreases r.level - s.level
  {
    if s.level + 1 == r.level then s.Slot() else TopSlot(s.Parent(), r)
  }

  /** Region s lies below r, behind one of the first i slots of its table. */
  predicate BelowSlots(s: Region, r: Region, i: nat) {
    s.level < r.level && Under(s, r) && TopSlot(s, r) < i
  }

  lemma {:induction false} UnderChild(s: Region, r: Region, i: nat)
    requires r.level > 0 && i < 512
    ensures Under(s, r.Child(i)) <==> s.level < r.level && Under(s, r) && TopSlot(s, r) == i
    decreases r.level - s.level
  {
    if s.level < r.level {
      if s.level + 1 == r.level {
        ParentChild(r, s, i);
        assert Under(s, r.Child(i)) <==> s == r.Child(i);
        assert Under(s, r) <==> Under(s.Parent(), r);
        assert Under(s.Parent(), r) <==> s.Parent() == r;
      } else {
        UnderChild(s.Parent(), r, i);
      }
    }
  }

  lemma {:induction false} TopSlotBounded(s: Region, r: Region)
    requires s.level < r.level
    ensures TopSlot(s, r) < 512
    decreases r.level - s.level
  {
    if s.level + 1 < r.level {
      TopSlotBounded(s.Parent(), r);
    }
  }

  /** One more slot adds exactly the subtree behind it. */
  lemma NextSlot(s: Region, r: Region, i: nat)
    requires r.level > 0 && i < 512
    ensures BelowSlots(s, r, i + 1) <==> BelowSlots(s, r, i) || Under(s, r.Child(i))
  {
    UnderChild(s, r, i);
  }

  lemma AllSlots(s: Region, r: Region, i: nat)
    requires i >= 512
    ensures Under(s, r) <==> s == r || BelowSlots(s, r, i)
  {
    if s.level < r.level {
      TopSlotBounded(s, r);
    }
  }

  /** `t'` is `t` without what lies below r behind its first i slots. */
  ghost predicate PrunedSlots(t: Tree, t': Tree, r: Region, i: nat) {
    && t'.fixed == t.fixed
    && (forall s :: s in t'.tables <==> s in t.tables && !BelowSlots(s, r, i))
    && (forall s :: s in t'.tables ==> t'.tables[s] == t.tables[s])
    && (forall s :: s in t'.entries <==> s in t.entries && !BelowSlots(s, r, i))
    && (forall s :: s in t'.entries ==> t'.entries[s] == t.entries[s])
  }

  /** `t'` is `t` without r and all that lies below it. */
  ghost predicate PrunedTree(t: Tree, t': Tree, r: Region) {
    && t'.fixed == t.fixed
    && (forall s :: s in t'.tables <==> s in t.tables && !Under(s, r))
    && (forall s :: s in t'.tables ==> t'.tables[s] == t.tables[s])
    && (forall s :: s in t'.entries <==> s in t.entries && !Under(s, r))
    && (forall s :: s in t'.entries ==> t'.entries[s] == t.entries[s])
  }

  lemma PruneSkip(t0: Tree, t: Tree, r: Region, i: nat)
    requires PrunedSlots(t0, t, r, i) && 0 < r.level <= 4 && i < 512 && t.WellFormed()
    requires r.Child(i) !in t.entries
    ensures PrunedSlots(t0, t, r, i + 1)
  {
    var c := r.Child(i);
    forall s ensures s in t.entries || s in t.tables ==> !Under(s, c) {
      if s in t.entries || s in t.tables {
        NothingUnder(t, s, c);
      }
    }
    forall s ensures BelowSlots(s, r, i + 1) <==> BelowSlots(s, r, i) || Under(s, c) {
      NextSlot(s, r, i);
    }
  }

  lemma {:induction false} PruneRest(t0: Tree, t: Tree, r: Region, i: nat)
    requires PrunedSlots(t0, t, r, i) && 0 < r.level <= 4 && i <= 512 && t.WellFormed()
    requires forall j :: i <= j < 512 ==> r.Child(j) !in t.entries
    ensures PrunedSlots(t0, t, r, 512)
    decreases 512 - i
  {
    if i < 512 {
      PruneSkip(t0, t, r, i);
      PruneRest(t0, t, r, i + 1);
    }
  }

  /** Without an entry for a region below the root there is nothing in it. */
  lemma {:induction false} NothingUnder(t: Tree, s: Region, c: Region)
    requires t.WellFormed() && c !in t.entries && c.level < 4
    ensures s in t.entries || s in t.tables ==> !Under(s, c)
    decreases c.level - s.level
  {
    assert t.EntryOk(s) && t.TableOk(s);
    if s.level < c.level {
      NothingUnder(t, s.Parent(), c);
    }
  }

  lemma PruneStep(t0: Tree, t: Tree, t': Tree, r: Region, i: nat)
    requires PrunedSlots(t0, t, r, i) && r.level > 0 && i < 512 && PrunedTree(t, t', r.Child(i))
    ensures PrunedSlots(t0, t', r, i + 1)
  {
    forall s ensures BelowSlots(s, r, i + 1) <==> BelowSlots(s, r, i) || Under(s, r.Child(i)) {
      NextSlot(s, r, i);
    }
  }

  /** Removing a leaf page prunes its region. */
  lemma PruneLeaf(t: Tree, c: Region)
    requires t.WellFormed() && c.level == 0 && c in t.entries
    ensures PrunedTree(t, t.RemoveLeaf(c), c)
  {
    forall s ensures (s in t.tables ==> s != c) && (Under(s, c) <==> s == c) {
      assert t.TableOk(s);
    }
  }

  lemma PruneRoot(t0: Tree, t: Tree, r: Region, i: nat)
    requires PrunedSlots(t0, t, r, i) && i >= 512
    ensures PrunedTree(t0, t.RemoveTable(r), r) && t.fixed == t0.fixed
    ensures forall s :: s in t.entries ==> s.level >= r.level || s.Parent() != r
  {
    forall s ensures Under(s, r) <==> s == r || BelowSlots(s, r, i) {
      AllSlots(s, r, i);
    }
    forall s | s in t.entries ensures s.level >= r.level || s.Parent() != r {
      assert Under(s.Parent(), r) <==> s.Parent() == r || BelowSlots(s.Parent(), r, i);
    }
  }

  /** The regions a page lies in are nested. */
  lemma PathUnder(root: nat, vpn: nat)
    requires vpn < FRAME_LIMIT
    ensures var r3, r2 := RegionAt(root, vpn, 3), RegionAt(root, vpn, 2);
      var r1, r0 := RegionAt(root, vpn, 1), RegionAt(root, vpn, 0);
      && r0.Parent() == r1 && r1.Parent() == r2 && r2.Parent() == r3 && r3.Parent() == Region(root, 4, 0)
      && Under(r2, r3) && Under(r1, r3) && Under(r0, r3) && Under(r1, r2) && Under(r0, r2) && Under(r0, r1)
  {
    var r3, r2 := RegionAt(root, vpn, 3), RegionAt(root, vpn, 2);
    var r1, r0 := RegionAt(root, vpn, 1), RegionAt(root, vpn, 0);
    PathRegions(root, vpn);
    assert r0.Parent() == r1 && r1.Parent() == r2 && r2.Parent() == r3;
    assert Under(r3, r3) && Under(r2, r2) && Under(r1, r1);
    assert Under(r2, r3) && Under(r1, r2) && Under(r0, r1);
    assert Under(r1, r3) && Under(r0, r2);
    assert Under(r0, r3);
  }

  /** Everything in an address space hangs below its root. */
  lemma {:induction false} UnderRoot(t: Tree, s: Region)
    requires t.WellFormed() && (s in t.tables || s in t.entries)
    ensures Under(s, Region(s.root, 4, 0))
    decreases 4 - s.level
  {
    assert t.TableOk(s) && t.EntryOk(s);
    if s.level < 4 {
      UnderRoot(t, s.Parent());
      UnderParent(s, Region(s.root, 4, 0));
    }
  }

  lemma {:induction false} UnderParent(s: Region, r: Region)
    requires s.level < r.level && Under(s.Parent(), r)
    ensures Under(s, r)
  {
  }

  /** Regions below r belong to its address space. */
  lemma {:induction false} UnderSameRoot(s: Region, r: Region)
    requires Under(s, r)
    ensures s.root == r.root
    decreases r.level - s.level
  {
    if s != r {
      UnderSameRoot(s.Parent(), r);
    }
  }

  lemma RemoveTablePoints(t: Tree, r: Region)
    requires t.WellFormed() && t.Unaliased() && r in t.tables && r !in t.fixed
    ensures t.Refs(t.tables[r]) == {r} && t.Uncounted(t.tables[r]) == 0
    ensures var f := t.tables[r];
      forall s, g :: t.RemoveTable(r).Points(s, g) <==> t.Points(s, g) && !(s == r && g == f)
  {
    assert t.TableOk(r) && t.EntryOk(r);
    TablePoints(t, r);
    var f := t.tables[r];
    forall s ensures s in t.Refs(f) <==> s == r {
      assert s in t.Refs(f) <==> t.Points(s, f);
    }
    if Region(f, 4, 0) in t.fixed {
      FixedRootIsAlone(t, f, r);
    }
  }

  /** The frame of an uncounted root is referred to by nothing else. */
  lemma FixedRootIsAlone(t: Tree, f: nat, s: Region)
    requires t.WellFormed() && t.Unaliased() && Region(f, 4, 0) in t.fixed && t.Points(s, f)
    ensures s == Region(f, 4, 0) && s in t.tables
  {
    assert t.EntryOk(Region(f, 4, 0)) && t.TableOk(Region(f, 4, 0));
  }

  /** Unlinking a table that has no entries left. */
  lemma RemoveTableSound(t: Tree, r: Region, owned: set<Node>)
    requires t.Sound(owned) && r in t.tables && r !in t.fixed && forall s :: s in t.entries ==> s.Parent() != r
    ensures t.RemoveTable(r).Sound(owned)
  {
    var t' := t.RemoveTable(r);
    RemoveTablePoints(t, r);
    forall s ensures t'.TableOk(s) {
      assert t.TableOk(s);
    }
    forall s ensures t'.EntryOk(s) {
      assert t.EntryOk(s);
    }
    forall p, s | p in t'.tables && t'.Points(s, t'.tables[p]) ensures s == p {
      assert t.Points(s, t'.tables[p]);
    }
    forall s | t'.IsLeaf(s) && s !in t'.fixed ensures Node(t'.entries[s].frame, s.level == 1) in owned {
      assert t.IsLeaf(s);
    }
  }
}
