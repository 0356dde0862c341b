/** Four-level page tables stored in the frames the allocator hands out. */
module PageTables {
  import opened FreeList
  import opened Paging
  import opened Bits
  import opened Frames
  import opened Tree

  /** Permissions of an entry that links a table. */
  const LINK_PERM: nat := 6

  const E_NO_MEM: int := 4

  datatype Create = Lookup | CreateNormal | CreateHuge

  // ---- The tree as it lies in memory ----

  /** Where the entry of a region lies: its table's frame and its slot, as a word index. */
  ghost function CellOf(t: Tree, r: Region): nat
    requires r.Parent() in t.tables
  {
    t.tables[r.Parent()] * TABLE_ENTRIES + r.Slot()
  }

  ghost function WordOf(t: Tree, r: Region): nat {
    if r in t.entries then MakeEntry(t.entries[r].frame, t.entries[r].perm) else 0
  }

  /** An entry that an address word can hold. */
  ghost predicate Encodable(e: Entry) {
    e.frame < FRAME_LIMIT && IsPerm(e.perm) && (e.huge <==> Huge(e.perm))
  }

  /** All entries fit their words, and those that link tables grant everything. */
  ghost predicate AllEncodable(t: Tree) {
    && (forall r :: r in t.entries ==> Encodable(t.entries[r]))
    && (forall r :: r in t.entries && r in t.tables ==> t.entries[r].perm == LINK_PERM)
  }

  /** The word of a region's entry in memory. */
  ghost predicate Cell(ws: seq<nat>, t: Tree, r: Region) {
    r.Parent() in t.tables && r.level < 4 ==>
      CellOf(t, r) < |ws| && ws[CellOf(t, r)] == WordOf(t, r)
  }

  /** Memory holds the tree; entries in `stale` have been given up but not overwritten. */
  ghost predicate InMemory(ws: seq<nat>, t: Tree, stale: set<Region>) {
    forall r {:trigger Cell(ws, t, r)} :: r !in stale ==> Cell(ws, t, r)
  }

  /** Reference counts are exact, but for the roots in boot memory. */
  ghost predicate Counted(ps: seq<PageInfo>, t: Tree) {
    forall f :: 0 <= f < |ps| ==> ps[f].ppRef + t.Uncounted(f) == |t.Refs(f)|
  }

  lemma EntryWords(t: Tree, r: Region)
    requires AllEncodable(t) && r in t.entries
    ensures var w := WordOf(t, r);
      && Present(w) && w != 0
      && (Huge(w) <==> t.entries[r].huge)
      && FrameOf(w) == t.entries[r].frame
      && Flags(w) == Or(t.entries[r].perm, PAGE_PRESENT)
  {
    EntryRoundTrip(t.entries[r].frame, t.entries[r].perm);
  }

  lemma NoEntryWord()
    ensures !Present(0) && !Huge(0)
  {
  }

  /** Different entries lie in different words. */
  lemma CellsDistinct(t: Tree, r: Region, s: Region)
    requires t.WellFormed() && t.Unaliased() && r.Parent() in t.tables && s.Parent() in t.tables
    requires CellOf(t, r) == CellOf(t, s)
    ensures r == s
  {
    assert t.tables[r.Parent()] == t.tables[s.Parent()] && r.Slot() == s.Slot();
    TablesInjective(t, r.Parent(), s.Parent());
  }

  lemma LinkWord(page: nat)
    requires page < FRAME_LIMIT
    ensures Or(Or(Or(Page2Pa(page), PAGE_PRESENT), PAGE_USER), PAGE_WRITE) == MakeEntry(page, LINK_PERM)
    ensures Encodable(Entry(page, LINK_PERM, false))
  {
    var pa := Page2Pa(page);
    OrAssociates(Or(pa, 1), 4, 2);
    OrAssociates(pa, 1, 6);
    OrCommutes(1, 6);
    OrAssociates(pa, 6, 1);
    assert Or(4, 2) == 6 by { OrStep(4, 2); OrStep(2, 1); }
    LowBitsArePerm(LINK_PERM);
    assert And(LINK_PERM, PAGE_HUGE) == 0 by {
      AndHalf(6, 128); AndHalf(3, 64); AndHalf(1, 32);
    }
  }

  // ---- Effect of tree steps on memory ----

  /** Writing the word of one entry that is added, changed or removed. */
  lemma WriteCell(ws: seq<nat>, t: Tree, t': Tree, stale: set<Region>, r: Region, ws': seq<nat>)
    requires t.WellFormed() && t.Unaliased() && InMemory(ws, t, stale)
    requires r.Parent() in t.tables && r.level < 4 && CellOf(t, r) < |ws|
    requires t'.tables == t.tables
    requires forall s :: s != r ==> WordOf(t', s) == WordOf(t, s)
    requires ws' == ws[CellOf(t, r) := WordOf(t', r)]
    ensures InMemory(ws', t', stale)
  {
    forall s | s !in stale ensures Cell(ws', t', s) {
      assert Cell(ws, t, s);
      if s != r && s.Parent() in t.tables {
        if CellOf(t, s) == CellOf(t, r) {
          CellsDistinct(t, s, r);
        }
      }
    }
  }

  /** Zeroing a fresh frame and linking it as the table of a region. */
  lemma LinkCell(ws: seq<nat>, t: Tree, r: Region, f: nat, e: Entry, ws': seq<nat>)
    requires t.WellFormed() && t.Unaliased() && InMemory(ws, t, {})
    requires r !in t.entries && 1 <= r.level <= 3 && r.Parent() in t.tables
    requires forall s :: !t.Points(s, f)
    requires |ws'| == |ws| && f * TABLE_ENTRIES + TABLE_ENTRIES <= |ws| && CellOf(t, r) < |ws|
    requires forall a :: 0 <= a < |ws| ==>
      ws'[a] == if a == CellOf(t, r) then MakeEntry(e.frame, e.perm) else if a / TABLE_ENTRIES == f then 0 else ws[a]
    ensures InMemory(ws', t.AddTable(r, f, e), {})
  {
    var t' := t.AddTable(r, f, e);
    assert t.TableOk(r);
    TablePoints(t, r.Parent());
    assert t.tables[r.Parent()] != f;
    forall s ensures Cell(ws', t', s) {
      assert Cell(ws, t, s);
      assert t.EntryOk(s);
      if s.Parent() == r {
        assert s != r && s !in t.entries;
      } else if s.Parent() in t.tables {
        TablePoints(t, s.Parent());
        if s != r && CellOf(t, s) == CellOf(t, r) {
          CellsDistinct(t, s, r);
        }
      }
    }
  }

  lemma FreshFrame(ps: seq<PageInfo>, owned: set<Node>, t: Tree, page: nat)
    requires page < |ps| && Owns(ps, owned) && Counted(ps, t) && t.WellFormed() && t.Held(owned)
    requires Node(page, false) !in owned && Node(page, true) !in owned
    ensures forall s :: !t.Points(s, page)
  {
    assert t.TableOk(Region(page, 4, 0)) && t.EntryOk(Region(page, 4, 0));
    NoRefs(t, page);
  }

  lemma LinkStep(t: Tree, r: Region, f: nat, owned: set<Node>, ps: seq<PageInfo>, ps': seq<PageInfo>)
    requires t.Sound(owned) && AllEncodable(t) && Counted(ps, t)
    requires r !in t.entries && 1 <= r.level <= 3 && r.Parent() in t.tables
    requires forall s :: !t.Points(s, f)
    requires f < |ps| <= FRAME_LIMIT && |ps'| == |ps|
    requires forall g :: 0 <= g < |ps| ==> ps'[g].ppRef == if g == f then ps[f].ppRef + 1 else ps[g].ppRef
    ensures var t' := t.AddTable(r, f, Entry(f, LINK_PERM, false));
      t'.Sound(owned + {Node(f, false)}) && AllEncodable(t') && Counted(ps', t')
  {
    var e := Entry(f, LINK_PERM, false);
    var t' := t.AddTable(r, f, e);
    OwnMoreSound(t, owned, owned + {Node(f, false)});
    AddTableSound(t, r, f, e, owned + {Node(f, false)});
    AddTablePoints(t, r, f, e);
    RefsGrow(t, t', r, f);
    assert t.Refs(f) == {};
    LinkWord(f);
  }

  /** From one tree to another only empty tables have been added, for regions in `path`. */
  ghost predicate Grew(t: Tree, t': Tree, path: set<Region>) {
    && t'.fixed == t.fixed
    && t.tables.Keys <= t'.tables.Keys <= t.tables.Keys + path
    && (forall r :: r in t.tables ==> t'.tables[r] == t.tables[r])
    && (forall r :: r in t.entries ==> r in t'.entries && t'.entries[r] == t.entries[r])
    && (forall r :: r in t'.entries && r !in t.entries ==> r in t'.tables && r !in t.tables)
    && t'.Leaves() == t.Leaves()
  }

  /** The regions on the way to a page that may need a table. */
  ghost function PathOf(root: nat, vpn: nat, huge: bool): set<Region> {
    {RegionAt(root, vpn, 2), RegionAt(root, vpn, 3)} + if huge then {} else {RegionAt(root, vpn, 1)}
  }

  /** A lookup finds the word of the leaf that maps the page. */
  ghost predicate FoundLeaf(t: Tree, pml4: nat, va: nat, cell: int) {
    match t.LeafOf(pml4, Vpn(va))
    case None => cell == NIL
    case Some(r) => r in t.entries && r.Parent() in t.tables && cell == CellOf(t, r)
  }

  /** The state of physical memory and of the page tables that a walk may extend. */
  datatype Snapshot = Snapshot(tree: Tree, owned: set<Node>, pages: seq<PageInfo>, bytes: seq<byte>, spare: nat)

  /** Only empty tables have been added, in frames that were free; blocks that were allocated
      keep their reference counts and contents. */
  ghost predicate Extended(v: Snapshot, v': Snapshot, path: set<Region>) {
    && Grew(v.tree, v'.tree, path)
    && v.owned <= v'.owned
    && |v'.pages| == |v.pages|
    && (forall nd :: nd in v.owned && nd.frame < |v.pages| ==> v'.pages[nd.frame].ppRef == v.pages[nd.frame].ppRef)
    && (forall r, nd :: r in v'.tree.tables && r !in v.tree.tables && nd in v.owned ==> v'.tree.tables[r] != nd.frame)
    && BlocksKept(v.bytes, v'.bytes, v.owned)
  }

  /** Every table added has cost one free frame, nothing else has, and no block has been allocated for nothing. */
  ghost predicate Paid(v: Snapshot, v': Snapshot) {
    && v'.spare + |v'.tree.tables| == v.spare + |v.tree.tables|
    && v'.tree.Unused(v'.owned) == v.tree.Unused(v.owned)
  }

  lemma NothingPaid(v: Snapshot, v': Snapshot)
    requires v'.spare == v.spare && v'.tree == v.tree && v'.owned == v.owned
    ensures Paid(v, v')
  {
  }

  lemma TablePaid(v: Snapshot, v': Snapshot, r: Region, f: nat)
    requires v.tree.WellFormed() && r !in v.tree.entries && 1 <= r.level <= 3
    requires v'.tree == v.tree.AddTable(r, f, Entry(f, LINK_PERM, false)) && v'.spare + 1 == v.spare
    requires v'.owned == v.owned + {Node(f, false)} && forall nd :: nd in v.owned ==> nd.frame != f
    ensures Paid(v, v')
  {
    assert v.tree.TableOk(r);
    AddTablePoints(v.tree, r, f, Entry(f, LINK_PERM, false));
    RefsGrow(v.tree, v'.tree, r, f);
  }

  lemma NoOtherBlock(n: nat, free: seq<Node>, owned: set<Node>, before: set<Node>, f: nat)
    requires Partition(n, free, owned) && owned == before + {Node(f, false)} && Node(f, false) !in before
    ensures forall nd :: nd in before ==> nd.frame != f
  {
    AllocatedApart(n, free, owned, before, Node(f, false));
  }

  /** All that linking a fresh table changes. */
  lemma TableAdded(v: Snapshot, v': Snapshot, r: Region, f: nat, n: nat, free: seq<Node>, ws: seq<nat>, ws': seq<nat>)
    requires v.tree.Sound(v.owned) && AllEncodable(v.tree) && Counted(v.pages, v.tree) && Owns(v.pages, v.owned)
    requires InMemory(ws, v.tree, {}) && r !in v.tree.entries && 1 <= r.level <= 3 && r.Parent() in v.tree.tables
    requires Partition(n, free, v'.owned) && v'.owned == v.owned + {Node(f, false)} && Node(f, false) !in v.owned
    requires |v.pages| == |v'.pages| == n <= FRAME_LIMIT && v'.spare + 1 == v.spare
    requires forall g :: 0 <= g < n ==> v'.pages[g].ppRef == if g == f then v.pages[f].ppRef + 1 else v.pages[g].ppRef
    requires |ws'| == |ws| && f * TABLE_ENTRIES + TABLE_ENTRIES <= |ws| && CellOf(v.tree, r) < |ws|
    requires forall a :: 0 <= a < |ws| ==>
      ws'[a] == if a == CellOf(v.tree, r) then MakeEntry(f, LINK_PERM) else if a / TABLE_ENTRIES == f then 0 else ws[a]
    requires v'.tree == v.tree.AddTable(r, f, Entry(f, LINK_PERM, false)) && BlocksKept(v.bytes, v'.bytes, v.owned)
    ensures v'.tree.Sound(v'.owned) && AllEncodable(v'.tree) && Counted(v'.pages, v'.tree)
    ensures InMemory(ws', v'.tree, {}) && Extended(v, v', {r}) && Paid(v, v')
  {
    hide Partition, Counted, InMemory, AllEncodable, BlocksKept, Extended, Paid, Tree.Unaliased, Tree.Held, Tree.Unused,
         Owns;
    NewBlock(n, free, v'.owned, v.owned, f);
    FreshFrame(v.pages, v.owned, v.tree, f);
    LinkStep(v.tree, r, f, v.owned, v.pages, v'.pages);
    LinkCell(ws, v.tree, r, f, Entry(f, LINK_PERM, false), ws');
    ExtendedByTable(v, v', r, f, n, free);
    NoOtherBlock(n, free, v'.owned, v.owned, f);
    TablePaid(v, v', r, f);
  }

  // ---- Blocks without references ----

  lemma SameRefsUnused(t: Tree, t': Tree, owned: set<Node>)
    requires forall f :: t'.Refs(f) == t.Refs(f)
    ensures t'.Unused(owned) == t.Unused(owned)
  {
    hide Tree.Refs;
  }

  lemma FreedKeepsUnused(t: Tree, owned: set<Node>, t': Tree, owned': set<Node>)
    requires Freed(t, owned, t', owned')
    ensures t'.Unused(owned') == t.Unused(owned)
  {
    forall f ensures t'.Refs(f) <= t.Refs(f) {
      forall s | s in t'.Refs(f) ensures s in t.Refs(f) {
        assert t'.Points(s, f) && t.Points(s, f);
      }
    }
    hide Tree.Refs, Tree.Points;
  }

  lemma OwnMoreUnused(t: Tree, owned: set<Node>, nd: Node)
    ensures t.Unused(owned + {nd}) - {nd} == t.Unused(owned) - {nd}
    ensures t.Refs(nd.frame) == {} ==> t.Unused(owned + {nd}) == t.Unused(owned) + {nd}
  {
    hide Tree.Refs;
  }

  /** A new reference to an allocated block, of whatever kind: the block is in use, and all others are as before. */
  lemma NewRefUnused(t: Tree, t': Tree, n: nat, free: seq<Node>, owned: set<Node>, r: Region, nd: Node)
    requires forall s, g :: t'.Points(s, g) <==> t.Points(s, g) || (s == r && g == nd.frame)
    requires Partition(n, free, owned) && nd in owned
    ensures t'.Unused(owned) == t.Unused(owned) - {nd}
  {
    RefsGrow(t, t', r, nd.frame);
    assert r in t'.Refs(nd.frame);
    forall x | x in owned && x.frame == nd.frame ensures x == nd {
      assert IsBlock(free, owned, x) && IsBlock(free, owned, nd) && !x.Apart(nd);
    }
    hide Tree.Refs, Tree.Points;
  }

  lemma UnusedIsOwned(t: Tree, owned: set<Node>, nd: Node)
    requires nd !in owned
    ensures t.Unused(owned) + {nd} - {nd} == t.Unused(owned)
  {
  }

  lemma NoPointsNoRefs(t: Tree, f: nat)
    requires forall s :: !t.Points(s, f)
    ensures t.Refs(f) == {}
  {
  }

  lemma ExtendedTransitive(v0: Snapshot, v1: Snapshot, v2: Snapshot, path: set<Region>, more: set<Region>)
    requires Extended(v0, v1, path) && Extended(v1, v2, more)
    ensures forall all :: path + more <= all ==> Extended(v0, v2, all)
  {
  }

  lemma ExtendedMore(v: Snapshot, v': Snapshot, path: set<Region>, more: set<Region>)
    requires Extended(v, v', path) && path <= more
    ensures Extended(v, v', more)
  {
  }

  lemma ExtendedSame(v: Snapshot, v': Snapshot, path: set<Region>)
    requires v'.tree == v.tree && v'.owned == v.owned && v'.bytes == v.bytes && |v'.pages| == |v.pages|
    requires forall f :: 0 <= f < |v.pages| ==> v'.pages[f].ppRef == v.pages[f].ppRef
    ensures Extended(v, v', path)
  {
  }

  lemma CountedSame(ps: seq<PageInfo>, ps': seq<PageInfo>, t: Tree)
    requires Counted(ps, t) && |ps'| == |ps|
    requires forall f :: 0 <= f < |ps| ==> ps'[f].ppRef == ps[f].ppRef
    ensures Counted(ps', t)
  {
  }

  lemma ExtendedCell(v: Snapshot, v': Snapshot, path: set<Region>, r: Region)
    requires Extended(v, v', path) && r.Parent() in v.tree.tables
    ensures r.Parent() in v'.tree.tables && CellOf(v'.tree, r) == CellOf(v.tree, r)
  {
  }

  lemma ExtendedLeaf(v: Snapshot, v': Snapshot, path: set<Region>, r: Region)
    requires Extended(v, v', path)
    ensures v'.tree.IsLeaf(r) <==> v.tree.IsLeaf(r)
  {
    assert r in v'.tree.Leaves() <==> r in v.tree.Leaves();
  }

  lemma ExtendedByTable(v: Snapshot, v': Snapshot, r: Region, f: nat, n: nat, free: seq<Node>)
    requires v.tree.WellFormed() && r !in v.tree.entries && 1 <= r.level <= 3
    requires v'.tree == v.tree.AddTable(r, f, Entry(f, LINK_PERM, false))
    requires Partition(n, free, v'.owned) && v'.owned == v.owned + {Node(f, false)} && Node(f, false) !in v.owned
    requires |v'.pages| == |v.pages|
    requires forall g :: 0 <= g < |v.pages| && g != f ==> v'.pages[g].ppRef == v.pages[g].ppRef
    requires BlocksKept(v.bytes, v'.bytes, v.owned)
    ensures Extended(v, v', {r})
  {
    AddTablePoints(v.tree, r, f, Entry(f, LINK_PERM, false));
    AllocatedApart(n, free, v'.owned, v.owned, Node(f, false));
  }

  lemma NewBlock(n: nat, free: seq<Node>, owned: set<Node>, before: set<Node>, page: nat)
    requires Partition(n, free, owned) && owned == before + {Node(page, false)} && Node(page, false) !in before
    ensures page < n && Node(page, true) !in before
  {
    assert IsBlock(free, owned, Node(page, false));
    assert Node(page, true) in before ==> IsBlock(free, owned, Node(page, true));
    assert !Node(page, true).Apart(Node(page, false));
  }

  lemma MissingTable(t: Tree, root: nat, vpn: nat)
    requires t.WellFormed() && vpn < FRAME_LIMIT && RegionAt(root, vpn, 2) !in t.tables
    ensures t.LeafOf(root, vpn) == None
  {
    PathRegions(root, vpn);
    assert t.EntryOk(RegionAt(root, vpn, 1)) && t.EntryOk(RegionAt(root, vpn, 0)) && t.TableOk(RegionAt(root, vpn, 1));
  }

  lemma NoLowerTable(t: Tree, root: nat, vpn: nat)
    requires t.WellFormed() && vpn < FRAME_LIMIT && RegionAt(root, vpn, 2) !in t.tables
    ensures RegionAt(root, vpn, 1) !in t.tables
  {
    PathRegions(root, vpn);
    assert t.TableOk(RegionAt(root, vpn, 1)) && t.EntryOk(RegionAt(root, vpn, 1));
  }

  lemma MissingDirectory(t: Tree, root: nat, vpn: nat)
    requires t.WellFormed() && vpn < FRAME_LIMIT && RegionAt(root, vpn, 1) !in t.tables
    ensures !t.IsLeaf(RegionAt(root, vpn, 1)) ==> t.LeafOf(root, vpn) == None
  {
    PathRegions(root, vpn);
    assert t.EntryOk(RegionAt(root, vpn, 0));
  }

  lemma PresentLeaf(t: Tree, root: nat, vpn: nat)
    requires t.WellFormed() && vpn < FRAME_LIMIT && !t.IsLeaf(RegionAt(root, vpn, 1))
    ensures t.LeafOf(root, vpn) ==
      if RegionAt(root, vpn, 0) in t.entries then Some(RegionAt(root, vpn, 0)) else None
  {
    assert t.EntryOk(RegionAt(root, vpn, 0));
  }

  lemma EntryInPlace(ws: seq<nat>, t: Tree, stale: set<Region>, r: Region)
    requires AllEncodable(t) && InMemory(ws, t, stale) && r !in stale && r.Parent() in t.tables && r.level < 4
    ensures CellOf(t, r) < |ws| && ws[CellOf(t, r)] == WordOf(t, r)
    ensures Present(ws[CellOf(t, r)]) <==> r in t.entries
    ensures r !in t.entries ==> ws[CellOf(t, r)] == 0
  {
    assert Cell(ws, t, r);
    if r in t.entries {
      EntryWords(t, r);
    }
    NoEntryWord();
  }

  lemma EntryPresence(ws: seq<nat>, t: Tree, r: Region)
    requires AllEncodable(t) && InMemory(ws, t, {}) && r.Parent() in t.tables && r.level < 4
    ensures CellOf(t, r) < |ws| && ws[CellOf(t, r)] == WordOf(t, r)
    ensures Present(ws[CellOf(t, r)]) <==> r in t.entries
    ensures r !in t.entries ==> ws[CellOf(t, r)] == 0
  {
    EntryInPlace(ws, t, {}, r);
  }

  /** What the walk can tell from the entry in the page directory. */
  lemma DirectoryEntry(ws: seq<nat>, t: Tree, r: Region)
    requires t.WellFormed() && AllEncodable(t) && InMemory(ws, t, {})
    requires r.level == 1 && r.Parent() in t.tables
    ensures CellOf(t, r) < |ws|
    ensures Huge(ws[CellOf(t, r)]) <==> t.IsLeaf(r)
    ensures r in t.entries && !t.IsLeaf(r) ==> r in t.tables
  {
    assert Cell(ws, t, r) && t.EntryOk(r);
    if r in t.entries {
      EntryWords(t, r);
    }
    NoEntryWord();
  }

  /** A leaf has been unmapped: its entry is gone, its frame has lost one reference, and the
      last reference gives the frame back to the free list. */
  ghost predicate Unmapped(v: Snapshot, free: seq<Node>, r: Region, v': Snapshot, free': seq<Node>)
    requires r in v.tree.entries
  {
    var f := v.tree.entries[r].frame;
    var nd := Node(f, r.level == 1);
    && f < |v.pages| == |v'.pages|
    && v'.tree == v.tree.RemoveLeaf(r)
    && v'.tree.Leaves() == v.tree.Leaves() - {r}
    && (forall g :: 0 <= g < |v.pages| ==>
          v'.pages[g].ppRef == if g == f then v.pages[f].ppRef - 1 else v.pages[g].ppRef)
    && (if v.pages[f].ppRef == 1
        then free' == Release(free, nd) && v'.owned == v.owned - {nd}
        else free' == free && v'.owned == v.owned)
  }

  lemma LeafIsCounted(t: Tree, owned: set<Node>, ps: seq<PageInfo>, r: Region)
    requires t.Sound(owned) && Counted(ps, t) && Owns(ps, owned)
    requires t.IsLeaf(r) && r !in t.fixed
    ensures var f := t.entries[r].frame;
      && f < |ps| && ps[f].isHuge == (r.level == 1) && Node(f, r.level == 1) in owned
      && r in t.Refs(f) && ps[f].ppRef >= 1
  {
    assert t.Points(r, t.entries[r].frame);
    assert r in t.Refs(t.entries[r].frame);
    LeafFrameIsNoRoot(t, r);
  }

  lemma LeafFrameIsNoRoot(t: Tree, r: Region)
    requires t.WellFormed() && t.Unaliased() && t.IsLeaf(r) && r !in t.fixed
    ensures t.Uncounted(t.entries[r].frame) == 0
  {
    if Region(t.entries[r].frame, 4, 0) in t.fixed {
      FixedRootIsAlone(t, t.entries[r].frame, r);
    }
  }

  lemma RemoveStep(t: Tree, r: Region, owned: set<Node>, owned': set<Node>, ps: seq<PageInfo>, ps': seq<PageInfo>)
    requires t.Sound(owned) && AllEncodable(t) && Counted(ps, t)
    requires t.IsLeaf(r) && r !in t.fixed
    requires t.entries[r].frame < |ps| && |ps'| == |ps|
    requires forall g :: 0 <= g < |ps| ==>
      ps'[g].ppRef == if g == t.entries[r].frame then ps[g].ppRef - 1 else ps[g].ppRef
    requires owned' == if ps[t.entries[r].frame].ppRef == 1
      then owned - {Node(t.entries[r].frame, r.level == 1)} else owned
    ensures var t' := t.RemoveLeaf(r);
      t'.Sound(owned') && AllEncodable(t') && Counted(ps', t') && t'.Leaves() == t.Leaves() - {r}
  {
    var f := t.entries[r].frame;
    var t' := t.RemoveLeaf(r);
    RemoveLeafSound(t, r, owned);
    RemoveLeafPoints(t, r);
    RefsShrink(t, t', r, f);
    LeafFrameIsNoRoot(t, r);
    assert r in t.Refs(f) by { assert t.Points(r, f); }
    if ps[f].ppRef == 1 {
      NoRefs(t', f);
      DisownSound(t', owned, Node(f, r.level == 1));
    }
  }

  /** The region whose entry an insertion writes. */
  ghost function Target(pml4: nat, va: nat, huge: bool): Region {
    RegionAt(pml4, Vpn(va), if huge then 1 else 0)
  }

  /** Mapping pp at region r takes the place of the last reference to another block. */
  ghost predicate Displaces(v: Snapshot, r: Region, pp: nat) {
    && r in v.tree.entries && v.tree.entries[r].frame < |v.pages|
    && v.tree.entries[r].frame != pp && v.pages[v.tree.entries[r].frame].ppRef == 1
  }

  /** The block that is released because pp is mapped at region r. */
  ghost function Displaced(v: Snapshot, r: Region, pp: nat): set<Node> {
    if Displaces(v, r, pp) then {Node(v.tree.entries[r].frame, r.level == 1)} else {}
  }

  ghost function DisplacedSpan(v: Snapshot, r: Region, pp: nat): nat {
    if Displaces(v, r, pp) then Node(v.tree.entries[r].frame, r.level == 1).Span() else 0
  }

  /** A page has been mapped: the flat view changes at one region and nowhere else, the block whose last
      reference that replaces is released and no other, and each new table has cost one frame. */
  ghost predicate Mapped(v: Snapshot, r: Region, pp: nat, perm: nat, v': Snapshot) {
    && v.owned - v'.owned == Displaced(v, r, pp)
    && v'.spare + |v'.tree.tables| == v.spare + |v.tree.tables| + DisplacedSpan(v, r, pp)
    && v'.tree.Leaves() == v.tree.Leaves()[r := Entry(pp, perm, Huge(perm))]
    && v'.tree.fixed == v.tree.fixed
    && v.tree.tables.Keys <= v'.tree.tables.Keys
    && Node(pp, r.level == 1) in v'.owned
  }

  lemma OwnedNotFree(n: nat, free: seq<Node>, owned: set<Node>, nd: Node)
    requires Partition(n, free, owned) && nd in owned
    ensures nd !in free && IsBlock(free, owned, nd)
  {
  }

  lemma TargetLeaf(t: Tree, pml4: nat, va: nat, huge: bool)
    requires t.WellFormed()
    requires huge ==> RegionAt(pml4, Vpn(va), 1) !in t.tables
    requires !huge ==> !t.IsLeaf(RegionAt(pml4, Vpn(va), 1))
    ensures var r := Target(pml4, va, huge);
      r in t.entries ==> t.LeafOf(pml4, Vpn(va)) == Some(r) && r.Parent() in t.tables
  {
    PathRegions(pml4, Vpn(va));
    assert t.EntryOk(Target(pml4, va, huge));
    assert t.EntryOk(RegionAt(pml4, Vpn(va), 0));
  }

  /** What holds of the target of an insertion carries over the walk. */
  lemma TargetAfterWalk(v0: Snapshot, v1: Snapshot, pml4: nat, va: nat, huge: bool, pp: nat)
    requires Extended(v0, v1, PathOf(pml4, Vpn(va), huge))
    requires v0.tree.WellFormed() && v1.tree.WellFormed()
    requires huge ==> RegionAt(pml4, Vpn(va), 1) !in v0.tree.tables
    requires !huge ==> !v0.tree.IsLeaf(RegionAt(pml4, Vpn(va), 1))
    requires Node(pp, huge) in v0.owned && pp < |v0.pages|
    requires forall p :: p in v0.tree.tables ==> v0.tree.tables[p] != pp
    ensures forall p :: p in v1.tree.tables ==> v1.tree.tables[p] != pp
    ensures v1.pages[pp].ppRef == v0.pages[pp].ppRef
    ensures var r := Target(pml4, va, huge);
      r in v1.tree.entries ==>
        && r in v0.tree.entries && v1.tree.entries[r] == v0.tree.entries[r]
        && r.Parent() in v0.tree.tables
        && v1.tree.LeafOf(pml4, Vpn(va)) == Some(r)
  {
    var r, r1 := Target(pml4, va, huge), RegionAt(pml4, Vpn(va), 1);
    PathRegions(pml4, Vpn(va));
    ExtendedLeaf(v0, v1, PathOf(pml4, Vpn(va), huge), r1);
    assert huge ==> r1 !in v1.tree.tables;
    TargetLeaf(v1.tree, pml4, va, huge);
    assert v1.tree.EntryOk(r) && v0.tree.EntryOk(r);
    forall p | p in v1.tree.tables ensures v1.tree.tables[p] != pp {
      if p !in v0.tree.tables {
        assert v1.tree.tables[p] != Node(pp, huge).frame;
      }
    }
  }

  lemma NothingDisplaced(v: Snapshot, r: Region, pp: nat)
    requires r !in v.tree.entries
    ensures Displaced(v, r, pp) == {} && DisplacedSpan(v, r, pp) == 0 && v.tree.Leaves() - {r} == v.tree.Leaves()
  {
  }

  /** A walk that fails leaves a page as fit for insertion as it was. */
  lemma StillInsertable(v0: Snapshot, v1: Snapshot, pml4: nat, va: nat, huge: bool, pp: nat)
    requires Extended(v0, v1, PathOf(pml4, Vpn(va), huge))
    requires v0.tree.WellFormed() && v1.tree.WellFormed()
    requires huge ==> RegionAt(pml4, Vpn(va), 1) !in v0.tree.tables
    requires !huge ==> !v0.tree.IsLeaf(RegionAt(pml4, Vpn(va), 1))
    requires Node(pp, huge) in v0.owned && pp < |v0.pages|
    requires forall p :: p in v0.tree.tables ==> v0.tree.tables[p] != pp
    ensures Node(pp, huge) in v1.owned && v1.pages[pp].ppRef == v0.pages[pp].ppRef
    ensures forall p :: p in v1.tree.tables ==> v1.tree.tables[p] != pp
    ensures huge ==> RegionAt(pml4, Vpn(va), 1) !in v1.tree.tables
    ensures !huge ==> !v1.tree.IsLeaf(RegionAt(pml4, Vpn(va), 1))
    ensures var r := Target(pml4, va, huge);
      r in v1.tree.entries ==> r in v0.tree.entries && v1.tree.entries[r] == v0.tree.entries[r]
    ensures v1.tree.fixed == v0.tree.fixed
    ensures !MergesInto([], Node(pp, huge))
  {
    hide BlocksKept;
    TargetAfterWalk(v0, v1, pml4, va, huge, pp);
    PathRegions(pml4, Vpn(va));
    ExtendedLeaf(v0, v1, PathOf(pml4, Vpn(va), huge), RegionAt(pml4, Vpn(va), 1));
  }

  /** What was mapped has been unmapped: either the page to be mapped itself is now at the head of the free list,
      in front of what was there before, or the released block is accounted for. */
  lemma AfterRemoval(v0: Snapshot, free0: seq<Node>, r: Region, v1: Snapshot, free1: seq<Node>, pp: nat, huge: bool)
    requires r in v0.tree.entries && Unmapped(v0, free0, r, v1, free1) && huge == (r.level == 1)
    requires pp < |v0.pages| && Node(pp, huge) in v0.owned && Node(pp, huge) !in free0
    requires v0.tree.entries[r].frame == pp && v0.pages[pp].ppRef == 1 ==> !MergesInto(free0, Node(pp, huge))
    ensures r !in v1.tree.entries && v1.tree.tables == v0.tree.tables && v1.tree.fixed == v0.tree.fixed
    ensures v1.tree.Leaves() == v0.tree.Leaves() - {r}
    ensures if v0.tree.entries[r].frame == pp && v0.pages[pp].ppRef == 1
      then
        && v1.pages[pp].ppRef == 0 && free1 == [Node(pp, huge)] + free0 && RemoveAt(free1, 0) == free0
        && v1.owned == v0.owned - {Node(pp, huge)} && v1.owned + {Node(pp, huge)} == v0.owned
        && Displaced(v0, r, pp) == {} && DisplacedSpan(v0, r, pp) == 0
      else
        && v1.owned == v0.owned - Displaced(v0, r, pp) && Node(pp, huge) in v1.owned
        && Weight(free1) == Weight(free0) + DisplacedSpan(v0, r, pp)
  {
    ReleaseConserves(free0, Node(v0.tree.entries[r].frame, huge));
    hide Weight;
    assert v0.tree.entries[r].frame == pp && v0.pages[pp].ppRef == 1 ==> RemoveAt([Node(pp, huge)] + free0, 0) == free0;
  }

  /** The walk does not change which block the insertion releases. */
  lemma DisplacedAfterWalk(v0: Snapshot, v1: Snapshot, pml4: nat, va: nat, huge: bool, pp: nat)
    requires Extended(v0, v1, PathOf(pml4, Vpn(va), huge))
    requires v0.tree.WellFormed() && v0.tree.Held(v0.owned)
    requires var r := Target(pml4, va, huge);
      && (r in v1.tree.entries ==>
            r in v0.tree.entries && v1.tree.entries[r] == v0.tree.entries[r] && r !in v0.tree.fixed)
      && (r in v0.tree.entries ==> v0.tree.IsLeaf(r))
    ensures var r := Target(pml4, va, huge);
      && Displaced(v1, r, pp) == Displaced(v0, r, pp) <= v0.owned
      && DisplacedSpan(v1, r, pp) == DisplacedSpan(v0, r, pp)
  {
    hide BlocksKept;
    var r := Target(pml4, va, huge);
    assert r in v0.tree.entries ==> r in v1.tree.entries && Node(v0.tree.entries[r].frame, r.level == 1) in v0.owned;
  }

  /** Counting and recording a new mapping. */
  lemma MapStep(t: Tree, r: Region, pp: nat, perm: nat, owned: set<Node>, ps: seq<PageInfo>, ps': seq<PageInfo>)
    requires t.Sound(owned) && AllEncodable(t) && Counted(ps, t)
    requires r !in t.entries && r.level <= 1 && r.Parent() in t.tables && (r.level == 1 ==> Huge(perm))
    requires perm < PAGE_SIZE && pp < |ps| <= FRAME_LIMIT && |ps'| == |ps|
    requires Node(pp, r.level == 1) in owned && forall p :: p in t.tables ==> t.tables[p] != pp
    requires forall g :: 0 <= g < |ps| ==> ps'[g].ppRef == if g == pp then ps[pp].ppRef + 1 else ps[g].ppRef
    ensures var t' := t.AddLeaf(r, Entry(pp, perm, Huge(perm)));
      && t'.Sound(owned) && AllEncodable(t') && Counted(ps', t')
      && t'.Leaves() == t.Leaves()[r := Entry(pp, perm, Huge(perm))]
  {
    var e := Entry(pp, perm, Huge(perm));
    AddLeafSound(t, r, e, owned);
    AddLeafPoints(t, r, e);
    RefsGrow(t, t.AddLeaf(r, e), r, pp);
    assert r !in t.Refs(pp) by { assert !t.Points(r, pp); }
    LowBitsArePerm(perm);
  }

  lemma ExtendedKeeps(v: Snapshot, v': Snapshot, path: set<Region>)
    requires Extended(v, v', path)
    ensures v.owned <= v'.owned && BlocksKept(v.bytes, v'.bytes, v.owned)
    ensures v'.tree.fixed == v.tree.fixed && v.tree.tables.Keys <= v'.tree.tables.Keys <= v.tree.tables.Keys + path
    ensures v'.tree.Leaves() == v.tree.Leaves()
  {
  }

  ghost function ZeroPage(): seq<byte> {
    seq(PAGE_SIZE, _ => 0)
  }

  /** Clearing a frame that holds no table leaves every table as it is. */
  lemma ClearedCells(ws: seq<nat>, t: Tree, stale: set<Region>, f: nat, ws': seq<nat>)
    requires t.WellFormed() && InMemory(ws, t, stale) && (forall s :: !t.Points(s, f)) && |ws'| == |ws|
    requires forall a :: 0 <= a < |ws| && a / TABLE_ENTRIES != f ==> ws'[a] == ws[a]
    ensures InMemory(ws', t, stale)
  {
    forall r | r !in stale ensures Cell(ws', t, r) {
      assert Cell(ws, t, r);
      if r.Parent() in t.tables {
        TablePoints(t, r.Parent());
        assert CellOf(t, r) / TABLE_ENTRIES == t.tables[r.Parent()];
      }
    }
  }

  lemma ExtendedByBlock(v: Snapshot, v': Snapshot)
    requires v'.tree == v.tree && v.owned <= v'.owned && |v'.pages| == |v.pages|
    requires forall f :: 0 <= f < |v.pages| ==> v'.pages[f].ppRef == v.pages[f].ppRef
    requires BlocksKept(v.bytes, v'.bytes, v.owned)
    ensures Extended(v, v', {})
  {
  }

  lemma RootStep(t: Tree, f: nat, ps: seq<PageInfo>, ps': seq<PageInfo>)
    requires t.WellFormed() && Counted(ps, t) && (forall s :: !t.Points(s, f)) && f < |ps| == |ps'|
    requires forall g :: 0 <= g < |ps| ==> ps'[g].ppRef == if g == f then ps[f].ppRef + 1 else ps[g].ppRef
    ensures Counted(ps', t.AddRoot(f)) && (AllEncodable(t) ==> AllEncodable(t.AddRoot(f)))
  {
    AddRootPoints(t, f);
    RefsGrow(t, t.AddRoot(f), Region(f, 4, 0), f);
    assert t.Refs(f) == {};
  }

  /** A frame with no counted references that holds no uncounted root has no references. */
  lemma Unreferenced(ps: seq<PageInfo>, t: Tree, f: nat)
    requires t.WellFormed() && Counted(ps, t) && f < |ps| && ps[f].ppRef == 0 && Region(f, 4, 0) !in t.tables
    ensures forall s :: !t.Points(s, f)
  {
    assert t.EntryOk(Region(f, 4, 0));
    NoRefs(t, f);
  }

  lemma FixedRootStep(t: Tree, f: nat, ps: seq<PageInfo>)
    requires t.WellFormed() && Counted(ps, t) && (forall s :: !t.Points(s, f)) && f < |ps|
    requires forall g :: t.AddFixedRoot(f).Refs(g) == t.AddRoot(f).Refs(g)
    ensures Counted(ps, t.AddFixedRoot(f)) && (AllEncodable(t) ==> AllEncodable(t.AddFixedRoot(f)))
  {
    AddRootPoints(t, f);
    RefsGrow(t, t.AddRoot(f), Region(f, 4, 0), f);
    assert t.Refs(f) == {};
  }

  lemma SameCells(ws: seq<nat>, t: Tree, t': Tree)
    requires InMemory(ws, t, {}) && t'.tables == t.tables && t'.entries == t.entries
    ensures InMemory(ws, t', {})
  {
    forall r ensures Cell(ws, t', r) {
      assert Cell(ws, t, r);
    }
  }

  lemma RootCells(ws: seq<nat>, t: Tree, f: nat, ws': seq<nat>)
    requires t.WellFormed() && InMemory(ws, t, {}) && (forall s :: !t.Points(s, f))
    requires |ws'| == |ws| && f * TABLE_ENTRIES + TABLE_ENTRIES <= |ws|
    requires forall a :: 0 <= a < |ws| ==> ws'[a] == if a / TABLE_ENTRIES == f then 0 else ws[a]
    ensures InMemory(ws', t.AddRoot(f), {})
  {
    var t' := t.AddRoot(f);
    AddRootPoints(t, f);
    forall r ensures Cell(ws', t', r) {
      assert Cell(ws, t, r) && t.EntryOk(r);
      if r.Parent() in t.tables {
        TablePoints(t, r.Parent());
        assert CellOf(t, r) / TABLE_ENTRIES == t.tables[r.Parent()];
      }
    }
  }

  lemma TableFrame(t: Tree, r: Region)
    requires t.WellFormed() && r in t.tables && r.level == 4
    ensures t.tables[r] == r.root
  {
    assert t.TableOk(r);
  }

  /** The entry of a region with a table leads to that table. */
  lemma LinkedFrame(ws: seq<nat>, t: Tree, r: Region)
    requires t.WellFormed() && AllEncodable(t) && InMemory(ws, t, {})
    requires r in t.tables && r.level <= 3
    ensures r.Parent() in t.tables && CellOf(t, r) < |ws|
    ensures FrameOf(ws[CellOf(t, r)]) == t.tables[r]
  {
    assert t.TableOk(r) && t.EntryOk(r) && Cell(ws, t, r);
    EntryWords(t, r);
  }

  /** Below r there are only static-free 4 KiB mappings, reached through the first `max` slots, and its table
      is not in boot memory. */
  ghost predicate UserTree(t: Tree, r: Region, max: nat) {
    && r !in t.fixed
    && (forall s :: t.IsLeaf(s) && Under(s, r) ==> s.level == 0 && s !in t.fixed)
    && (forall s :: s in t.entries && s.Parent() == r ==> s.Slot() < max)
  }

  lemma UserTableIsCounted(t: Tree, r: Region, max: nat)
    requires UserTree(t, r, max)
    ensures r !in t.fixed
  {
  }

  /** References have only gone away, and exactly the blocks that lost their last one are no longer
      allocated. */
  ghost predicate Freed(t: Tree, owned: set<Node>, t': Tree, owned': set<Node>) {
    && (forall s, f :: t'.Points(s, f) ==> t.Points(s, f))
    && (forall nd :: nd in owned' <==>
          nd in owned && (t.Refs(nd.frame) != {} ==> t'.Refs(nd.frame) != {}))
  }

  /** Entries have been left behind only in the first i slots of the table of r. */
  ghost predicate StaleSlots(stale: set<Region>, stale': set<Region>, r: Region, i: nat) {
    && stale <= stale'
    && forall s :: s in stale' && s !in stale ==> s.Parent() == r && s.Slot() < i
  }

  /** The page number j pages behind an address. */
  function VpnPlus(va: nat, j: nat): nat {
    Vpn(va + j * PAGE_SIZE)
  }

  /** A static mapping can be written for this page: it lies in no huge mapping, and nothing but another
      static mapping is there. */
  ghost predicate StaticAt(t: Tree, root: nat, vpn: nat) {
    !t.IsLeaf(RegionAt(root, vpn, 1)) && (RegionAt(root, vpn, 0) in t.entries ==> RegionAt(root, vpn, 0) in t.fixed)
  }

  /** The leaves after n pages from `va` on have been mapped to the frames from `frame` on. */
  ghost function LinearMap(leaves: map<Region, Entry>, root: nat, va: nat, frame: nat, perm: nat, n: nat):
    map<Region, Entry>
    decreases n
  {
    if n == 0 then leaves
    else LinearMap(leaves, root, va, frame, perm, n - 1)
      [RegionAt(root, VpnPlus(va, n - 1), 0) := Entry(frame + n - 1, perm, Huge(perm))]
  }

  /** Allocated blocks keep their reference counts. */
  ghost predicate RefsKept(ps: seq<PageInfo>, ps': seq<PageInfo>, owned: set<Node>) {
    |ps'| == |ps| && forall nd :: nd in owned && nd.frame < |ps| ==> ps'[nd.frame].ppRef == ps[nd.frame].ppRef
  }

  lemma PageAhead(va: nat, pa: nat, n: nat)
    ensures VpnPlus(va, n) == Vpn(va + n * PAGE_SIZE)
    ensures (pa + n * PAGE_SIZE) / PAGE_SIZE == pa / PAGE_SIZE + n && (pa + n * PAGE_SIZE) % PAGE_SIZE == pa % PAGE_SIZE
  {
  }

  lemma LinearMapStep(leaves: map<Region, Entry>, root: nat, va: nat, frame: nat, perm: nat, n: nat)
    ensures LinearMap(leaves, root, va, frame, perm, n) ==
      if n == 0 then leaves
      else LinearMap(leaves, root, va, frame, perm, n - 1)
             [RegionAt(root, VpnPlus(va, n - 1), 0) := Entry(frame + n - 1, perm, Huge(perm))]
  {
  }

  /** Different pages of a range no longer than the address space have different entries. */
  lemma VpnInjective(va: nat, i: nat, j: nat)
    requires VpnPlus(va, i) == VpnPlus(va, j) && i <= j < i + FRAME_LIMIT && va % PAGE_SIZE == 0
    ensures i == j
  {
    var p := va / PAGE_SIZE;
    assert (va + i * PAGE_SIZE) / PAGE_SIZE == p + i && (va + j * PAGE_SIZE) / PAGE_SIZE == p + j;
    assert (p + i) % FRAME_LIMIT == (p + j) % FRAME_LIMIT;
  }

  /** Linearity: page k of the range is mapped to frame k with the given permissions, and all other
      leaves are as before. */
  lemma {:induction false} LinearMapAt(leaves: map<Region, Entry>, root: nat, va: nat, frame: nat, perm: nat, n: nat,
                                       r: Region)
    requires va % PAGE_SIZE == 0 && n <= FRAME_LIMIT
    ensures var m := LinearMap(leaves, root, va, frame, perm, n);
      && (forall k :: 0 <= k < n && r == RegionAt(root, VpnPlus(va, k), 0) ==>
            r in m && m[r] == Entry(frame + k, perm, Huge(perm)))
      && ((forall k :: 0 <= k < n ==> r != RegionAt(root, VpnPlus(va, k), 0)) ==>
            (r in m <==> r in leaves) && (r in m ==> m[r] == leaves[r]))
    decreases n
  {
    if n > 0 {
      LinearMapAt(leaves, root, va, frame, perm, n - 1, r);
      forall k | 0 <= k < n && r == RegionAt(root, VpnPlus(va, k), 0) == RegionAt(root, VpnPlus(va, n - 1), 0)
        ensures k == n - 1
      {
        VpnInjective(va, k, n - 1);
      }
    }
  }

  /** The regions whose tables lead to n pages from `va` on. */
  ghost function TablesFor(root: nat, va: nat, n: nat): set<Region>
    decreases n
  {
    if n == 0 then {} else TablesFor(root, va, n - 1) + PathOf(root, VpnPlus(va, n - 1), false)
  }

  /** Exactly the tables that were missing among the needed ones have been added, for one free frame each. */
  ghost predicate Built(v: Snapshot, v': Snapshot, needed: set<Region>) {
    && v'.tree.tables.Keys == v.tree.tables.Keys + needed
    && Paid(v, v')
  }

  /** There is a table for each of the regions, and all others are as before. */
  ghost predicate TablesAdded(t: Tree, t': Tree, path: set<Region>) {
    && t'.tables.Keys == t.tables.Keys + path
    && forall r :: r in t.tables ==> t'.tables[r] == t.tables[r]
  }

  lemma BuiltAdds(v: Snapshot, v': Snapshot, path: set<Region>)
    requires Built(v, v', path) && Extended(v, v', path)
    ensures forall t: Tree :: t.tables == v'.tree.tables ==> TablesAdded(v.tree, t, path)
    ensures Paid(v, v')
  {
  }

  /** There are fewer free frames than missing tables. */
  ghost predicate Short(v: Snapshot, needed: set<Region>) {
    v.spare < |needed - v.tree.tables.Keys|
  }

  lemma NothingBuilt(v: Snapshot, root: nat, va: nat)
    ensures Built(v, v, TablesFor(root, va, 0))
  {
    assert v.tree.tables.Keys + {} == v.tree.tables.Keys;
  }

  lemma NextTables(root: nat, va: nat, n: nat, total: nat)
    requires n < total
    ensures TablesFor(root, va, n + 1) == TablesFor(root, va, n) + PathOf(root, VpnPlus(va, n), false)
    ensures TablesFor(root, va, n) + PathOf(root, VpnPlus(va, n), false) <= TablesFor(root, va, total)
  {
    TablesGrow(root, va, n + 1, total);
  }

  lemma {:induction false} TablesGrow(root: nat, va: nat, n: nat, total: nat)
    requires n <= total
    ensures TablesFor(root, va, n) <= TablesFor(root, va, total)
    decreases total
  {
    if n < total {
      TablesGrow(root, va, n, total - 1);
    }
  }

  lemma BuiltIsNotShort(v: Snapshot, v': Snapshot, needed: set<Region>)
    requires Built(v, v', needed)
    ensures !Short(v, needed) && v'.spare + |needed - v.tree.tables.Keys| == v.spare
  {
    var k := v.tree.tables.Keys;
    assert v'.tree.tables.Keys == k + (needed - k);
    assert |k| == |v.tree.tables| && |v'.tree.tables.Keys| == |v'.tree.tables|;
  }

  lemma BuiltTransitive(v0: Snapshot, v1: Snapshot, v2: Snapshot, a: set<Region>, b: set<Region>)
    requires Built(v0, v1, a) && Built(v1, v2, b)
    ensures Built(v0, v2, a + b)
  {
  }

  lemma ShortLater(v0: Snapshot, v1: Snapshot, a: set<Region>, b: set<Region>, all: set<Region>)
    requires Built(v0, v1, a) && Short(v1, b) && a + b <= all
    ensures Short(v0, all)
  {
    BuiltIsNotShort(v0, v1, a);
    var k := v0.tree.tables.Keys;
    assert (a - k) + (b - (k + a)) == (a + b) - k;
    SubsetSize((a + b) - k, all - k);
  }

  /** A walk that creates tables finds them all or shows that too few frames are free. */
  lemma WalkBuilds(v: Snapshot, v': Snapshot, root: nat, vpn: nat, huge: bool)
    requires Extended(v, v', PathOf(root, vpn, huge)) && Paid(v, v') && v'.tree.WellFormed() && vpn < FRAME_LIMIT
    ensures RefsKept(v.pages, v'.pages, v.owned)
    ensures var last := RegionAt(root, vpn, if huge then 2 else 1);
      && (last in v'.tree.tables ==> Built(v, v', PathOf(root, vpn, huge)))
      && (last !in v'.tree.tables && v'.spare == 0 ==> Short(v, PathOf(root, vpn, huge)))
  {
    var last, path := RegionAt(root, vpn, if huge then 2 else 1), PathOf(root, vpn, huge);
    ExtendedKeeps(v, v', path);
    ExtendedRefs(v, v', path);
    PathComplete(v'.tree, root, vpn, huge);
    hide Tree.Unused, Tree.Leaves, Tree.WellFormed, Extended, RefsKept, BlocksKept, PathOf, RegionAt;
    GrownKeys(v.tree.tables.Keys, v'.tree.tables.Keys, path, last);
    assert |v.tree.tables.Keys| == |v.tree.tables| && |v'.tree.tables.Keys| == |v'.tree.tables|;
  }

  /** Where the last table of a path is, all of it is. */
  lemma PathComplete(t: Tree, root: nat, vpn: nat, huge: bool)
    requires t.WellFormed() && vpn < FRAME_LIMIT
    ensures var last := RegionAt(root, vpn, if huge then 2 else 1);
      last in PathOf(root, vpn, huge) && (last in t.tables ==> PathOf(root, vpn, huge) <= t.tables.Keys)
  {
    PathRegions(root, vpn);
    assert t.TableOk(RegionAt(root, vpn, 1)) && t.EntryOk(RegionAt(root, vpn, 1));
    assert t.TableOk(RegionAt(root, vpn, 2)) && t.EntryOk(RegionAt(root, vpn, 2));
  }

  lemma GrownKeys(k: set<Region>, k': set<Region>, path: set<Region>, last: Region)
    requires k <= k' <= k + path && last in path
    ensures path <= k' ==> k' == k + path
    ensures last !in k' ==> |k'| < |k| + |path - k|
  {
    assert k + path == k + (path - k);
    if last !in k' {
      SubsetSize(k', (k + path) - {last});
    }
  }

  lemma ExtendedRefs(v: Snapshot, v': Snapshot, path: set<Region>)
    requires Extended(v, v', path)
    ensures RefsKept(v.pages, v'.pages, v.owned)
  {
  }

  /** All that an address space maps is mapped statically, page by page. */
  ghost predicate StaticOnly(t: Tree, root: nat) {
    forall r :: r in t.Leaves() && r.root == root ==> r.level == 0 && r in t.fixed
  }

  lemma StaticEverywhere(t: Tree, root: nat, vpn: nat)
    requires t.WellFormed() && StaticOnly(t, root)
    ensures StaticAt(t, root, vpn)
  {
    var r0, r1 := RegionAt(root, vpn, 0), RegionAt(root, vpn, 1);
    assert t.EntryOk(r0) && t.TableOk(r0);
    assert r1 in t.Leaves() <==> t.IsLeaf(r1);
    assert r0 in t.Leaves() <==> t.IsLeaf(r0);
  }

  lemma {:induction false} SubsetSize<T>(a: set<T>, b: set<T>)
    requires a <= b
    ensures |a| <= |b|
  {
    assert b == a + (b - a);
  }

  lemma SameTables(v0: Snapshot, v1: Snapshot, v2: Snapshot, needed: set<Region>)
    requires Built(v0, v1, needed) && v2.tree.tables == v1.tree.tables && v2.spare == v1.spare
    requires v2.tree.Unused(v2.owned) == v1.tree.Unused(v1.owned)
    ensures Built(v0, v2, needed)
  {
  }

  lemma StaticStep(t0: Tree, t: Tree, ws: seq<nat>, r: Region, frame: nat, perm: nat, owned: set<Node>,
                   ps: seq<PageInfo>)
    requires t.Sound(owned) && AllEncodable(t) && Counted(ps, t) && InMemory(ws, t, {})
    requires t.fixed == t0.fixed && t.Leaves() == t0.Leaves() && t0.WellFormed()
    requires (r in t0.entries ==> r in t0.fixed) && r.level == 0 && r.Parent() in t.tables
    requires frame < FRAME_LIMIT && IsPerm(perm)
    ensures CellOf(t, r) < |ws|
    ensures var t' := t.AddFixed(r, Entry(frame, perm, Huge(perm)));
      && t'.Sound(owned) && AllEncodable(t') && Counted(ps, t') && t'.Unused(owned) == t.Unused(owned)
      && t'.Leaves() == t.Leaves()[r := Entry(frame, perm, Huge(perm))]
  {
    hide Tree.Unused;
    var e := Entry(frame, perm, Huge(perm));
    assert Cell(ws, t, r);
    assert t.TableOk(r) && t0.TableOk(r) && t0.EntryOk(r);
    assert r in t.Leaves() <==> r in t0.Leaves();
    AddFixedSound(t, r, e, owned);
    AddFixedPoints(t, r, e);
    forall f ensures t.AddFixed(r, e).Refs(f) == t.Refs(f) {
      assert forall s :: s in t.AddFixed(r, e).Refs(f) <==> s in t.Refs(f);
    }
    SameRefsUnused(t, t.AddFixed(r, e), owned);
  }

  /** A static mapping leaves every other page fit for one. */
  lemma StillStatic(t: Tree, t': Tree, root: nat, vpn: nat)
    requires t.WellFormed() && t'.WellFormed()
    requires var r := RegionAt(root, vpn, 0);
      t'.fixed == t.fixed + {r} && r in t'.Leaves() && t'.Leaves() == t.Leaves()[r := t'.Leaves()[r]]
    ensures forall n :: StaticAt(t, root, n) ==> StaticAt(t', root, n)
    ensures StaticOnly(t, root) ==> StaticOnly(t', root)
  {
    forall n | StaticAt(t, root, n) ensures StaticAt(t', root, n) {
      var r0, r1 := RegionAt(root, n, 0), RegionAt(root, n, 1);
      assert t'.IsLeaf(r1) <==> r1 in t'.Leaves();
      assert t.IsLeaf(r1) <==> r1 in t.Leaves();
      assert t'.EntryOk(r0) && t.EntryOk(r0);
      assert r0 in t'.entries ==> r0 in t'.Leaves();
    }
  }

  lemma RefsSame(ps: seq<PageInfo>, owned: set<Node>)
    ensures RefsKept(ps, ps, owned)
  {
  }

  lemma RefsKeptTransitive(ps0: seq<PageInfo>, ps1: seq<PageInfo>, ps2: seq<PageInfo>, o0: set<Node>, o1: set<Node>)
    requires RefsKept(ps0, ps1, o0) && RefsKept(ps1, ps2, o1) && o0 <= o1
    ensures RefsKept(ps0, ps2, o0)
  {
  }

  lemma NoWeight()
    ensures Weight([]) == 0
  {
  }

  // ---- Translation by the processor ----

  /** What may be done at an address: writing, access by user programs, running code. */
  datatype Rights = Rights(write: bool, user: bool, exec: bool) {
    /** A right counts only if every level of tables grants it. */
    function And(other: Rights): Rights {
      Rights(write && other.write, user && other.user, exec && other.exec)
    }
  }

  const ALL_RIGHTS: Rights := Rights(true, true, true)

  function RightsOf(word: nat): Rights {
    Rights(Bits.And(word, PAGE_WRITE) != 0, Bits.And(word, PAGE_USER) != 0, Bits.And(word, PAGE_NO_EXEC) == 0)
  }

  /** What an address translates to: the frame of its 4 KiB page, the flags of the leaf entry, and what all entries on
      the way together allow. */
  datatype Translation = Translation(frame: nat, flags: nat, rights: Rights)

  function WordAt(ws: seq<nat>, table: nat, index: nat): nat {
    var a := table * TABLE_ENTRIES + index;
    if a < |ws| then ws[a] else 0
  }

  /** The page walk of the processor: four levels of tables, with leaves of 4 KiB in the lowest and of
      2 MiB in the second; leaves of 1 GiB are not used. Rights are tested on every level. */
  function HardwareWalk(ws: seq<nat>, root: nat, va: nat): Option<Translation> {
    var e4 := WordAt(ws, root, Pml4Index(va));
    if !Present(e4) then None else
    var e3 := WordAt(ws, FrameOf(e4), PdptIndex(va));
    if !Present(e3) || Huge(e3) then None else
    var e2 := WordAt(ws, FrameOf(e3), PageDirIndex(va));
    if !Present(e2) then None else
    var upper := RightsOf(e4).And(RightsOf(e3)).And(RightsOf(e2));
    if Huge(e2) then Some(Translation(FrameOf(e2) + PageTableIndex(va), Flags(e2), upper)) else
    var e1 := WordAt(ws, FrameOf(e2), PageTableIndex(va));
    if !Present(e1) then None else Some(Translation(FrameOf(e1), Flags(e1), upper.And(RightsOf(e1))))
  }

  /** The flat view of a page: the leaf that maps it, if any. What is allowed there is what its permissions say. */
  ghost function FlatTranslation(t: Tree, root: nat, vpn: nat): Option<Translation> {
    match t.LeafOf(root, vpn)
    case None => None
    case Some(r) =>
      if r !in t.entries then None
      else
        var e := t.entries[r];
        Some(Translation(e.frame + (if r.level == 1 then vpn % 512 else 0), Or(e.perm, PAGE_PRESENT), RightsOf(e.perm)))
  }

  lemma LinkRights()
    ensures RightsOf(LINK_PERM) == ALL_RIGHTS
  {
    assert Bits.And(6, 2) == 2 by { AndStep(6, 2); AndStep(3, 1); AndStep(1, 0); AndZero(0); AndZero(1); }
    assert Bits.And(6, 4) == 4 by { AndStep(6, 4); AndStep(3, 2); AndStep(1, 1); AndZero(0); }
    Shift12(0x8_0000_0000_0000);
    AndSmall(6, 0x8_0000_0000_0000, 12);
  }

  lemma WalkStep(ws: seq<nat>, t: Tree, r: Region, table: nat, index: nat)
    requires t.WellFormed() && AllEncodable(t) && InMemory(ws, t, {}) && r.level < 4
    requires r.Parent() in t.tables && table == t.tables[r.Parent()] && index == r.Slot()
    ensures var w := WordAt(ws, table, index);
      && (Present(w) <==> r in t.entries)
      && (r in t.entries ==> FrameOf(w) == t.entries[r].frame && (Huge(w) <==> t.entries[r].huge) &&
                             Flags(w) == Or(t.entries[r].perm, PAGE_PRESENT) &&
                             RightsOf(w) == RightsOf(t.entries[r].perm))
      && (r in t.tables ==> r.level > 0 && r in t.entries && RightsOf(w) == ALL_RIGHTS)
      && (r in t.entries && r in t.tables ==> FrameOf(w) == t.tables[r] && !Huge(w))
      && (r in t.entries && r !in t.tables ==> r.level == 0 || (r.level == 1 && Huge(w)))
  {
    EntryPresence(ws, t, r);
    assert t.EntryOk(r) && t.TableOk(r);
    if r in t.entries {
      EntryWords(t, r);
      EntryRights(t.entries[r].frame, t.entries[r].perm);
      LinkRights();
    }
  }

  /** The tables in memory implement the flat view: for every address, the processor's walk finds
      exactly the leaf the view has for its page, with the frame and the permissions it was mapped with, and what it
      allows there is what these permissions say, as no table on the way takes anything away. */
  lemma HardwareSeesFlatView(ws: seq<nat>, t: Tree, root: nat, va: nat)
    requires t.WellFormed() && AllEncodable(t) && InMemory(ws, t, {}) && Region(root, 4, 0) in t.tables
    ensures HardwareWalk(ws, root, va) == FlatTranslation(t, root, Vpn(va))
  {
    hide InMemory, AllEncodable, Tree.WellFormed, PageTableIndex, PageDirIndex, PdptIndex, Pml4Index, Present,
         Huge, FrameOf, Flags, Or, RightsOf;
    var vpn := Vpn(va);
    PathUnder(root, vpn);
    IndicesAreFields(va);
    var r3, r2 := RegionAt(root, vpn, 3), RegionAt(root, vpn, 2);
    var r1, r0 := RegionAt(root, vpn, 1), RegionAt(root, vpn, 0);
    assert t.tables[Region(root, 4, 0)] == root by { TableFrame(t, Region(root, 4, 0)); }
    WalkStep(ws, t, r3, root, Pml4Index(va));
    if r3 !in t.entries {
      NothingUnder(t, r1, r3);
      NothingUnder(t, r0, r3);
    } else {
      WalkStep(ws, t, r2, t.tables[r3], PdptIndex(va));
      if r2 !in t.entries {
        NothingUnder(t, r1, r2);
        NothingUnder(t, r0, r2);
      } else {
        WalkStep(ws, t, r1, t.tables[r2], PageDirIndex(va));
        if r1 in t.tables {
          WalkStep(ws, t, r0, t.tables[r1], PageTableIndex(va));
        } else if r1 !in t.entries {
          NothingUnder(t, r0, r1);
        }
      }
    }
  }

  lemma FreedNothing(t: Tree, owned: set<Node>)
    ensures Freed(t, owned, t, owned)
  {
  }

  lemma FreedTransitive(t0: Tree, o0: set<Node>, t1: Tree, o1: set<Node>, t2: Tree, o2: set<Node>)
    requires Freed(t0, o0, t1, o1) && Freed(t1, o1, t2, o2)
    ensures Freed(t0, o0, t2, o2)
  {
    forall f ensures t2.Refs(f) != {} ==> t1.Refs(f) != {} {
      if s :| s in t2.Refs(f) {
        assert t1.Points(s, f);
        assert s in t1.Refs(f);
      }
    }
    forall f ensures t1.Refs(f) != {} ==> t0.Refs(f) != {} {
      if s :| s in t1.Refs(f) {
        assert t0.Points(s, f);
        assert s in t0.Refs(f);
      }
    }
  }

  /** Dropping one of the references to a frame. */
  lemma FreedOne(t: Tree, t': Tree, r: Region, f: nat, nd: Node, owned: set<Node>, owned': set<Node>, ps: seq<PageInfo>)
    requires Counted(ps, t) && f < |ps| && nd.frame == f && r in t.Refs(f) && t.Uncounted(f) == 0
    requires forall s, g :: t'.Points(s, g) <==> t.Points(s, g) && !(s == r && g == f)
    requires forall x :: x in owned && x.frame == f ==> x == nd
    requires owned' == if ps[f].ppRef == 1 then owned - {nd} else owned
    ensures Freed(t, owned, t', owned')
  {
    RefsShrink(t, t', r, f);
    assert |t'.Refs(f)| == |t.Refs(f)| - 1;
  }

  lemma FreedByLeaf(t: Tree, c: Region, owned: set<Node>, owned': set<Node>, ps: seq<PageInfo>)
    requires t.Sound(owned) && Counted(ps, t) && Owns(ps, owned) && t.IsLeaf(c) && c !in t.fixed
    requires t.entries[c].frame < |ps|
    requires owned' == if ps[t.entries[c].frame].ppRef == 1
      then owned - {Node(t.entries[c].frame, c.level == 1)} else owned
    ensures Freed(t, owned, t.RemoveLeaf(c), owned')
  {
    LeafIsCounted(t, owned, ps, c);
    LeafFrameIsNoRoot(t, c);
    RemoveLeafPoints(t, c);
    FreedOne(t, t.RemoveLeaf(c), c, t.entries[c].frame, Node(t.entries[c].frame, c.level == 1), owned, owned', ps);
  }

  lemma TableIsCounted(t: Tree, owned: set<Node>, ps: seq<PageInfo>, r: Region)
    requires t.Sound(owned) && Counted(ps, t) && Owns(ps, owned) && r in t.tables && r !in t.fixed
    ensures var f := t.tables[r];
      f < |ps| && ps[f].ppRef == 1 && !ps[f].isHuge && Node(f, false) in owned
  {
    RemoveTablePoints(t, r);
    assert Node(t.tables[r], false) in owned;
  }

  lemma TableStep(t: Tree, r: Region, owned: set<Node>, owned': set<Node>, ps: seq<PageInfo>, ps': seq<PageInfo>)
    requires t.Sound(owned) && AllEncodable(t) && Counted(ps, t) && Owns(ps, owned)
    requires r in t.tables && r !in t.fixed && forall s :: s in t.entries ==> s.Parent() != r
    requires owned' == owned - {Node(t.tables[r], false)} && |ps'| == |ps|
    requires forall g :: 0 <= g < |ps| ==> ps'[g].ppRef == if g == t.tables[r] then ps[g].ppRef - 1 else ps[g].ppRef
    ensures var t' := t.RemoveTable(r);
      t'.Sound(owned') && AllEncodable(t') && Counted(ps', t') && Freed(t, owned, t', owned')
  {
    var f, t' := t.tables[r], t.RemoveTable(r);
    TableIsCounted(t, owned, ps, r);
    RemoveTableSound(t, r, owned);
    RemoveTablePoints(t, r);
    RefsShrink(t, t', r, f);
    NoRefs(t', f);
    DisownSound(t', owned, Node(f, false));
    assert r in t.Refs(f);
    FreedOne(t, t', r, f, Node(f, false), owned, owned', ps);
  }

  lemma TableCells(ws: seq<nat>, t: Tree, stale: set<Region>, stale0: set<Region>, r: Region, max: nat)
    requires InMemory(ws, t, stale) && StaleSlots(stale0, stale, r, max) && r in t.tables
    ensures InMemory(ws, t.RemoveTable(r), stale0 + {r})
  {
    var t' := t.RemoveTable(r);
    forall s | s !in stale0 + {r} ensures Cell(ws, t', s) {
      if s.Parent() != r {
        assert Cell(ws, t, s);
      }
    }
  }

  /** What is behind a slot not yet freed is still a user tree. */
  lemma SubtreeIsUser(t0: Tree, t: Tree, r: Region, i: nat, max: nat)
    requires PrunedSlots(t0, t, r, i) && UserTree(t0, r, max) && 0 < r.level <= 4 && i < TABLE_ENTRIES
    ensures t.WellFormed() && !t.IsLeaf(r.Child(i)) ==> UserTree(t, r.Child(i), TABLE_ENTRIES)
    ensures t.IsLeaf(r.Child(i)) ==> r.level == 1 && r.Child(i) !in t.fixed
  {
    var c := r.Child(i);
    forall s | t.IsLeaf(s) && Under(s, c) ensures s.level == 0 && s !in t.fixed {
      UnderChild(s, r, i);
      assert t0.IsLeaf(s);
    }
    assert Under(c, c);
  }

  lemma KeepsTable(t: Tree, t': Tree, r: Region, i: nat)
    requires r.level > 0 && PrunedTree(t, t', r.Child(i)) && r in t.tables
    ensures r in t'.tables && t'.tables[r] == t.tables[r]
  {
  }

  lemma StaleElsewhere(stale0: set<Region>, stale: set<Region>, r: Region, i: nat)
    requires forall s :: s in stale0 ==> !Under(s, r) && s.Parent() != r
    requires StaleSlots(stale0, stale, r, i) && r.level > 0 && i < TABLE_ENTRIES
    ensures r.Child(i) !in stale && forall s :: s in stale ==> !Under(s, r.Child(i)) && s.Parent() != r.Child(i)
  {
    var c := r.Child(i);
    ParentChild(r, c, i);
    forall s | s in stale ensures !Under(s, c) && s.Parent() != c {
      UnderChild(s, r, i);
      if s in stale0 {
        assert s.Parent() == c ==> Under(s, r) by {
          assert Under(c, r) by { assert Under(r, r); }
        }
      }
    }
  }

  lemma StaleMore(stale0: set<Region>, stale: set<Region>, stale': set<Region>, r: Region, i: nat)
    requires StaleSlots(stale0, stale, r, i) && r.level > 0 && i < TABLE_ENTRIES
    requires stale' == stale || stale' == stale + {r.Child(i)}
    ensures StaleSlots(stale0, stale', r, i + 1)
  {
    ParentChild(r, r.Child(i), i);
  }

  lemma PrunedNothing(t: Tree, r: Region, stale: set<Region>)
    ensures PrunedSlots(t, t, r, 0) && StaleSlots(stale, stale, r, 0)
  {
    assert forall s :: !BelowSlots(s, r, 0);
  }

  lemma NoMoreSlots(t0: Tree, t: Tree, r: Region, max: nat)
    requires PrunedSlots(t0, t, r, max) && UserTree(t0, r, max) && t.WellFormed() && 0 < r.level <= 4
    requires max <= TABLE_ENTRIES
    ensures PrunedSlots(t0, t, r, TABLE_ENTRIES)
  {
    forall j | max <= j < 512 ensures r.Child(j) !in t.entries {
      ParentChild(r, r.Child(j), j);
    }
    PruneRest(t0, t, r, max);
  }

  class PageTables {
    const pm: PhysicalMemory
    ghost var tree: Tree
    ghost var stale: set<Region>

    /** Before any page table exists. */
    constructor (pm: PhysicalMemory)
      requires pm.Valid() && forall f :: 0 <= f < pm.npages ==> pm.pages[f].ppRef == 0
      ensures Valid() && this.pm == pm && tree == Tree(map[], map[], {}) && stale == {}
    {
      this.pm := pm;
      tree := Tree(map[], map[], {});
      stale := {};
    }

    ghost function Snap(): Snapshot
      reads this, pm, pm.pages, pm.bytes
    {
      Snapshot(tree, pm.owned, pm.pages[..], pm.bytes[..], Weight(pm.free))
    }

    ghost predicate Valid()
      reads this, pm, pm.pages, pm.words
    {
      && pm.Valid()
      && tree.Sound(pm.owned)
      && AllEncodable(tree)
      && Counted(pm.pages[..], tree)
      && InMemory(pm.words[..], tree, stale)
    }

    /** What callers need of the invariant. */
    lemma TreeIsSound()
      requires Valid()
      ensures tree.WellFormed() && tree.Sound(pm.owned) && Partition(pm.npages, pm.free, pm.owned)
    {
    }

    /** Allocates a page for a mapping to come, zeroed if wanted. */
    method AllocPage(zero: bool) returns (page: int)
      requires Valid()
      modifies this`tree, pm`pageFreeList, pm`free, pm`owned, pm.pages, pm.words, pm.bytes
      ensures Valid() && tree == old(tree)
      ensures Extended(old(Snap()), Snap(), {})
      ensures page == NIL <==> old(pm.free) == []
      ensures page == NIL ==> pm.free == [] && pm.owned == old(pm.owned)
      ensures page != NIL ==>
        && 0 <= page < pm.npages && Node(page, false) !in old(pm.owned)
        && pm.owned == old(pm.owned) + {Node(page, false)}
        && pm.pages[page].ppRef == 0 && !pm.pages[page].isHuge
        && (forall s :: !tree.Points(s, page))
        && Weight(pm.free) + 1 == old(Weight(pm.free))
        && (zero ==> BlockBytes(pm.bytes[..], Node(page, false)) == ZeroPage())
        && tree.Unused(pm.owned) == old(tree.Unused(pm.owned)) + {Node(page, false)}
    {
      hide Partition, Listed, Counted, AllEncodable, Extended, Grew, Tree.Unaliased, Tree.Held, BlocksKept,
           Allocated, Weight, Tree.Unused, Tree.Refs;
      page := pm.PageAlloc(zero, false);
      SmallAllocation(pm.npages, old(pm.free), old(pm.owned), page, pm.free, pm.owned);
      CountedSame(old(pm.pages[..]), pm.pages[..], tree);
      if page == NIL {
        assert pm.words[..] == old(pm.words[..]);
        assert pm.bytes[..] == old(pm.bytes[..]);
        ExtendedSame(old(Snap()), Snap(), {});
        return;
      }
      NewBlock(pm.npages, pm.free, pm.owned, old(pm.owned), page);
      FreshFrame(old(pm.pages[..]), old(pm.owned), tree, page);
      NoPointsNoRefs(tree, page);
      OwnMoreUnused(tree, old(pm.owned), Node(page, false));
      OwnMoreSound(tree, old(pm.owned), pm.owned);
      ClearedCells(old(pm.words[..]), tree, stale, page, pm.words[..]);
      ExtendedByBlock(old(Snap()), Snap());
    }

    /** A new address space: an empty root table holding one reference to its own frame. */
    method NewRoot() returns (root: int)
      requires Valid() && stale == {}
      modifies this`tree, pm`pageFreeList, pm`free, pm`owned, pm.pages, pm.words, pm.bytes
      ensures Valid()
      ensures root == NIL <==> old(pm.free) == []
      ensures root == NIL ==> tree == old(tree)
      ensures root != NIL ==> Weight(pm.free) + 1 == old(Weight(pm.free))
      ensures root != NIL ==> 0 <= root && Region(root, 4, 0) !in old(tree).tables && tree == old(tree).AddRoot(root)
      ensures tree.Unused(pm.owned) == old(tree.Unused(pm.owned))
      ensures tree.Leaves() == old(tree).Leaves()
      ensures BlocksKept(old(pm.bytes[..]), pm.bytes[..], old(pm.owned))
    {
      hide Partition, Listed, Owns, Counted, AllEncodable, Tree.Unaliased, Tree.Held, BlocksKept, Tree.Unused, Weight,
           Tree.Refs, Tree.Leaves;
      root := AllocPage(true);
      ExtendedKeeps(old(Snap()), Snap(), {});
      if root == NIL {
        return;
      }
      ghost var ps, ws, bs := pm.pages[..], pm.words[..], pm.bytes[..];
      pm.SetRef(root, pm.pages[root].ppRef + 1);
      ClearTable(root);
      assert pm.bytes[..] == bs;
      AddRootSound(tree, root, pm.owned);
      AddRootPoints(tree, root);
      RootStep(tree, root, ps, pm.pages[..]);
      NewRefUnused(tree, tree.AddRoot(root), pm.npages, pm.free, pm.owned, Region(root, 4, 0), Node(root, false));
      UnusedIsOwned(old(tree), old(pm.owned), Node(root, false));
      RootCells(ws, tree, root, pm.words[..]);
      tree := tree.AddRoot(root);
    }

    /** Clears all entries of a table. */
    method ClearTable(table: nat)
      requires table * TABLE_ENTRIES + TABLE_ENTRIES <= pm.words.Length
      modifies pm.words
      ensures forall a :: 0 <= a < pm.words.Length ==>
        pm.words[a] == if a / TABLE_ENTRIES == table then 0 else old(pm.words[a])
    {
      var i := 0;
      while i < TABLE_ENTRIES
        invariant 0 <= i <= TABLE_ENTRIES
        invariant forall a :: 0 <= a < pm.words.Length ==>
          pm.words[a] == if table * TABLE_ENTRIES <= a < table * TABLE_ENTRIES + i then 0 else old(pm.words[a])
      {
        pm.words[table * TABLE_ENTRIES + i] := 0;
        i := i + 1;
      }
    }

    /** Takes a frame of boot memory as an empty root table. Nothing counts the reference to it. */
    method AdoptRoot(root: nat)
      requires Valid() && stale == {} && root < pm.npages
      requires Node(root, false) in pm.owned && pm.pages[root].ppRef == 0 && Region(root, 4, 0) !in tree.tables
      modifies this`tree, pm.words
      ensures Valid() && tree == old(tree).AddFixedRoot(root) && tree.Leaves() == old(tree).Leaves()
      ensures tree.Unused(pm.owned) == old(tree.Unused(pm.owned)) - {Node(root, false)}
    {
      hide Partition, Listed, Owns, AllEncodable, InMemory, Tree.Unaliased, Tree.Held, Tree.Unused;
      ghost var ws := pm.words[..];
      Unreferenced(pm.pages[..], tree, root);
      ClearTable(root);
      AddFixedRootSound(tree, root, pm.owned);
      RootCells(ws, tree, root, pm.words[..]);
      FixedRootStep(tree, root, pm.pages[..]);
      AddRootPoints(tree, root);
      NewRefUnused(tree, tree.AddRoot(root), pm.npages, pm.free, pm.owned, Region(root, 4, 0), Node(root, false));
      SameRefsUnused(tree.AddRoot(root), tree.AddFixedRoot(root), pm.owned);
      SameCells(pm.words[..], tree.AddRoot(root), tree.AddFixedRoot(root));
      tree := tree.AddFixedRoot(root);
    }

    /** Makes sure the entry of a region links a table, creating one when asked to. */
    method EntryInTable(cell: nat, create: bool, ghost r: Region) returns (ok: bool)
      requires Valid() && stale == {}
      requires 1 <= r.level <= 3 && r.Parent() in tree.tables && cell == CellOf(tree, r)
      requires r in tree.entries ==> r in tree.tables
      modifies this`tree, pm`pageFreeList, pm`free, pm`owned, pm.pages, pm.words, pm.bytes
      ensures Valid()
      ensures !create ==> Snap() == old(Snap()) && pm.free == old(pm.free) && (ok <==> r in tree.tables)
      ensures create ==> (ok <==> r in old(tree).tables || old(pm.free) != [])
      ensures ok ==> r in tree.tables
      ensures r in old(tree).tables ==> Snap() == old(Snap()) && pm.free == old(pm.free)
      ensures !ok ==> pm.free == old(pm.free) && tree == old(tree)
      ensures Extended(old(Snap()), Snap(), {r})
      ensures Paid(old(Snap()), Snap())
    {
      hide Partition, Listed, Owns, Counted, InMemory, AllEncodable, Extended, Paid, Weight, Tree.Unaliased, Tree.Held,
           Tree.Unused;
      assert tree.TableOk(r);
      EntryPresence(pm.words[..], tree, r);
      ExtendedSame(Snap(), Snap(), {r});
      NothingPaid(Snap(), Snap());
      if !Present(pm.words[cell]) {
        if !create {
          return false;
        }
        ok := NewTable(cell, r);
        return;
      }
      return true;
    }

    /** Allocates an empty table and links it into an empty entry. */
    method NewTable(cell: nat, ghost r: Region) returns (ok: bool)
      requires Valid() && stale == {}
      requires 1 <= r.level <= 3 && r.Parent() in tree.tables && cell == CellOf(tree, r)
      requires r !in tree.entries
      modifies this`tree, pm`pageFreeList, pm`free, pm`owned, pm.pages, pm.words, pm.bytes
      ensures Valid()
      ensures ok <==> old(pm.free) != []
      ensures ok ==> r in tree.tables
      ensures !ok ==> pm.free == old(pm.free) && tree == old(tree)
      ensures Extended(old(Snap()), Snap(), {r})
      ensures Paid(old(Snap()), Snap())
    {
      hide Partition, Listed, Counted, InMemory, AllEncodable, BlocksKept, Extended, Paid, Allocated, Weight,
           Tree.Unaliased, Tree.Held, Tree.Unused, Encodable, Grew, Present, Tree.Refs;
      EntryPresence(pm.words[..], tree, r);
      var page := pm.PageAlloc(true, false);
      SmallAllocation(pm.npages, old(pm.free), old(pm.owned), page, pm.free, pm.owned);
      if page == NIL {
        assert pm.words[..] == old(pm.words[..]);
        CountedSame(old(pm.pages[..]), pm.pages[..], tree);
        assert pm.bytes[..] == old(pm.bytes[..]);
        ExtendedSame(old(Snap()), Snap(), {r});
        NothingPaid(old(Snap()), Snap());
        return false;
      }
      pm.SetRef(page, pm.pages[page].ppRef + 1);
      pm.words[cell] := Or(Or(Or(Page2Pa(page), PAGE_PRESENT), PAGE_USER), PAGE_WRITE);
      LinkWord(page);
      tree := tree.AddTable(r, page, Entry(page, LINK_PERM, false));
      TableAdded(old(Snap()), Snap(), r, page, pm.npages, pm.free, old(pm.words[..]), pm.words[..]);
      return true;
    }

    /** The word that holds the entry for the page of `va`: that of the leaf found, or, when asked to
        create, that of the small or huge leaf to be written. NIL when there is none. */
    method PageWalk(pml4: nat, va: nat, create: Create) returns (cell: int)
      requires Valid() && stale == {} && Region(pml4, 4, 0) in tree.tables
      requires create == CreateNormal ==> !tree.IsLeaf(RegionAt(pml4, Vpn(va), 1))
      modifies this`tree, pm`pageFreeList, pm`free, pm`owned, pm.pages, pm.words, pm.bytes
      ensures Valid()
      ensures create == Lookup ==> Snap() == old(Snap()) && pm.free == old(pm.free) && FoundLeaf(tree, pml4, va, cell)
      ensures create == CreateNormal && cell != NIL ==>
        && RegionAt(pml4, Vpn(va), 1) in tree.tables && RegionAt(pml4, Vpn(va), 0).Parent() in tree.tables
        && cell == CellOf(tree, RegionAt(pml4, Vpn(va), 0))
      ensures create == CreateHuge && cell != NIL ==>
        && RegionAt(pml4, Vpn(va), 2) in tree.tables && RegionAt(pml4, Vpn(va), 1).Parent() in tree.tables
        && cell == CellOf(tree, RegionAt(pml4, Vpn(va), 1))
      ensures create != Lookup && cell == NIL ==>
        pm.free == [] && RegionAt(pml4, Vpn(va), if create == CreateHuge then 2 else 1) !in tree.tables
      ensures RegionAt(pml4, Vpn(va), if create == CreateHuge then 2 else 1) in old(tree).tables ==>
        cell != NIL || create == Lookup
      ensures RegionAt(pml4, Vpn(va), if create == CreateHuge then 2 else 1) in old(tree).tables ==>
        Snap() == old(Snap()) && pm.free == old(pm.free)
      ensures Extended(old(Snap()), Snap(), PathOf(pml4, Vpn(va), create == CreateHuge))
      ensures Paid(old(Snap()), Snap())
    {
      hide Partition, Listed, Owns, Counted, InMemory, AllEncodable, BlocksKept, Extended, Grew, Tree.Unaliased,
           Tree.Held, Tree.Unused;
      ghost var vpn := Vpn(va);
      ghost var r1, r0 := RegionAt(pml4, vpn, 1), RegionAt(pml4, vpn, 0);
      PathRegions(pml4, vpn);
      IndicesAreFields(va);
      assert tree.TableOk(r1) && tree.EntryOk(r1);
      var entry := WalkToDirectory(pml4, va, create != Lookup);
      ExtendedMore(old(Snap()), Snap(), PathOf(pml4, vpn, true), PathOf(pml4, vpn, create == CreateHuge));
      if entry == NIL {
        MissingTable(tree, pml4, vpn);
        NoLowerTable(tree, pml4, vpn);
        return NIL;
      }
      ghost var v1 := Snap();
      DirectoryEntry(pm.words[..], tree, r1);
      ExtendedLeaf(old(Snap()), v1, PathOf(pml4, vpn, true), r1);
      if create != CreateHuge && !(create == Lookup && Huge(pm.words[entry])) {
        var ok := EntryInTable(entry, create != Lookup, r1);
        ExtendedTransitive(old(Snap()), v1, Snap(), PathOf(pml4, vpn, true), {r1});
        ExtendedCell(v1, Snap(), {r1}, r1);
        if !ok {
          MissingDirectory(tree, pml4, vpn);
          return NIL;
        }
        LinkedFrame(pm.words[..], tree, r1);
        entry := FrameOf(pm.words[entry]) * TABLE_ENTRIES + PageTableIndex(va);
      }
      ghost var r := if create == CreateHuge || (create == Lookup && tree.IsLeaf(r1)) then r1 else r0;
      ghost var ws := pm.words[..];
      EntryPresence(ws, tree, r);
      if !tree.IsLeaf(r1) {
        PresentLeaf(tree, pml4, vpn);
      }
      if !Present(pm.words[entry]) {
        if create == Lookup {
          return NIL;
        }
        pm.words[entry] := 0;
        assert pm.words[..] == ws;
      }
      return entry;
    }

    /** The upper half of the walk, down to the entry in the page directory. */
    method WalkToDirectory(pml4: nat, va: nat, create: bool) returns (cell: int)
      requires Valid() && stale == {} && Region(pml4, 4, 0) in tree.tables
      modifies this`tree, pm`pageFreeList, pm`free, pm`owned, pm.pages, pm.words, pm.bytes
      ensures Valid()
      ensures !create ==> Snap() == old(Snap()) && pm.free == old(pm.free)
      ensures cell == NIL ==> RegionAt(pml4, Vpn(va), 2) !in tree.tables && (create ==> pm.free == [])
      ensures RegionAt(pml4, Vpn(va), 2) in old(tree).tables ==>
        cell != NIL && Snap() == old(Snap()) && pm.free == old(pm.free)
      ensures cell != NIL ==>
        && RegionAt(pml4, Vpn(va), 2) in tree.tables && RegionAt(pml4, Vpn(va), 1).Parent() in tree.tables
        && cell == CellOf(tree, RegionAt(pml4, Vpn(va), 1))
      ensures Extended(old(Snap()), Snap(), PathOf(pml4, Vpn(va), true))
      ensures Paid(old(Snap()), Snap())
    {
      hide Partition, Listed, Owns, Counted, InMemory, AllEncodable, BlocksKept, Extended, Grew, Tree.Unaliased,
           Tree.Held, Tree.Unused;
      ghost var vpn := Vpn(va);
      PathRegions(pml4, vpn);
      IndicesAreFields(va);
      ghost var r3, r2 := RegionAt(pml4, vpn, 3), RegionAt(pml4, vpn, 2);
      assert tree.TableOk(Region(pml4, 4, 0)) && tree.EntryOk(r3) && tree.EntryOk(r2) && tree.TableOk(r2);
      var entry := pml4 * TABLE_ENTRIES + Pml4Index(va);
      var ok := EntryInTable(entry, create, r3);
      ghost var v1 := Snap();
      ExtendedCell(old(Snap()), v1, {r3}, r3);
      assert tree.TableOk(r2) && tree.EntryOk(r2);
      if !ok {
        ExtendedMore(old(Snap()), Snap(), {r3}, PathOf(pml4, vpn, true));
        return NIL;
      }
      LinkedFrame(pm.words[..], tree, r3);
      entry := FrameOf(pm.words[entry]) * TABLE_ENTRIES + PdptIndex(va);
      ok := EntryInTable(entry, create, r2);
      ExtendedTransitive(old(Snap()), v1, Snap(), {r3}, {r2});
      ExtendedCell(v1, Snap(), {r2}, r2);
      if !ok {
        return NIL;
      }
      LinkedFrame(pm.words[..], tree, r2);
      return FrameOf(pm.words[entry]) * TABLE_ENTRIES + PageDirIndex(va);
    }

    /** One step of a static mapping: a walk that creates tables, and the entry written without counting. */
    method MapStatic(pml4: nat, va: nat, pa: nat, perm: nat) returns (ok: bool)
      requires Valid() && stale == {} && Region(pml4, 4, 0) in tree.tables
      requires pa % PAGE_SIZE == 0 && pa / PAGE_SIZE < FRAME_LIMIT && IsPerm(perm)
      requires StaticAt(tree, pml4, Vpn(va))
      modifies this`tree, pm`pageFreeList, pm`free, pm`owned, pm.pages, pm.words, pm.bytes
      ensures Valid()
      ensures Region(pml4, 4, 0) in tree.tables
      ensures !ok ==> tree.Leaves() == old(tree).Leaves() && tree.fixed == old(tree).fixed && pm.free == []
      ensures ok ==> var r := RegionAt(pml4, Vpn(va), 0);
        && tree.Leaves() == old(tree).Leaves()[r := Entry(pa / PAGE_SIZE, perm, Huge(perm))]
        && tree.fixed == old(tree).fixed + {r}
      ensures RefsKept(old(pm.pages[..]), pm.pages[..], old(pm.owned)) && old(pm.owned) <= pm.owned
      ensures if ok then Built(old(Snap()), Snap(), PathOf(pml4, Vpn(va), false))
        else Short(old(Snap()), PathOf(pml4, Vpn(va), false))
    {
      hide Partition, Listed, Owns, Counted, AllEncodable, InMemory, Extended, Paid, Grew, Tree.Unaliased,
           Tree.Held, Tree.Unused, BlocksKept, Weight;
      ghost var r := RegionAt(pml4, Vpn(va), 0);
      PathRegions(pml4, Vpn(va));
      var addr := PageWalk(pml4, va, CreateNormal);
      ExtendedKeeps(old(Snap()), Snap(), PathOf(pml4, Vpn(va), false));
      WalkBuilds(old(Snap()), Snap(), pml4, Vpn(va), false);
      NoWeight();
      if addr == NIL {
        return false;
      }
      ghost var v1 := Snap();
      StaticStep(old(tree), tree, pm.words[..], r, pa / PAGE_SIZE, perm, pm.owned, pm.pages[..]);
      ghost var t, ws := tree, pm.words[..];
      FrameAddressRoundTrip(pa / PAGE_SIZE);
      pm.words[addr] := Or(Or(pa, perm), PAGE_PRESENT);
      tree := tree.AddFixed(r, Entry(pa / PAGE_SIZE, perm, Huge(perm)));
      WriteCell(ws, t, tree, {}, r, pm.words[..]);
      SameTables(old(Snap()), v1, Snap(), PathOf(pml4, Vpn(va), false));
      return true;
    }

    /** Maps a range of virtual addresses to a range of physical ones. The original does not test for
        a failed walk; here that ends the loop with the result false. */
    method BootMapRegion(pml4: nat, va: nat, size: nat, pa: nat, perm: nat) returns (ok: bool)
      requires Valid() && stale == {} && Region(pml4, 4, 0) in tree.tables
      requires va % PAGE_SIZE == 0 && size % PAGE_SIZE == 0 && pa % PAGE_SIZE == 0
      requires va + size < WORD_LIMIT && pa + size <= FRAME_LIMIT * PAGE_SIZE && IsPerm(perm)
      requires forall j :: 0 <= j < size / PAGE_SIZE ==> StaticAt(tree, pml4, VpnPlus(va, j))
      modifies this`tree, pm`pageFreeList, pm`free, pm`owned, pm.pages, pm.words, pm.bytes
      ensures Valid()
      ensures ok ==> tree.Leaves() == LinearMap(old(tree).Leaves(), pml4, va, pa / PAGE_SIZE, perm, size / PAGE_SIZE)
      ensures old(StaticOnly(tree, pml4)) && ok ==> StaticOnly(tree, pml4)
      ensures if ok then Built(old(Snap()), Snap(), TablesFor(pml4, va, size / PAGE_SIZE))
        else Short(old(Snap()), TablesFor(pml4, va, size / PAGE_SIZE))
      ensures Region(pml4, 4, 0) in tree.tables
      ensures RefsKept(old(pm.pages[..]), pm.pages[..], old(pm.owned)) && old(pm.owned) <= pm.owned
    {
      hide Partition, Listed, Owns, Counted, AllEncodable, InMemory, Tree.WellFormed, Tree.Unaliased, Tree.Held,
           Weight, StaticAt, RefsKept, Tree.Leaves, StaticOnly, Built, Short, TablesFor, PathOf;
      hide Vpn, VpnPlus, LinearMap;
      RefsSame(pm.pages[..], pm.owned);
      LinearMapStep(tree.Leaves(), pml4, va, pa / PAGE_SIZE, perm, 0);
      NothingBuilt(Snap(), pml4, va);
      var vi, pi := va, pa;
      ghost var n, total := 0, size / PAGE_SIZE;
      while vi < va + size
        invariant Valid() && stale == {} && Region(pml4, 4, 0) in tree.tables
        invariant n <= total && vi == va + n * PAGE_SIZE && pi == pa + n * PAGE_SIZE
        invariant forall j :: 0 <= j < total ==> StaticAt(tree, pml4, VpnPlus(va, j))
        invariant tree.Leaves() == LinearMap(old(tree).Leaves(), pml4, va, pa / PAGE_SIZE, perm, n)
        invariant RefsKept(old(pm.pages[..]), pm.pages[..], old(pm.owned)) && old(pm.owned) <= pm.owned
        invariant old(StaticOnly(tree, pml4)) ==> StaticOnly(tree, pml4)
        invariant Built(old(Snap()), Snap(), TablesFor(pml4, va, n))
      {
        ghost var t, ps, owned, v := tree, pm.pages[..], pm.owned, Snap();
        LinearMapStep(old(tree).Leaves(), pml4, va, pa / PAGE_SIZE, perm, n + 1);
        PageAhead(va, pa, n);
        ok := MapStatic(pml4, vi, pi, perm);
        RefsKeptTransitive(old(pm.pages[..]), ps, pm.pages[..], old(pm.owned), owned);
        NextTables(pml4, va, n, total);
        if !ok {
          ShortLater(old(Snap()), v, TablesFor(pml4, va, n), PathOf(pml4, Vpn(vi), false), TablesFor(pml4, va, total));
          return;
        }
        BuiltTransitive(old(Snap()), v, Snap(), TablesFor(pml4, va, n), PathOf(pml4, Vpn(vi), false));
        StillStatic(t, tree, pml4, Vpn(vi));
        assert forall j :: 0 <= j < total ==> StaticAt(t, pml4, VpnPlus(va, j));
        vi, pi := vi + PAGE_SIZE, pi + PAGE_SIZE;
        n := n + 1;
      }
      return true;
    }

    /** The frame mapped at `va` and the word that maps it; NIL when nothing is. */
    method PageLookup(pml4: nat, va: nat) returns (page: int, cell: int)
      requires Valid() && stale == {} && Region(pml4, 4, 0) in tree.tables
      modifies this`tree, pm`pageFreeList, pm`free, pm`owned, pm.pages, pm.words, pm.bytes
      ensures Valid() && Snap() == old(Snap()) && pm.free == old(pm.free)
      ensures FoundLeaf(tree, pml4, va, cell)
      ensures page == match tree.LeafOf(pml4, Vpn(va)) case None => NIL case Some(r) => tree.entries[r].frame
    {
      hide Partition, Listed, Owns, Counted, Extended, Tree.Unaliased, Tree.Held;
      cell := PageWalk(pml4, va, Lookup);
      if cell != NIL {
        ghost var r := tree.LeafOf(pml4, Vpn(va)).value;
        assert tree.EntryOk(r);
        EntryPresence(pm.words[..], tree, r);
        EntryWords(tree, r);
      }
      if cell == NIL || pm.words[cell] == 0 {
        return NIL, cell;
      }
      page := FrameOf(pm.words[cell]);
    }

    /** Unmaps the page at `va`, if one is mapped, and drops the reference the mapping held. */
    method PageRemove(pml4: nat, va: nat)
      requires Valid() && stale == {} && Region(pml4, 4, 0) in tree.tables
      requires tree.LeafOf(pml4, Vpn(va)).Some? ==> tree.LeafOf(pml4, Vpn(va)).value !in tree.fixed
      modifies this`tree, pm`pageFreeList, pm`free, pm`owned, pm.pages, pm.words, pm.bytes
      ensures Valid()
      ensures pm.bytes[..] == old(pm.bytes[..])
      ensures match old(tree).LeafOf(pml4, Vpn(va))
        case None => Snap() == old(Snap()) && pm.free == old(pm.free)
        case Some(r) => r in old(tree).entries && Unmapped(old(Snap()), old(pm.free), r, Snap(), pm.free)
      ensures tree.Unused(pm.owned) == old(tree.Unused(pm.owned))
    {
      hide Partition, Listed, Owns, Counted, AllEncodable, InMemory, Extended, Tree.Unaliased, Tree.Held, Tree.Unused,
           Freed;
      var page, cell := PageLookup(pml4, va);
      if page == NIL {
        return;
      }
      ghost var r := tree.LeafOf(pml4, Vpn(va)).value;
      ghost var v, ws := Snap(), pm.words[..];
      LeafIsCounted(v.tree, pm.owned, v.pages, r);
      assert tree.EntryOk(r);
      EntryPresence(ws, tree, r);
      pm.PageDecref(page);
      pm.words[cell] := 0;
      RemoveStep(v.tree, r, v.owned, pm.owned, v.pages, pm.pages[..]);
      FreedByLeaf(v.tree, r, v.owned, pm.owned, v.pages);
      FreedKeepsUnused(v.tree, v.owned, v.tree.RemoveLeaf(r), pm.owned);
      WriteCell(ws, v.tree, v.tree.RemoveLeaf(r), {}, r, pm.words[..]);
      tree := tree.RemoveLeaf(r);
    }

    /** What the caller of an insertion has to see to: an allocated page that holds no table, no mixing
        of sizes, no static mapping in the way, and a re-inserted page that does not merge when
        its only mapping is dropped. */
    ghost predicate Insertable(pml4: nat, pp: nat, va: nat, perm: nat)
      reads this, pm, pm.pages
      requires pm.pages.Length == pm.npages
    {
      && pp < pm.npages && perm < PAGE_SIZE
      && Node(pp, pm.pages[pp].isHuge) in pm.owned
      && (forall r :: r in tree.tables ==> tree.tables[r] != pp)
      && pm.pages[pp].ppRef + 1 < REF_LIMIT
      && (pm.pages[pp].isHuge ==> Huge(perm) && RegionAt(pml4, Vpn(va), 1) !in tree.tables)
      && (!pm.pages[pp].isHuge ==> !tree.IsLeaf(RegionAt(pml4, Vpn(va), 1)))
      && (var r := Target(pml4, va, pm.pages[pp].isHuge);
          r in tree.entries ==>
            && r !in tree.fixed
            && (tree.entries[r].frame == pp && pm.pages[pp].ppRef == 1 ==>
                  !MergesInto(pm.free, Node(pp, pm.pages[pp].isHuge))))
    }

    /** Maps a page at `va`, replacing what was mapped there: 0, or -E_NO_MEM when a table
        could not be allocated. */
    method PageInsert(pml4: nat, pp: nat, va: nat, perm: nat) returns (err: int)
      requires Valid() && stale == {} && Region(pml4, 4, 0) in tree.tables
      requires Insertable(pml4, pp, va, perm)
      modifies this`tree, pm`pageFreeList, pm`free, pm`owned, pm.pages, pm.words, pm.bytes
      ensures Valid()
      ensures err == 0 || err == -E_NO_MEM
      ensures err != 0 <==> Short(old(Snap()), PathOf(pml4, Vpn(va), old(pm.pages[pp].isHuge)))
      ensures err == 0 ==> TablesAdded(old(tree), tree, PathOf(pml4, Vpn(va), old(pm.pages[pp].isHuge)))
      ensures tree.Unused(pm.owned) == old(tree.Unused(pm.owned)) -
        if err == 0 then {Node(pp, old(pm.pages[pp].isHuge))} else {}
      ensures err == 0 ==> Mapped(old(Snap()), Target(pml4, va, old(pm.pages[pp].isHuge)), pp, perm, Snap())
      ensures err != 0 ==>
        pm.free == [] && Extended(old(Snap()), Snap(), PathOf(pml4, Vpn(va), old(pm.pages[pp].isHuge)))
      ensures err != 0 ==> Insertable(pml4, pp, va, perm)
      ensures BlocksKept(old(pm.bytes[..]), pm.bytes[..], old(pm.owned))
    {
      hide Partition, Listed, Owns, Counted, AllEncodable, InMemory, Extended, Grew, Tree.Unaliased, Tree.Held,
           BlocksKept, Weight, Displaced, DisplacedSpan, Displaces, MergesInto, Tree.Unused, Built, Short,
           TablesAdded, PathOf;
      var huge := pm.pages[pp].isHuge;
      ghost var r := Target(pml4, va, huge);
      TargetLeaf(tree, pml4, va, huge);
      var cell := PageWalk(pml4, va, if huge then CreateHuge else CreateNormal);
      ghost var v1 := Snap();
      ExtendedKeeps(old(Snap()), v1, PathOf(pml4, Vpn(va), huge));
      NoWeight();
      WalkBuilds(old(Snap()), v1, pml4, Vpn(va), huge);
      if cell == NIL {
        BlockState(pm.npages, pm.pages[..], pm.pageFreeList, pm.free, pm.owned, Node(pp, huge));
        StillInsertable(old(Snap()), v1, pml4, va, huge, pp);
        return -E_NO_MEM;
      }
      BuiltIsNotShort(old(Snap()), v1, PathOf(pml4, Vpn(va), huge));
      BuiltAdds(old(Snap()), v1, PathOf(pml4, Vpn(va), huge));
      TargetAfterWalk(old(Snap()), v1, pml4, va, huge, pp);
      DisplacedAfterWalk(old(Snap()), v1, pml4, va, huge, pp);
      MapAt(pml4, pp, va, perm, cell, huge);
      return 0;
    }

    /** What an insertion does at the entry the walk has found. */
    method MapAt(pml4: nat, pp: nat, va: nat, perm: nat, cell: nat, ghost huge: bool)
      requires Valid() && stale == {} && Region(pml4, 4, 0) in tree.tables
      requires var r := Target(pml4, va, huge);
        && r.Parent() in tree.tables && cell == CellOf(tree, r)
        && (r in tree.entries ==>
              && tree.LeafOf(pml4, Vpn(va)) == Some(r)
              && r !in tree.fixed
              && (tree.entries[r].frame == pp && pm.pages[pp].ppRef == 1 ==> !MergesInto(pm.free, Node(pp, huge))))
      requires pp < pm.npages && perm < PAGE_SIZE && Node(pp, huge) in pm.owned && (huge ==> Huge(perm))
      requires forall p :: p in tree.tables ==> tree.tables[p] != pp
      modifies this`tree, pm`pageFreeList, pm`free, pm`owned, pm.pages, pm.words, pm.bytes
      ensures Valid() && pm.bytes[..] == old(pm.bytes[..]) && Node(pp, huge) in pm.owned
      ensures tree.tables == old(tree).tables && tree.fixed == old(tree).fixed
      ensures tree.Leaves() == old(tree).Leaves()[Target(pml4, va, huge) := Entry(pp, perm, Huge(perm))]
      ensures pm.owned == old(pm.owned) - Displaced(old(Snap()), Target(pml4, va, huge), pp)
      ensures Weight(pm.free) == old(Weight(pm.free)) + DisplacedSpan(old(Snap()), Target(pml4, va, huge), pp)
      ensures tree.Unused(pm.owned) == old(tree.Unused(pm.owned)) - {Node(pp, huge)}
    {
      hide Partition, Listed, Owns, Counted, AllEncodable, InMemory, Tree.Unaliased, Tree.Held, Weight, Displaced,
           DisplacedSpan, Displaces, MergesInto, Tree.Unused;
      ghost var r := Target(pml4, va, huge);
      Displace(pml4, pp, va, cell, huge);
      WriteEntry(cell, pp, perm, r);
    }

    /** Counts the new reference to a page and writes the entry for it into an empty cell. */
    method WriteEntry(cell: nat, pp: nat, perm: nat, ghost r: Region)
      requires Valid() && stale == {}
      requires r !in tree.entries && r.level <= 1 && r.Parent() in tree.tables && (r.level == 1 ==> Huge(perm))
      requires cell == CellOf(tree, r) && perm < PAGE_SIZE && pp < pm.npages
      requires Node(pp, r.level == 1) in pm.owned && forall p :: p in tree.tables ==> tree.tables[p] != pp
      modifies this`tree, pm.pages, pm.words
      ensures Valid()
      ensures tree == old(tree).AddLeaf(r, Entry(pp, perm, Huge(perm)))
      ensures tree.Leaves() == old(tree).Leaves()[r := Entry(pp, perm, Huge(perm))]
      ensures tree.Unused(pm.owned) == old(tree.Unused(pm.owned)) - {Node(pp, r.level == 1)}
    {
      hide Partition, Listed, Owns, Counted, AllEncodable, InMemory, Tree.Unaliased, Tree.Held, Weight, Tree.Unused;
      ghost var t, ps, ws := tree, pm.pages[..], pm.words[..];
      EntryPresence(ws, t, r);
      BlockState(pm.npages, ps, pm.pageFreeList, pm.free, pm.owned, Node(pp, r.level == 1));
      pm.SetRef(pp, pm.pages[pp].ppRef + 1);
      pm.words[cell] := Or(Or(Page2Pa(pp), perm), PAGE_PRESENT);
      AddLeafPoints(t, r, Entry(pp, perm, Huge(perm)));
      NewRefUnused(t, t.AddLeaf(r, Entry(pp, perm, Huge(perm))), pm.npages, pm.free, pm.owned, r,
                   Node(pp, r.level == 1));
      MapStep(t, r, pp, perm, pm.owned, ps, pm.pages[..]);
      tree := t.AddLeaf(r, Entry(pp, perm, Huge(perm)));
      WriteCell(ws, t, tree, {}, r, pm.words[..]);
    }

    /** Unmaps what the target entry maps, and takes the page back in case that freed it. */
    method Displace(pml4: nat, pp: nat, va: nat, cell: nat, ghost huge: bool)
      requires Valid() && stale == {} && Region(pml4, 4, 0) in tree.tables
      requires var r := Target(pml4, va, huge);
        && r.Parent() in tree.tables && cell == CellOf(tree, r)
        && (r in tree.entries ==>
              && tree.LeafOf(pml4, Vpn(va)) == Some(r)
              && r !in tree.fixed
              && (tree.entries[r].frame == pp && pm.pages[pp].ppRef == 1 ==> !MergesInto(pm.free, Node(pp, huge))))
      requires pp < pm.npages && Node(pp, huge) in pm.owned
      modifies this`tree, pm`pageFreeList, pm`free, pm`owned, pm.pages, pm.words, pm.bytes
      ensures Valid() && pm.bytes[..] == old(pm.bytes[..])
      ensures Target(pml4, va, huge) !in tree.entries
      ensures tree.tables == old(tree).tables && tree.fixed == old(tree).fixed
      ensures tree.Leaves() == old(tree).Leaves() - {Target(pml4, va, huge)}
      ensures Node(pp, huge) in pm.owned
      ensures pm.owned == old(pm.owned) - Displaced(old(Snap()), Target(pml4, va, huge), pp)
      ensures Weight(pm.free) == old(Weight(pm.free)) + DisplacedSpan(old(Snap()), Target(pml4, va, huge), pp)
      ensures tree.Unused(pm.owned) - {Node(pp, huge)} == old(tree.Unused(pm.owned)) - {Node(pp, huge)}
    {
      hide Partition, Listed, Owns, Counted, AllEncodable, InMemory, Extended, Grew, Tree.Unaliased, Tree.Held,
           BlocksKept, Weight, Unmapped, Displaced, DisplacedSpan, Displaces, Release, MergesInto,
           Tree.Unused;
      ghost var r, v0, free0 := Target(pml4, va, huge), Snap(), pm.free;
      EntryPresence(pm.words[..], tree, r);
      BlockState(pm.npages, pm.pages[..], pm.pageFreeList, pm.free, pm.owned, Node(pp, huge));
      OwnedNotFree(pm.npages, pm.free, pm.owned, Node(pp, huge));
      if pm.words[cell] == 0 {
        NothingDisplaced(v0, r, pp);
        return;
      }
      PageRemove(pml4, va);
      AfterRemoval(v0, free0, r, Snap(), pm.free, pp, huge);
      if Node(pp, huge) in pm.owned {
        OwnedNotFree(pm.npages, pm.free, pm.owned, Node(pp, huge));
      }
      BlockState(pm.npages, pm.pages[..], pm.pageFreeList, pm.free, pm.owned, Node(pp, huge));
      if pm.pages[pp].ppRef == 0 && pm.pages[pp].isAvailable {
        ghost var owned, ps := pm.owned, pm.pages[..];
        pm.Reclaim(pp, 0);
        OwnMoreSound(tree, owned, pm.owned);
        OwnMoreUnused(tree, owned, Node(pp, huge));
        CountedSame(ps, pm.pages[..], tree);
      }
    }

    /** Frees what hangs in one slot of a table: a page, or a table with all below it. The entry of a page is
        cleared; that of a table is left as it is. */
    method FreeSlot(table: nat, depth: nat, kernelSlot: nat, i: nat, ghost r: Region, ghost t0: Tree)
      requires Valid() && depth <= 3 && kernelSlot <= TABLE_ENTRIES && i < TABLE_ENTRIES
      requires r in tree.tables && r.level == depth + 1 && tree.tables[r] == table
      requires PrunedSlots(t0, tree, r, i) && UserTree(t0, r, if depth == 3 then kernelSlot else TABLE_ENTRIES)
      requires r.Child(i) !in stale && forall s :: s in stale ==> !Under(s, r.Child(i)) && s.Parent() != r.Child(i)
      modifies this`tree, this`stale, pm`pageFreeList, pm`free, pm`owned, pm.pages, pm.words
      ensures Valid()
      ensures r in tree.tables && tree.tables[r] == table
      ensures PrunedSlots(t0, tree, r, i + 1)
      ensures stale == old(stale) || stale == old(stale) + {r.Child(i)}
      ensures Freed(old(tree), old(pm.owned), tree, pm.owned)
      decreases depth, 0
    {
      hide Partition, Listed, Owns, Counted, AllEncodable, InMemory, Tree.Unaliased, Tree.Held, PrunedSlots,
           PrunedTree, UserTree, Freed;
      ghost var c, t := r.Child(i), tree;
      ParentChild(r, c, i);
      assert tree.EntryOk(c);
      EntryInPlace(pm.words[..], t, stale, c);
      if !Present(pm.words[table * TABLE_ENTRIES + i]) {
        PruneSkip(t0, t, r, i);
        FreedNothing(t, pm.owned);
        return;
      }
      SubtreeIsUser(t0, t, r, i, if depth == 3 then kernelSlot else TABLE_ENTRIES);
      EntryWords(t, c);
      if depth > 0 {
        assert t.TableOk(c);
        EnvFreePageTables(FrameOf(pm.words[table * TABLE_ENTRIES + i]), depth - 1, kernelSlot, c);
        KeepsTable(t, tree, r, i);
      } else {
        FreePage(table, i, r);
        KeepsTable(t, tree, r, i);
      }
      PruneStep(t0, t, tree, r, i);
    }

    /** Drops the page mapped by an entry of a lowest-level table and clears the entry. */
    method FreePage(table: nat, i: nat, ghost r: Region)
      requires Valid() && i < TABLE_ENTRIES
      requires r in tree.tables && r.level == 1 && tree.tables[r] == table
      requires r.Child(i) in tree.entries && r.Child(i) !in tree.fixed && r.Child(i) !in stale
      modifies this`tree, pm`pageFreeList, pm`free, pm`owned, pm.pages, pm.words
      ensures Valid()
      ensures PrunedTree(old(tree), tree, r.Child(i))
      ensures Freed(old(tree), old(pm.owned), tree, pm.owned)
    {
      hide Partition, Listed, Owns, Counted, AllEncodable, InMemory, Tree.Unaliased, Tree.Held;
      ghost var c, t, ps, owned, ws := r.Child(i), tree, pm.pages[..], pm.owned, pm.words[..];
      ParentChild(r, c, i);
      assert t.EntryOk(c);
      EntryInPlace(ws, t, stale, c);
      EntryWords(t, c);
      LeafIsCounted(t, owned, ps, c);
      var cell := table * TABLE_ENTRIES + i;
      pm.PageDecref(FrameOf(pm.words[cell]));
      pm.words[cell] := 0;
      RemoveStep(t, c, owned, pm.owned, ps, pm.pages[..]);
      FreedByLeaf(t, c, owned, pm.owned, ps);
      PruneLeaf(t, c);
      WriteCell(ws, t, t.RemoveLeaf(c), stale, c, pm.words[..]);
      tree := t.RemoveLeaf(c);
    }

    /** Drops the reference to an emptied table, which is its last, and so frees it. */
    method FreeTable(table: nat, ghost r: Region, ghost stale0: set<Region>, ghost max: nat)
      requires Valid()
      requires r in tree.tables && r !in tree.fixed && tree.tables[r] == table
      requires (forall s :: s in tree.entries ==> s.Parent() != r) && StaleSlots(stale0, stale, r, max)
      modifies this`tree, this`stale, pm`pageFreeList, pm`free, pm`owned, pm.pages, pm.words
      ensures Valid()
      ensures tree == old(tree).RemoveTable(r) && stale == stale0 + {r}
      ensures Freed(old(tree), old(pm.owned), tree, pm.owned)
    {
      hide Partition, Listed, Owns, Counted, AllEncodable, InMemory, Tree.WellFormed, Tree.Unaliased, Tree.Held,
           Freed;
      ghost var t, ps, owned := tree, pm.pages[..], pm.owned;
      TableIsCounted(t, owned, ps, r);
      pm.PageDecref(table);
      TableStep(t, r, owned, pm.owned, ps, pm.pages[..]);
      TableCells(pm.words[..], t, stale, stale0, r, max);
      tree := t.RemoveTable(r);
      stale := stale0 + {r};
    }

    /** Frees a page table, the tables below it and the pages they map, all by dropping references. */
    method EnvFreePageTables(table: nat, depth: nat, kernelSlot: nat, ghost r: Region)
      requires Valid() && depth <= 3 && kernelSlot <= TABLE_ENTRIES
      requires r in tree.tables && r.level == depth + 1 && tree.tables[r] == table
      requires UserTree(tree, r, if depth == 3 then kernelSlot else TABLE_ENTRIES)
      requires forall s :: s in stale ==> !Under(s, r) && s.Parent() != r
      modifies this`tree, this`stale, pm`pageFreeList, pm`free, pm`owned, pm.pages, pm.words
      ensures Valid()
      ensures PrunedTree(old(tree), tree, r)
      ensures stale == old(stale) + {r}
      ensures Freed(old(tree), old(pm.owned), tree, pm.owned)
      decreases depth, 1
    {
      hide Partition, Listed, Owns, Counted, AllEncodable, InMemory, Tree.WellFormed, Tree.Unaliased, Tree.Held,
           PrunedTree, PrunedSlots, UserTree, StaleSlots, Freed;
      var max := if depth == 3 then kernelSlot else TABLE_ENTRIES;
      ghost var t0, owned0, stale0 := tree, pm.owned, stale;
      UserTableIsCounted(t0, r, max);
      FreedNothing(t0, owned0);
      PrunedNothing(t0, r, stale0);
      var i := 0;
      while i < max
        invariant 0 <= i <= max && Valid()
        invariant PrunedSlots(t0, tree, r, i) && Freed(t0, owned0, tree, pm.owned)
        invariant r in tree.tables && tree.tables[r] == table
        invariant StaleSlots(stale0, stale, r, i)
      {
        ghost var t, owned, stale1 := tree, pm.owned, stale;
        StaleElsewhere(stale0, stale, r, i);
        FreeSlot(table, depth, kernelSlot, i, r, t0);
        StaleMore(stale0, stale1, stale, r, i);
        FreedTransitive(t0, owned0, t, owned, tree, pm.owned);
        i := i + 1;
      }
      NoMoreSlots(t0, tree, r, max);
      ghost var t1, owned1 := tree, pm.owned;
      PruneRoot(t0, tree, r, TABLE_ENTRIES);
      FreeTable(table, r, stale0, max);
      FreedTransitive(t0, owned0, t1, owned1, tree, pm.owned);
    }

    /** Frees a whole address space: afterwards no table and no entry of it is left, every other address
        space is untouched, and exactly the frames whose last reference was in it have become free. */
    method FreeAddressSpace(root: nat, kernelSlot: nat)
      requires Valid() && stale == {} && kernelSlot <= TABLE_ENTRIES
      requires Region(root, 4, 0) in tree.tables && UserTree(tree, Region(root, 4, 0), kernelSlot)
      modifies this`tree, this`stale, pm`pageFreeList, pm`free, pm`owned, pm.pages, pm.words
      ensures Valid() && stale == {}
      ensures Freed(old(tree), old(pm.owned), tree, pm.owned)
      ensures tree.Unused(pm.owned) == old(tree.Unused(pm.owned)) && tree.fixed == old(tree).fixed
      ensures forall s :: s in tree.tables <==> s in old(tree).tables && s.root != root
      ensures forall s :: s in tree.entries <==> s in old(tree).entries && s.root != root
      ensures forall s :: s in tree.tables ==> tree.tables[s] == old(tree).tables[s]
      ensures forall s :: s in tree.entries ==> tree.entries[s] == old(tree).entries[s]
    {
      hide Partition, Listed, Owns, Counted, AllEncodable, Tree.Unaliased, Tree.Held, UserTree, Freed, Tree.Unused,
           Tree.TableOk, Tree.EntryOk;
      ghost var r, t := Region(root, 4, 0), tree;
      TableFrame(t, r);
      EnvFreePageTables(root, 3, kernelSlot, r);
      FreedKeepsUnused(old(tree), old(pm.owned), tree, pm.owned);
      forall s | s in t.tables || s in t.entries ensures Under(s, r) <==> s.root == root {
        UnderRoot(t, s);
        if Under(s, r) {
          UnderSameRoot(s, r);
        }
      }
      assert Cell(pm.words[..], tree, r);
      stale := {};
    }
  }
}
