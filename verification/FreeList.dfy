/** The value the physical frame allocator computes with: the free list as a sequence of nodes,
    each standing for one 4 KiB frame or for 512 aligned ones, and what every allocator
    operation does to it. */
module FreeList {

  const SMALL_PAGES_IN_HUGE: nat := 512

  /** The null pointer, where frame numbers serve as pointers into the frame table. */
  const NIL: int := -1

  /** The element at position i of a chain of pointers, NIL beyond either end. */
  function LinkAt(chain: seq<nat>, i: int): int {
    if 0 <= i < |chain| then chain[i] else NIL
  }

  datatype Option<+T> = None | Some(value: T)

  datatype Node = Node(frame: nat, huge: bool) {
    function Span(): nat {
      if huge then SMALL_PAGES_IN_HUGE else 1
    }

    predicate Covers(f: nat) {
      frame <= f < frame + Span()
    }

    /** One of the 512 frames of the huge block at base. */
    predicate SmallIn(base: nat) {
      !huge && base <= frame < base + SMALL_PAGES_IN_HUGE
    }

    predicate Apart(other: Node) {
      frame + Span() <= other.frame || other.frame + other.Span() <= frame
    }
  }

  function RemoveAt<T>(s: seq<T>, k: nat): (r: seq<T>)
    requires k < |s|
  {
    s[..k] + s[k + 1..]
  }

  // ---- Partition of physical memory ----

  ghost predicate IsBlock(free: seq<Node>, owned: set<Node>, nd: Node) {
    nd in free || nd in owned
  }

  /** Frames 0 .. n are tiled by free nodes and allocated blocks. */
  ghost predicate Partition(n: nat, free: seq<Node>, owned: set<Node>) {
    && n % SMALL_PAGES_IN_HUGE == 0
    && (forall nd :: IsBlock(free, owned, nd) ==>
          nd.frame + nd.Span() <= n && (nd.huge ==> nd.frame % SMALL_PAGES_IN_HUGE == 0))
    && (forall a, b :: IsBlock(free, owned, a) && IsBlock(free, owned, b) && a != b ==> a.Apart(b))
    && (forall i, j :: 0 <= i < j < |free| ==> free[i] != free[j])
    && (forall nd :: nd in free ==> nd !in owned)
    && (forall f: nat :: f < n ==>
          IsBlock(free, owned, Node(f, false)) ||
          IsBlock(free, owned, Node(f - f % SMALL_PAGES_IN_HUGE, true)))
  }

  ghost predicate HugeAligned(free: seq<Node>) {
    forall nd :: nd in free && nd.huge ==> nd.frame % SMALL_PAGES_IN_HUGE == 0
  }

  /** Every frame is covered by one block and by no other, and that block is
      either on the free list, at one place, or allocated, never both. */
  lemma CoveredExactlyOnce(n: nat, free: seq<Node>, owned: set<Node>, f: nat) returns (nd: Node)
    requires Partition(n, free, owned) && f < n
    ensures IsBlock(free, owned, nd) && nd.Covers(f)
    ensures forall other :: IsBlock(free, owned, other) && other.Covers(f) ==> other == nd
    ensures nd in free <==> nd !in owned
    ensures forall i, j :: 0 <= i < |free| && 0 <= j < |free| && free[i] == nd && free[j] == nd ==> i == j
  {
    if IsBlock(free, owned, Node(f, false)) {
      nd := Node(f, false);
    } else {
      nd := Node(f - f % SMALL_PAGES_IN_HUGE, true);
    }
  }

  // ---- Weighted length ----

  /** The number of frames a sequence of nodes stands for. */
  function Weight(nodes: seq<Node>): (w: nat) {
    if nodes == [] then 0 else nodes[0].Span() + Weight(nodes[1..])
  }

  lemma {:induction false} WeightConcat(a: seq<Node>, b: seq<Node>)
    ensures Weight(a + b) == Weight(a) + Weight(b)
  {
    if a == [] {
      assert a + b == b;
    } else {
      WeightConcat(a[1..], b);
      assert (a + b)[1..] == a[1..] + b;
    }
  }

  lemma WeightRemoveAt(nodes: seq<Node>, k: nat)
    requires k < |nodes|
    ensures Weight(RemoveAt(nodes, k)) == Weight(nodes) - nodes[k].Span()
  {
    WeightConcat(nodes[..k], nodes[k..]);
    WeightConcat(nodes[..k], nodes[k + 1..]);
    assert nodes[..k] + nodes[k..] == nodes;
    assert nodes[k..][1..] == nodes[k + 1..];
  }

  lemma {:induction false} WeightOfSmall(nodes: seq<Node>)
    requires forall nd :: nd in nodes ==> !nd.huge
    ensures Weight(nodes) == |nodes|
  {
    if nodes != [] {
      assert nodes[0] in nodes;
      assert forall nd :: nd in nodes[1..] ==> nd in nodes;
      WeightOfSmall(nodes[1..]);
    }
  }

  /** n frames from a first one on. */
  ghost function Interval(from: nat, n: nat): (s: set<nat>)
    ensures forall f: nat {:trigger f in s} :: f in s <==> from <= f < from + n
    ensures |s| == n
    decreases n
  {
    if n == 0 then {} else Interval(from, n - 1) + {from + n - 1}
  }

  /** The frames that nodes stand for. */
  ghost function FramesOf(nodes: seq<Node>): set<nat> {
    if nodes == [] then {} else Interval(nodes[0].frame, nodes[0].Span()) + FramesOf(nodes[1..])
  }

  ghost predicate CoveredBy(nodes: seq<Node>, f: nat) {
    exists nd :: nd in nodes && nd.Covers(f)
  }

  lemma {:induction false} FramesOfCovers(nodes: seq<Node>, f: nat)
    ensures f in FramesOf(nodes) <==> CoveredBy(nodes, f)
  {
    if nodes != [] {
      FramesOfCovers(nodes[1..], f);
      CoveredByCons(nodes, f);
    }
  }

  lemma CoveredByCons(nodes: seq<Node>, f: nat)
    requires nodes != []
    ensures CoveredBy(nodes, f) <==> nodes[0].Covers(f) || CoveredBy(nodes[1..], f)
  {
    assert forall nd :: nd in nodes <==> nd == nodes[0] || nd in nodes[1..];
  }

  /** Nodes that do not overlap stand for as many frames as they weigh. */
  lemma {:induction false} WeightIsFrames(nodes: seq<Node>)
    requires forall i, j :: 0 <= i < j < |nodes| ==> nodes[i].Apart(nodes[j])
    ensures |FramesOf(nodes)| == Weight(nodes)
  {
    if nodes != [] {
      var head, rest := Interval(nodes[0].frame, nodes[0].Span()), nodes[1..];
      WeightIsFrames(rest);
      forall f: nat | f in FramesOf(rest) ensures f !in head {
        FramesOfCovers(rest, f);
        var nd :| nd in rest && nd.Covers(f);
        var j :| 0 <= j < |rest| && rest[j] == nd;
        assert nodes[0].Apart(nodes[j + 1]);
      }
      assert head !! FramesOf(rest);
    }
  }

  /** The free total is the number of frames that free nodes cover. */
  lemma WeightIsCoverage(n: nat, free: seq<Node>, owned: set<Node>, s: set<nat>)
    requires Partition(n, free, owned) && forall f: nat :: f in s <==> exists nd :: nd in free && nd.Covers(f)
    ensures Weight(free) == |s|
  {
    forall i, j | 0 <= i < j < |free| ensures free[i].Apart(free[j]) {
      assert IsBlock(free, owned, free[i]) && IsBlock(free, owned, free[j]);
    }
    hide Partition;
    WeightIsFrames(free);
    forall f: nat ensures f in FramesOf(free) <==> f in s {
      FramesOfCovers(free, f);
    }
    assert FramesOf(free) == s;
  }

  lemma {:induction false} FrameCount(blocks: set<Node>)
    requires forall nd :: nd in blocks ==> !nd.huge
    ensures |set nd | nd in blocks :: nd.frame| == |blocks|
    decreases |blocks|
  {
    if blocks != {} {
      var nd :| nd in blocks;
      var rest := blocks - {nd};
      FrameCount(rest);
      assert (set x | x in blocks :: x.frame) == (set x | x in rest :: x.frame) + {nd.frame};
      assert nd.frame !in set x | x in rest :: x.frame;
    }
  }

  /** When only single frames are allocated, the free total and their number make up all of memory. */
  lemma FreeAndOwned(n: nat, free: seq<Node>, owned: set<Node>)
    requires Partition(n, free, owned) && forall nd :: nd in owned ==> !nd.huge
    ensures Weight(free) + |owned| == n
  {
    var all, taken := Interval(0, n), set nd | nd in owned :: nd.frame;
    forall f: nat ensures f in all - taken <==> exists nd :: nd in free && nd.Covers(f) {
      FreeUnlessOwned(n, free, owned, f);
    }
    forall nd | nd in owned ensures nd.frame < n {
      assert IsBlock(free, owned, nd);
    }
    WeightIsCoverage(n, free, owned, all - taken);
    FrameCount(owned);
    assert taken <= all && |all - taken| == |all| - |taken|;
  }

  lemma FreeUnlessOwned(n: nat, free: seq<Node>, owned: set<Node>, f: nat)
    requires Partition(n, free, owned) && forall nd :: nd in owned ==> !nd.huge
    ensures (exists nd :: nd in free && nd.Covers(f)) <==> f < n && Node(f, false) !in owned
  {
    if nd :| nd in free && nd.Covers(f) {
      assert IsBlock(free, owned, nd);
      assert Node(f, false) in owned ==> IsBlock(free, owned, Node(f, false)) && !nd.Apart(Node(f, false));
    } else if f < n {
      var nd := CoveredExactlyOnce(n, free, owned, f);
    }
  }

  // ---- Allocation ----

  /** Position of the first node of the wanted size, or the length when there is none. */
  function FirstOf(nodes: seq<Node>, huge: bool): (k: nat)
    ensures k <= |nodes|
    ensures k < |nodes| ==> nodes[k].huge == huge
    ensures forall i :: 0 <= i < k ==> nodes[i].huge != huge
  {
    if nodes == [] then 0
    else if nodes[0].huge == huge then 0
    else 1 + FirstOf(nodes[1..], huge)
  }

  /** The n frames above base as small nodes in descending order. */
  function Descending(base: nat, n: nat): (r: seq<Node>)
    ensures |r| == n
    ensures forall i :: 0 <= i < n ==> r[i] == Node(base + n - i, false)
  {
    if n == 0 then [] else [Node(base + n, false)] + Descending(base, n - 1)
  }

  /** What is left of a huge node once its first frame is handed out: the other 511
      frames, in descending order. */
  function SplitRest(base: nat): (r: seq<Node>) {
    Descending(base, SMALL_PAGES_IN_HUGE - 1)
  }

  /** The block an allocation returns and the free list it leaves. */
  datatype Alloc = Alloc(block: Option<Node>, rest: seq<Node>)

  function Allocate(free: seq<Node>, huge: bool): (r: Alloc) {
    var k := FirstOf(free, huge);
    if k < |free| then Alloc(Some(free[k]), RemoveAt(free, k))
    else if huge || free == [] then Alloc(None, free)
    else Alloc(Some(Node(free[0].frame, false)), SplitRest(free[0].frame) + free[1..])
  }

  /** An allocation takes exactly the frames it hands out from the free list, a split loses
      none, and it fails only when no node of a fitting size is left. */
  lemma AllocateConserves(free: seq<Node>, huge: bool)
    ensures var r := Allocate(free, huge);
      && (r.block.Some? ==> r.block.value.huge == huge && Weight(r.rest) == Weight(free) - r.block.value.Span())
      && (r.block.None? ==> r.rest == free)
      && (r.block.None? <==> if huge then forall nd :: nd in free ==> !nd.huge else Weight(free) == 0)
  {
    var k := FirstOf(free, huge);
    if k < |free| {
      WeightRemoveAt(free, k);
      WeightRemoveAt(free, k);
      assert free[k] in free;
      if !huge { WeightPositive(free); }
    } else if !huge && free != [] {
      assert free[0].huge;
      WeightConcat(SplitRest(free[0].frame), free[1..]);
      WeightOfSmall(SplitRest(free[0].frame));
      WeightPositive(free);
    }
  }

  lemma WeightPositive(free: seq<Node>)
    requires free != []
    ensures Weight(free) > 0
  {
  }

  /** An allocation is served by the first node of the wanted size, and all other nodes stay as they are. */
  lemma ServedBySize(free: seq<Node>, huge: bool, k: nat)
    requires k < |free| && free[k].huge == huge && forall i :: 0 <= i < k ==> free[i].huge != huge
    ensures Allocate(free, huge) == Alloc(Some(free[k]), free[..k] + free[k + 1..])
    ensures forall nd: Node :: nd.huge != huge ==> (nd in Allocate(free, huge).rest <==> nd in free)
  {
    forall nd: Node | nd.huge != huge && nd in free ensures nd in free[..k] + free[k + 1..] {
      assert free == free[..k] + [free[k]] + free[k + 1..];
    }
  }

  /** Without a node of that size a huge request fails, and a small one takes the first huge node apart: it gets the
      first frame, and the other 511 stand in front of the list, the last one first. */
  lemma ServedBySplit(free: seq<Node>, huge: bool)
    requires forall nd :: nd in free ==> nd.huge != huge
    ensures huge || free == [] ==> Allocate(free, huge) == Alloc(None, free)
    ensures !huge && free != [] ==>
      var base, r := free[0].frame, Allocate(free, huge);
      && free[0].huge && r.block == Some(Node(base, false))
      && |r.rest| == |free| + 510 && r.rest[511..] == free[1..]
      && forall i :: 0 <= i < 511 ==> r.rest[i] == Node(base + 511 - i, false)
  {
    assert forall i :: 0 <= i < |free| ==> free[i] in free;
    assert FirstOf(free, huge) == |free|;
  }

  /** The frames of one huge block as 512 small nodes in ascending order. */
  function Run(base: nat): (r: seq<Node>)
    ensures |r| == SMALL_PAGES_IN_HUGE
    ensures forall i :: 0 <= i < |r| ==> r[i] == Node(base + i, false)
  {
    seq(SMALL_PAGES_IN_HUGE, i requires 0 <= i < SMALL_PAGES_IN_HUGE => Node(base + i, false))
  }

  /** The list reads base, base + 1, ..., base + 511 from its head, and base is aligned. */
  predicate StartsRun(free: seq<Node>, base: nat) {
    base % SMALL_PAGES_IN_HUGE == 0 && Run(base) <= free
  }

  /** The free list after `block` is given back. A small block merges with its neighbours only when
      it is the base of an aligned run that the list then starts with. */
  function Release(free: seq<Node>, block: Node): (r: seq<Node>) {
    var pushed := [block] + free;
    if !block.huge && StartsRun(pushed, block.frame)
    then [Node(block.frame, true)] + pushed[SMALL_PAGES_IN_HUGE..]
    else pushed
  }

  /** What a release does to the list: the block is put in front, and if it is a small frame at the base of an aligned
      run whose other 511 frames then follow it in ascending order, the run becomes one huge node. */
  lemma ReleaseMeaning(free: seq<Node>, block: Node)
    ensures Release(free, block) ==
      if !block.huge && block.frame % 512 == 0 && |free| >= 511 &&
         forall i :: 0 <= i < 511 ==> free[i] == Node(block.frame + 1 + i, false)
      then [Node(block.frame, true)] + free[511..]
      else [block] + free
  {
    var pushed := [block] + free;
    assert forall i :: 0 < i < |pushed| ==> pushed[i] == free[i - 1];
    assert |free| >= 511 ==> pushed[512..] == free[511..];
    if StartsRun(pushed, block.frame) {
      assert forall i :: 0 <= i < 511 ==> free[i] == pushed[i + 1] == Run(block.frame)[i + 1];
    }
    if |free| >= 511 && forall i :: 0 <= i < 511 ==> free[i] == Node(block.frame + 1 + i, false) {
      assert !block.huge ==> pushed[..512] == Run(block.frame);
    }
  }

  lemma ReleaseConserves(free: seq<Node>, block: Node)
    ensures Weight(Release(free, block)) == Weight(free) + block.Span()
  {
    var pushed := [block] + free;
    assert pushed[1..] == free;
    if !block.huge && StartsRun(pushed, block.frame) {
      var rest := pushed[SMALL_PAGES_IN_HUGE..];
      assert pushed == Run(block.frame) + rest;
      WeightConcat(Run(block.frame), rest);
      WeightOfSmall(Run(block.frame));
      assert ([Node(block.frame, true)] + rest)[1..] == rest;
    }
  }

  // ---- The partition is kept by every operation ----

  /** Moving a node from the free list to the allocated blocks. */
  lemma TakeKeepsPartition(n: nat, free: seq<Node>, owned: set<Node>, k: nat)
    requires Partition(n, free, owned) && k < |free|
    ensures Partition(n, RemoveAt(free, k), owned + {free[k]})
  {
    var free' := RemoveAt(free, k);
    var owned' := owned + {free[k]};
    forall nd ensures nd in free' <==> nd in free && nd != free[k] {
      if nd in free && nd != free[k] {
        var i :| 0 <= i < |free| && free[i] == nd;
        assert free'[if i < k then i else i - 1] == nd;
      }
    }
    assert forall nd :: IsBlock(free', owned', nd) <==> IsBlock(free, owned, nd);
  }

  /** Putting an allocated block back at the head of the free list. */
  lemma GiveKeepsPartition(n: nat, free: seq<Node>, owned: set<Node>, block: Node)
    requires Partition(n, free, owned) && block in owned
    ensures Partition(n, [block] + free, owned - {block})
  {
    assert forall nd :: IsBlock([block] + free, owned - {block}, nd) <==> IsBlock(free, owned, nd);
  }

  /** Replacing a free huge node by its first frame, allocated, and the other frames, free. */
  lemma SplitKeepsPartition(n: nat, rest: seq<Node>, owned: set<Node>, base: nat)
    requires Partition(n, [Node(base, true)] + rest, owned)
    ensures Partition(n, SplitRest(base) + rest, owned + {Node(base, false)})
  {
    var free, free' := [Node(base, true)] + rest, SplitRest(base) + rest;
    var owned' := owned + {Node(base, false)};
    SplitBlocks(n, rest, owned, base);
    SplitDistinct(n, rest, owned, base);
    forall a, b | IsBlock(free', owned', a) && IsBlock(free', owned', b) && a != b ensures a.Apart(b) {
      assert IsBlock(free, owned, a) && a != Node(base, true) ==> a.Apart(Node(base, true));
      assert IsBlock(free, owned, b) && b != Node(base, true) ==> b.Apart(Node(base, true));
    }
    forall f: nat | f < n
      ensures IsBlock(free', owned', Node(f, false)) ||
              IsBlock(free', owned', Node(f - f % SMALL_PAGES_IN_HUGE, true))
    {
      if !IsBlock(free, owned, Node(f, false)) {
        assert IsBlock(free, owned, Node(f - f % SMALL_PAGES_IN_HUGE, true));
      }
    }
  }

  lemma InTail(head: Node, rest: seq<Node>, nd: Node)
    requires forall i, j :: 0 <= i < j < |[head] + rest| ==> ([head] + rest)[i] != ([head] + rest)[j]
    ensures nd in rest <==> nd in [head] + rest && nd != head
  {
    if nd in rest {
      var i :| 0 <= i < |rest| && rest[i] == nd;
      assert ([head] + rest)[0] != ([head] + rest)[i + 1];
    }
  }

  lemma InSplitRest(base: nat, nd: Node)
    ensures nd in SplitRest(base) <==> !nd.huge && base < nd.frame < base + SMALL_PAGES_IN_HUGE
  {
    if !nd.huge && base < nd.frame < base + SMALL_PAGES_IN_HUGE {
      assert SplitRest(base)[base + SMALL_PAGES_IN_HUGE - 1 - nd.frame] == nd;
    }
  }

  /** The blocks after a split: the same, with the huge one exchanged for its 512 frames. */
  lemma SplitBlocks(n: nat, rest: seq<Node>, owned: set<Node>, base: nat)
    requires Partition(n, [Node(base, true)] + rest, owned)
    ensures IsBlock([Node(base, true)] + rest, owned, Node(base, true))
    ensures forall nd ::
      IsBlock(SplitRest(base) + rest, owned + {Node(base, false)}, nd) <==>
        (IsBlock([Node(base, true)] + rest, owned, nd) && nd != Node(base, true)) ||
        nd.SmallIn(base)
  {
    assert ([Node(base, true)] + rest)[0] == Node(base, true);
    forall nd
      ensures IsBlock(SplitRest(base) + rest, owned + {Node(base, false)}, nd) <==>
        (IsBlock([Node(base, true)] + rest, owned, nd) && nd != Node(base, true)) ||
        nd.SmallIn(base)
    {
      InTail(Node(base, true), rest, nd);
      InSplitRest(base, nd);
    }
  }

  lemma SplitDistinct(n: nat, rest: seq<Node>, owned: set<Node>, base: nat)
    requires Partition(n, [Node(base, true)] + rest, owned)
    ensures var free' := SplitRest(base) + rest;
      && (forall i, j :: 0 <= i < j < |free'| ==> free'[i] != free'[j])
      && (forall nd :: nd in free' ==> nd !in owned + {Node(base, false)})
  {
    var free, free' := [Node(base, true)] + rest, SplitRest(base) + rest;
    assert IsBlock(free, owned, free[0]);
    forall nd ensures nd in rest ==> nd.Apart(Node(base, true)) {
      InTail(Node(base, true), rest, nd);
      assert nd in free ==> IsBlock(free, owned, nd);
    }
    forall i, j | 0 <= i < j < |free'| ensures free'[i] != free'[j] {
      if |SplitRest(base)| <= j {
        assert free'[j] == rest[j - |SplitRest(base)|] == free[j - |SplitRest(base)| + 1];
        assert free'[j] in rest;
        if |SplitRest(base)| <= i {
          assert free'[i] == free[i - |SplitRest(base)| + 1];
        }
      }
    }
    forall nd | nd in free' ensures nd !in owned + {Node(base, false)} {
      InTail(Node(base, true), rest, nd);
      InSplitRest(base, nd);
      assert nd in owned ==> IsBlock(free, owned, nd);
      assert nd in owned && nd != Node(base, true) ==> nd.Apart(Node(base, true));
    }
  }

  lemma InRun(base: nat, nd: Node)
    ensures nd in Run(base) <==> nd.SmallIn(base)
  {
    if nd.SmallIn(base) {
      assert Run(base)[nd.frame - base] == nd;
    }
  }

  lemma RestOutsideRun(rest: seq<Node>, base: nat)
    requires var free := Run(base) + rest; forall i, j :: 0 <= i < j < |free| ==> free[i] != free[j]
    ensures forall nd :: nd in rest ==> !nd.SmallIn(base)
  {
    var free := Run(base) + rest;
    forall nd | nd in rest ensures !nd.SmallIn(base) {
      var i :| 0 <= i < |rest| && rest[i] == nd;
      assert free[i + SMALL_PAGES_IN_HUGE] == nd;
      assert forall k :: 0 <= k < SMALL_PAGES_IN_HUGE ==> free[k] == Run(base)[k] && free[k] != nd;
      assert nd !in Run(base);
      InRun(base, nd);
    }
  }

  /** The blocks after a merge: the same, with the 512 frames of the run exchanged for one huge block. */
  lemma MergeBlocks(n: nat, rest: seq<Node>, owned: set<Node>, base: nat)
    requires Partition(n, Run(base) + rest, owned) && base % SMALL_PAGES_IN_HUGE == 0
    ensures forall f :: base <= f < base + SMALL_PAGES_IN_HUGE ==> IsBlock(Run(base) + rest, owned, Node(f, false))
    ensures forall nd ::
      IsBlock([Node(base, true)] + rest, owned, nd) <==>
        nd == Node(base, true) ||
        (IsBlock(Run(base) + rest, owned, nd) && !nd.SmallIn(base))
    ensures forall nd :: nd in rest ==> !nd.SmallIn(base)
    ensures forall nd ::
      IsBlock(Run(base) + rest, owned, nd) && !nd.SmallIn(base) ==> nd.Apart(Node(base, true))
  {
    var free := Run(base) + rest;
    forall f | base <= f < base + SMALL_PAGES_IN_HUGE ensures IsBlock(free, owned, Node(f, false)) {
      InRun(base, Node(f, false));
    }
    RestOutsideRun(rest, base);
    hide Run;
    forall nd
      ensures IsBlock([Node(base, true)] + rest, owned, nd) <==>
        nd == Node(base, true) ||
        (IsBlock(free, owned, nd) && !nd.SmallIn(base))
    {
      InRun(base, nd);
      if nd.SmallIn(base) {
        assert nd in free;
      }
    }
    forall nd | IsBlock(free, owned, nd) && !nd.SmallIn(base)
      ensures nd.Apart(Node(base, true))
    {
      assert IsBlock(free, owned, Node(base, false));
      assert base <= nd.frame < base + SMALL_PAGES_IN_HUGE ==> IsBlock(free, owned, Node(nd.frame, false));
    }
  }

  lemma MergeDistinct(n: nat, rest: seq<Node>, owned: set<Node>, base: nat)
    requires Partition(n, Run(base) + rest, owned) && base % SMALL_PAGES_IN_HUGE == 0
    ensures base + SMALL_PAGES_IN_HUGE <= n
    ensures var free' := [Node(base, true)] + rest;
      && (forall i, j :: 0 <= i < j < |free'| ==> free'[i] != free'[j])
      && (forall nd :: nd in free' ==> nd !in owned)
  {
    var free, free' := Run(base) + rest, [Node(base, true)] + rest;
    MergeBlocks(n, rest, owned, base);
    assert IsBlock(free, owned, Node(base + (SMALL_PAGES_IN_HUGE - 1), false));
    assert !IsBlock(free, owned, Node(base, true)) by {
      assert IsBlock(free, owned, Node(base, false)) && !Node(base, false).Apart(Node(base, true));
    }
    forall i, j | 0 <= i < j < |free'| ensures free'[i] != free'[j] {
      assert free'[j] == rest[j - 1] == free[j + SMALL_PAGES_IN_HUGE - 1];
      assert free'[j] in rest;
      assert IsBlock(free, owned, free'[j]);
      if i > 0 {
        assert free'[i] == free[i + SMALL_PAGES_IN_HUGE - 1];
      }
    }
    forall nd | nd in free' ensures nd !in owned {
      assert nd in owned ==> IsBlock(free, owned, nd);
      assert nd in rest ==> nd in free;
    }
  }

  /** Replacing the 512 small free nodes of an aligned run by one huge node. */
  lemma MergeKeepsPartition(n: nat, rest: seq<Node>, owned: set<Node>, base: nat)
    requires Partition(n, Run(base) + rest, owned) && base % SMALL_PAGES_IN_HUGE == 0
    ensures Partition(n, [Node(base, true)] + rest, owned)
  {
    var free, free' := Run(base) + rest, [Node(base, true)] + rest;
    MergeBlocks(n, rest, owned, base);
    MergeDistinct(n, rest, owned, base);
    forall f: nat | f < n
      ensures IsBlock(free', owned, Node(f, false)) ||
              IsBlock(free', owned, Node(f - f % SMALL_PAGES_IN_HUGE, true))
    {
      if !Node(f, false).SmallIn(base) {
        assert IsBlock(free, owned, Node(f, false)) ==> IsBlock(free', owned, Node(f, false));
      }
    }
  }

  /** Merging the frames of an aligned block wherever they are in the list. */
  lemma MergeAnywhereKeepsPartition(n: nat, free: seq<Node>, free': seq<Node>, owned: set<Node>, base: nat)
    requires Partition(n, free, owned) && base % SMALL_PAGES_IN_HUGE == 0
    requires forall f :: base <= f < base + SMALL_PAGES_IN_HUGE ==> Node(f, false) in free
    requires forall nd :: nd in free' <==> nd == Node(base, true) || (nd in free && !nd.SmallIn(base))
    requires forall i, j :: 0 <= i < j < |free'| ==> free'[i] != free'[j]
    ensures Partition(n, free', owned)
  {
    assert IsBlock(free, owned, Node(base, false)) &&
      IsBlock(free, owned, Node(base + (SMALL_PAGES_IN_HUGE - 1), false));
    assert !Node(base, false).Apart(Node(base, true));
    assert !IsBlock(free, owned, Node(base, true));
    forall nd | IsBlock(free, owned, nd) && !nd.SmallIn(base) ensures nd.Apart(Node(base, true)) {
      assert base <= nd.frame < base + SMALL_PAGES_IN_HUGE ==> IsBlock(free, owned, Node(nd.frame, false));
    }
    forall nd
      ensures IsBlock(free', owned, nd) <==> nd == Node(base, true) || (IsBlock(free, owned, nd) && !nd.SmallIn(base))
    {
      assert nd.SmallIn(base) ==> nd in free;
    }
    forall f: nat | f < n
      ensures IsBlock(free', owned, Node(f, false)) ||
              IsBlock(free', owned, Node(f - f % SMALL_PAGES_IN_HUGE, true))
    {
      if !Node(f, false).SmallIn(base) {
        assert IsBlock(free, owned, Node(f, false)) ==> IsBlock(free', owned, Node(f, false));
      }
    }
  }

  /** A successful allocation keeps the partition. */
  lemma AllocateKeepsPartition(n: nat, free: seq<Node>, owned: set<Node>, huge: bool)
    requires Partition(n, free, owned) && Allocate(free, huge).block.Some?
    ensures var r := Allocate(free, huge);
      r.block.value !in owned && Partition(n, r.rest, owned + {r.block.value})
  {
    var k := FirstOf(free, huge);
    if k < |free| {
      TakeKeepsPartition(n, free, owned, k);
    } else {
      assert free == [Node(free[0].frame, true)] + free[1..];
      SplitKeepsPartition(n, free[1..], owned, free[0].frame);
      assert IsBlock(free, owned, free[0]);
      assert !Node(free[0].frame, false).Apart(free[0]);
    }
  }

  /** Giving back an allocated block keeps the partition, whether or not it merges. */
  lemma ReleaseKeepsPartition(n: nat, free: seq<Node>, owned: set<Node>, block: Node)
    requires Partition(n, free, owned) && block in owned
    ensures Partition(n, Release(free, block), owned - {block})
  {
    var pushed := [block] + free;
    GiveKeepsPartition(n, free, owned, block);
    if !block.huge && StartsRun(pushed, block.frame) {
      assert pushed == Run(block.frame) + pushed[SMALL_PAGES_IN_HUGE..];
      MergeKeepsPartition(n, pushed[SMALL_PAGES_IN_HUGE..], owned - {block}, block.frame);
    }
  }

  // ---- Split and merge undo each other ----

  /** Allocate k small frames in a row. */
  function AllocateMany(free: seq<Node>, k: nat): (r: (seq<nat>, seq<Node>))
    decreases k
  {
    if k == 0 then ([], free)
    else
      var one := Allocate(free, false);
      if one.block.None? then ([], free)
      else
        var more := AllocateMany(one.rest, k - 1);
        ([one.block.value.frame] + more.0, more.1)
  }

  /** Release the small frames base + k - 1, base + k - 2, ..., base, in this order. */
  function ReleaseDown(free: seq<Node>, base: nat, k: nat): (r: seq<Node>)
    decreases k
  {
    if k == 0 then free else ReleaseDown(Release(free, Node(base + k - 1, false)), base, k - 1)
  }

  lemma {:induction false} AllocateManyFromSmall(base: nat, rest: seq<Node>, k: nat)
    requires forall nd :: nd in rest ==> nd.huge
    ensures var r := AllocateMany(Descending(base, k) + rest, k);
      && r.1 == rest
      && |r.0| == k
      && (forall i :: 0 <= i < k ==> r.0[i] == base + k - i)
    decreases k
  {
    var free := Descending(base, k) + rest;
    if k == 0 {
      assert free == rest;
    } else {
      assert free[0] == Node(base + k, false);
      assert FirstOf(free, false) == 0;
      assert RemoveAt(free, 0) == Descending(base, k - 1) + rest;
      AllocateManyFromSmall(base, rest, k - 1);
    }
  }

  /** With only huge nodes free, 512 small allocations take the first huge node apart, frame by frame. */
  lemma AllocateManyTakesHead(base: nat, rest: seq<Node>)
    requires forall nd :: nd in rest ==> nd.huge
    ensures var r := AllocateMany([Node(base, true)] + rest, SMALL_PAGES_IN_HUGE);
      && r.1 == rest
      && |r.0| == SMALL_PAGES_IN_HUGE
      && r.0[0] == base
      && (forall i :: 1 <= i < SMALL_PAGES_IN_HUGE ==> r.0[i] == base + SMALL_PAGES_IN_HUGE - i)
  {
    var free := [Node(base, true)] + rest;
    assert free[0] == Node(base, true) && free[1..] == rest;
    assert forall i :: 1 <= i < |free| ==> free[i] == rest[i - 1] && rest[i - 1] in rest;
    var k := FirstOf(free, false);
    assert forall i :: 0 <= i < |free| ==> free[i].huge;
    assert k == |free|;
    var one := Allocate(free, false);
    assert one == Alloc(Some(Node(base, false)), SplitRest(base) + rest);
    AllocateManyFromSmall(base, rest, SMALL_PAGES_IN_HUGE - 1);
  }

  /** The part of Run(base) from position k on. */
  function RunFrom(base: nat, k: nat): (r: seq<Node>)
    requires k <= SMALL_PAGES_IN_HUGE
  {
    Run(base)[k..]
  }

  lemma {:induction false} ReleaseDownBuildsRun(rest: seq<Node>, base: nat, k: nat)
    requires 1 <= k <= SMALL_PAGES_IN_HUGE && base % SMALL_PAGES_IN_HUGE == 0
    ensures ReleaseDown(RunFrom(base, k) + rest, base, k) == [Node(base, true)] + rest
    decreases k
  {
    var free := RunFrom(base, k) + rest;
    var block := Node(base + k - 1, false);
    var pushed := [block] + free;
    assert pushed == RunFrom(base, k - 1) + rest;
    if k == 1 {
      assert RunFrom(base, 0) == Run(base);
      assert pushed[SMALL_PAGES_IN_HUGE..] == rest;
      assert ReleaseDown(Release(free, block), base, 0) == Release(free, block);
    } else {
      assert block.frame % SMALL_PAGES_IN_HUGE != 0;
      assert Release(free, block) == pushed;
      ReleaseDownBuildsRun(rest, base, k - 1);
    }
  }

  /** Split and merge are inverse: taking a huge node apart with 512 small allocations and
      releasing the frames in descending order restores the free list exactly. */
  lemma SplitThenMergeRestores(base: nat, rest: seq<Node>)
    requires base % SMALL_PAGES_IN_HUGE == 0
    requires forall nd :: nd in rest ==> nd.huge
    ensures var free := [Node(base, true)] + rest;
      ReleaseDown(AllocateMany(free, SMALL_PAGES_IN_HUGE).1, base, SMALL_PAGES_IN_HUGE) == free
  {
    AllocateManyTakesHead(base, rest);
    assert RunFrom(base, SMALL_PAGES_IN_HUGE) + rest == rest;
    ReleaseDownBuildsRun(rest, base, SMALL_PAGES_IN_HUGE);
  }

  /** Release the small frames base, base + 1, ..., base + k - 1, in this order. */
  function ReleaseUp(free: seq<Node>, base: nat, k: nat): (r: seq<Node>)
    decreases k
  {
    if k == 0 then free else Release(ReleaseUp(free, base, k - 1), Node(base + k - 1, false))
  }

  /** In ascending order nothing merges: the frames of the block end up on the list one by one, the last one first. */
  lemma {:induction false} ReleaseUpNeverMerges(rest: seq<Node>, base: nat, k: nat)
    requires k <= SMALL_PAGES_IN_HUGE && base % SMALL_PAGES_IN_HUGE == 0
    requires forall nd :: nd in rest ==> !nd.SmallIn(base)
    ensures var r := ReleaseUp(rest, base, k);
      |r| == k + |rest| && r[k..] == rest && forall i :: 0 <= i < k ==> r[i] == Node(base + k - 1 - i, false)
    decreases k
  {
    if k > 0 {
      ReleaseUpNeverMerges(rest, base, k - 1);
      var free, nd := ReleaseUp(rest, base, k - 1), Node(base + k - 1, false);
      FrameInBlock(base, k - 1);
      StartsNoRun(rest, base);
      assert k == 1 ==> free == rest;
      hide Run;
    }
  }

  lemma FrameInBlock(base: nat, i: nat)
    requires base % SMALL_PAGES_IN_HUGE == 0 && i < SMALL_PAGES_IN_HUGE
    ensures (base + i) % SMALL_PAGES_IN_HUGE == i
  {
  }

  lemma StartsNoRun(rest: seq<Node>, base: nat)
    requires forall nd :: nd in rest ==> !nd.SmallIn(base)
    ensures !(Run(base) <= [Node(base, false)] + rest)
  {
    if rest != [] {
      assert Run(base)[1].SmallIn(base) && ([Node(base, false)] + rest)[1] == rest[0];
    }
  }

  /** Any block can be free as a whole without being a huge node, and then cannot serve a huge allocation. */
  lemma FreeBlockNotMerged(base: nat)
    requires base % SMALL_PAGES_IN_HUGE == 0
    ensures var free := ReleaseUp([], base, SMALL_PAGES_IN_HUGE);
      && (forall f: nat :: base <= f < base + SMALL_PAGES_IN_HUGE ==> Node(f, false) in free)
      && Weight(free) == SMALL_PAGES_IN_HUGE && Allocate(free, true).block == None
  {
    hide ReleaseUp, Weight, Allocate;
    var free := ReleaseUp([], base, SMALL_PAGES_IN_HUGE);
    ReleaseUpNeverMerges([], base, SMALL_PAGES_IN_HUGE);
    assert forall f: nat :: base <= f < base + SMALL_PAGES_IN_HUGE ==>
      free[SMALL_PAGES_IN_HUGE - 1 - (f - base)] == Node(f, false);
    WeightOfSmall(free);
    AllocateConserves(free, true);
  }

  /** Freeing a frame twice: a block is taken apart and given back in descending order, which forms the huge node
      again, and then one of its upper frames is given back once more. The next two allocations overlap. */
  lemma DoubleFreeOverlaps(base: nat, f: nat, rest: seq<Node>)
    requires base % SMALL_PAGES_IN_HUGE == 0 && base < f < base + SMALL_PAGES_IN_HUGE
    requires forall nd :: nd in rest ==> nd.huge
    ensures var merged := ReleaseDown(AllocateMany([Node(base, true)] + rest, SMALL_PAGES_IN_HUGE).1, base,
                                      SMALL_PAGES_IN_HUGE);
      var small := Allocate(Release(merged, Node(f, false)), false);
      && small.block == Some(Node(f, false)) && Allocate(small.rest, true).block == Some(Node(base, true))
      && !Node(f, false).Apart(Node(base, true))
  {
    hide AllocateMany, ReleaseDown;
    SplitThenMergeRestores(base, rest);
    var merged, nd := [Node(base, true)] + rest, Node(f, false);
    FrameInBlock(base, f - base);
    assert Release(merged, nd) == [nd] + merged;
    assert RemoveAt([nd] + merged, 0) == merged;
  }

  // ---- A block given back and taken again ----

  /** Giving this block back would make it the base of a new huge node. */
  predicate MergesInto(free: seq<Node>, nd: Node) {
    !nd.huge && StartsRun([nd] + free, nd.frame)
  }

  /** Inserting a page where it is already mapped, and nowhere else, gives it back to the free list and takes
      its node off again. That leaves the list as it was exactly when the block does not merge on its way;
      when it does, the other 511 frames of the run leave the list with it. */
  lemma ReinsertionRestores(free: seq<Node>, nd: Node)
    ensures Release(free, nd) != [] && Release(free, nd)[0].frame == nd.frame
    ensures var again := RemoveAt(Release(free, nd), 0);
      && (again == free <==> !MergesInto(free, nd))
      && Weight(again) == Weight(free) - if MergesInto(free, nd) then SMALL_PAGES_IN_HUGE - 1 else 0
  {
    var again := RemoveAt(Release(free, nd), 0);
    ReleaseConserves(free, nd);
    WeightRemoveAt(Release(free, nd), 0);
    assert !MergesInto(free, nd) ==> again == free;
  }

  /** Such a loss: inserting the base of a block where it is mapped, with its other frames at the head of the list,
      takes the whole block off the list. */
  lemma ReinsertionLosesFrames(base: nat, rest: seq<Node>)
    requires base % SMALL_PAGES_IN_HUGE == 0
    ensures var free := Run(base)[1..] + rest;
      MergesInto(free, Node(base, false)) && RemoveAt(Release(free, Node(base, false)), 0) == rest
  {
    var free := Run(base)[1..] + rest;
    assert [Node(base, false)] + free == Run(base) + rest;
  }
}
