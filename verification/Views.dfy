/** What a user program can observe of its address space, and what paging in means on that view. */
module Views {
  import opened FreeList
  import opened Paging
  import opened Frames
  import opened Tree
  import opened PageTables
  import opened VmaSpec

  /** A mapped page as the program sees it: its permissions and its contents. */
  datatype PageView = PageView(perm: nat, bytes: seq<byte>)

  ghost function PageBytes(bs: seq<byte>, frame: nat): seq<byte> {
    if (frame + 1) * PAGE_SIZE <= |bs| then bs[frame * PAGE_SIZE..(frame + 1) * PAGE_SIZE] else []
  }

  /** All mapped pages of the address space with the given root. */
  ghost function ViewOf(t: Tree, root: nat, bs: seq<byte>): map<Region, PageView> {
    map r | r in t.Leaves() && r.root == root :: PageView(t.Leaves()[r].perm, PageBytes(bs, t.Leaves()[r].frame))
  }

  /** Only pages, no larger mappings, and none that is static. */
  ghost predicate SmallOnly(t: Tree, root: nat) {
    forall r :: r in t.Leaves() && r.root == root ==> r.level == 0 && r !in t.fixed
  }

  /** Every mapped page lies in an area that a lookup finds, and has the permissions of that area. */
  ghost predicate CoherentIn(t: Tree, root: nat, areas: seq<Area>) {
    forall r :: r in t.Leaves() && r.root == root ==>
      PermAt(areas, r.index * PAGE_SIZE) == Some(t.Leaves()[r].perm)
  }

  /** Contents of mapped pages survive as long as allocated blocks keep theirs. */
  lemma ViewKept(t: Tree, root: nat, owned: set<Node>, bs: seq<byte>, bs': seq<byte>)
    requires t.Held(owned) && SmallOnly(t, root) && BlocksKept(bs, bs', owned)
    ensures ViewOf(t, root, bs') == ViewOf(t, root, bs)
  {
    forall r | r in t.Leaves() && r.root == root
      ensures PageBytes(bs', t.Leaves()[r].frame) == PageBytes(bs, t.Leaves()[r].frame)
    {
      var nd := Node(t.entries[r].frame, false);
      assert t.IsLeaf(r) && nd in owned;
      if (nd.frame + 1) * PAGE_SIZE <= |bs| {
        assert BlockBytes(bs', nd) == BlockBytes(bs, nd);
      }
    }
  }

  /** A mapping changes the view at one page. */
  lemma ViewMapped(v: Snapshot, v': Snapshot, root: nat, r: Region, pp: nat, perm: nat)
    requires v.tree.Held(v.owned) && SmallOnly(v.tree, root) && BlocksKept(v.bytes, v'.bytes, v.owned)
    requires Mapped(v, r, pp, perm, v') && r.root == root && r.level == 0 && r !in v.tree.fixed
    ensures SmallOnly(v'.tree, root)
    ensures ViewOf(v'.tree, root, v'.bytes) ==
      ViewOf(v.tree, root, v.bytes)[r := PageView(perm, PageBytes(v'.bytes, pp))]
  {
    hide BlocksKept, Displaced, DisplacedSpan, PageBytes, Huge;
    ViewKept(v.tree, root, v.owned, v.bytes, v'.bytes);
    var m, m' := ViewOf(v.tree, root, v.bytes), ViewOf(v'.tree, root, v'.bytes);
    assert ViewOf(v.tree, root, v'.bytes) == m;
    forall s ensures s in m' <==> s in m || s == r {
    }
    forall s | s in m' ensures m'[s] == if s == r then PageView(perm, PageBytes(v'.bytes, pp)) else m[s] {
      if s != r {
        assert m[s] == ViewOf(v.tree, root, v'.bytes)[s];
      }
    }
  }

  // ---- File-backed areas ----

  function Min(a: int, b: int): int { if a < b then a else b }

  /** Address x of the area has a byte in the file. */
  ghost predicate InFile(a: Area, x: int) {
    a.memVa <= x < a.memVa + Min(a.fileSize, a.memSize)
  }

  /** The byte a program expects at address x of an area: that of the file where the segment has file
      contents, and zero elsewhere. `image` is the kernel memory that holds the file. */
  ghost function SegmentByte(a: Area, image: int -> byte, x: int): byte {
    if a.kind == VmaBinary && InFile(a, x)
    then image(a.fileVa + (x - a.memVa))
    else 0
  }

  ghost function Content(a: Area, image: int -> byte, va: nat): (c: seq<byte>)
    ensures |c| == PAGE_SIZE
    ensures forall k :: 0 <= k < PAGE_SIZE ==> c[k] == SegmentByte(a, image, va + k)
  {
    seq(PAGE_SIZE, k => SegmentByte(a, image, va + k))
  }

  /** The area lies within its page-rounded segment, and its file addresses stay inside the
      64-bit address space over that range. */
  ghost predicate Backed(a: Area) {
    && a.perm < PAGE_SIZE
    && RoundDown(a.memVa) <= a.va && a.memVa + a.memSize <= USER_TOP && a.End() <= RoundUp(a.memVa + a.memSize)
    && (a.kind == VmaBinary ==>
          && a.memVa % PAGE_SIZE <= a.fileVa
          && a.fileVa + a.fileSize < WORD_LIMIT
          && a.fileVa + a.memSize + 2 * PAGE_SIZE < WORD_LIMIT)
  }

  /** The copy the fault handler makes for a page: `size` bytes from `src` to `dst`. */
  datatype Copy = Copy(dst: nat, src: nat, size: nat)

  /** The two windows, clipped to the page and to the file, as the fault handler computes them in
      64-bit arithmetic. */
  function Window(a: Area, va: nat): Copy
    requires a.memVa + a.memSize < WORD_LIMIT && a.fileVa + a.fileSize < WORD_LIMIT && va + PAGE_SIZE < WORD_LIMIT
  {
    var offset := Wrap(a.fileVa - a.memVa);
    Clip(a, va, Wrap(va + offset), Wrap(va + PAGE_SIZE + offset))
  }

  function Clip(a: Area, va: nat, start: nat, end: nat): Copy {
    var dstStart := if a.memVa < va then va else a.memVa;
    var dstEnd := if a.memVa + a.memSize > va + PAGE_SIZE then va + PAGE_SIZE else a.memVa + a.memSize;
    var srcStart := if a.fileVa < start then start else a.fileVa;
    var srcEnd := if a.fileVa + a.fileSize > end then end else a.fileVa + a.fileSize;
    if srcEnd <= srcStart then Copy(dstStart, srcStart, 0)
    else
      var srcSize := srcEnd - srcStart;
      var dstSize := Wrap(dstEnd - dstStart);
      Copy(dstStart, srcStart, if srcSize < dstSize then srcSize else dstSize)
  }

  /** The windows line up: what is copied is exactly the part of the page that has file contents, from
      exactly the place in the file where it lies. */
  lemma WindowIsExact(a: Area, va: nat)
    requires Backed(a) && a.kind == VmaBinary && a.va <= va && va + PAGE_SIZE <= a.End() && a.va % PAGE_SIZE == 0
    requires va % PAGE_SIZE == 0
    ensures va + PAGE_SIZE < WORD_LIMIT
    ensures var c := Window(a, va);
      && va <= c.dst && c.dst + c.size <= va + PAGE_SIZE
      && (c.size > 0 ==> c.src - c.dst == a.fileVa - a.memVa)
      && (forall x :: va <= x < va + PAGE_SIZE ==> (InFile(a, x) <==> c.dst <= x < c.dst + c.size))
  {
    hide Clip, InFile, RoundUp, RoundDown, Wrap;
    var d := a.fileVa - a.memVa;
    SegmentStart(a.memVa);
    PageInSegment(a.memVa, a.memVa + a.memSize, va);
    Wrapped(d, va);
    Wrapped(d, va + PAGE_SIZE);
    ClipIsExact(a, va, d);
  }

  lemma SegmentStart(start: nat)
    ensures start == RoundDown(start) + start % PAGE_SIZE
  {
  }

  lemma PageInSegment(start: nat, end: nat, va: nat)
    requires start <= end && va % PAGE_SIZE == 0 && RoundDown(start) <= va && end + PAGE_SIZE <= WORD_LIMIT
    requires va + PAGE_SIZE <= RoundUp(end)
    ensures start < va + PAGE_SIZE && (va < end || (start == end && va <= start))
  {
    RoundUpIsCeiling(end);
  }

  lemma ClipIsExact(a: Area, va: nat, d: int)
    requires d == a.fileVa - a.memVa && 0 <= va + d
    requires a.memVa < va + PAGE_SIZE && (va < a.memVa + a.memSize || (a.memSize == 0 && va <= a.memVa))
    requires a.memVa + a.memSize + PAGE_SIZE < WORD_LIMIT
    ensures var c := Clip(a, va, va + d, va + PAGE_SIZE + d);
      && va <= c.dst && c.dst + c.size <= va + PAGE_SIZE
      && (c.size > 0 ==> c.src - c.dst == d)
      && (forall x :: va <= x < va + PAGE_SIZE ==> (InFile(a, x) <==> c.dst <= x < c.dst + c.size))
  {
  }

  /** Adding a difference modulo 2^64 gives the true sum whenever that is in range. */
  lemma Wrapped(d: int, x: int)
    requires 0 <= x + d < WORD_LIMIT
    ensures Wrap(x + Wrap(d)) == x + d
  {
  }
}
