/** The physical memory manager: the table of page descriptors with the free list threaded
    through it, and the contents of the frames. */
module Frames {
  import opened FreeList
  import opened Paging

  newtype byte = x: int | 0 <= x < 256

  /** Frames are addressed with 32-bit signed integers in two places, so physical
      memory is limited to 2 GiB. */
  const MAX_FRAMES: nat := 0x8_0000
  const INT32_LIMIT: int := 0x8000_0000
  const REF_LIMIT: nat := 0x1_0000

  /** Conversion to the C type `int`. */
  function ToInt32(x: int): int {
    (x + INT32_LIMIT) % (2 * INT32_LIMIT) - INT32_LIMIT
  }

  /** A page descriptor. Links are frame numbers or NIL. */
  datatype PageInfo = PageInfo(ppLink: int, previous: int, isHuge: bool, ppRef: nat, isAvailable: bool)

  /** The frame at position i of the list, NIL beyond either end. */
  function FrameAt(free: seq<Node>, i: int): int {
    if 0 <= i < |free| then free[i].frame else NIL
  }

  ghost predicate OnList(free: seq<Node>, f: nat) {
    Node(f, false) in free || Node(f, true) in free
  }

  ghost predicate DistinctFrames(free: seq<Node>) {
    forall i, j :: 0 <= i < j < |free| ==> free[i].frame != free[j].frame
  }

  /** The descriptor of a list node: linked to its neighbours in both directions. */
  ghost predicate Threaded(ps: seq<PageInfo>, free: seq<Node>, i: nat)
    requires i < |free|
  {
    && free[i].frame < |ps|
    && ps[free[i].frame].ppLink == FrameAt(free, i + 1)
    && ps[free[i].frame].previous == FrameAt(free, i - 1)
    && ps[free[i].frame].isHuge == free[i].huge
    && ps[free[i].frame].isAvailable
  }

  ghost predicate Idle(info: PageInfo) {
    !info.isAvailable && info.ppLink == NIL && info.previous == NIL
  }

  /** The descriptors thread exactly the nodes of `free`, in this order and in both directions. */
  ghost predicate Listed(ps: seq<PageInfo>, head: int, free: seq<Node>) {
    && DistinctFrames(free)
    && (forall i :: 0 <= i < |free| ==> Threaded(ps, free, i))
    && head == FrameAt(free, 0)
    && (forall f :: 0 <= f < |ps| && !OnList(free, f) ==> Idle(ps[f]))
  }

  /** Descriptors of allocated blocks know their size; all other frames are unreferenced. */
  ghost predicate Owns(ps: seq<PageInfo>, owned: set<Node>) {
    && (forall nd :: nd in owned ==> nd.frame < |ps| && ps[nd.frame].isHuge == nd.huge)
    && (forall f :: 0 <= f < |ps| && Node(f, false) !in owned && Node(f, true) !in owned ==> ps[f].ppRef == 0)
  }

  class PhysicalMemory {
    const npages: nat
    const pages: array<PageInfo>
    /** The contents of the frames: 512 words each where a frame holds a page table, and
        4096 bytes each where it is mapped. */
    const words: array<nat>
    const bytes: array<byte>
    var pageFreeList: int
    ghost var free: seq<Node>
    ghost var owned: set<Node>

    ghost predicate Valid()
      reads this, pages
    {
      && npages <= MAX_FRAMES
      && pages.Length == npages
      && words.Length == npages * TABLE_ENTRIES
      && bytes.Length == npages * PAGE_SIZE
      && Partition(npages, free, owned)
      && Listed(pages[..], pageFreeList, free)
      && Owns(pages[..], owned)
    }

    /** The state mem_init leaves to page_init: nothing is on the list or referred to, and every frame
        counts as allocated. */
    constructor (n: nat)
      requires n % SMALL_PAGES_IN_HUGE == 0 && n <= MAX_FRAMES
      ensures Valid() && npages == n && free == [] && fresh(pages) && fresh(words) && fresh(bytes)
      ensures forall f: nat :: f < n ==> Node(f, false) in owned && pages[f].ppRef == 0
    {
      npages := n;
      pages := new PageInfo[n](_ => PageInfo(NIL, NIL, false, 0, false));
      words := new nat[n * TABLE_ENTRIES];
      bytes := new byte[n * PAGE_SIZE];
      pageFreeList, free, owned := NIL, [], set f: nat | f < n :: Node(f, false);
      new;
      var i := 0;
      while i < npages
        invariant 0 <= i <= npages
        invariant forall f :: 0 <= f < npages ==> pages[f] == PageInfo(NIL, NIL, false, 0, false)
        modifies pages
      {
        pages[i] := PageInfo(NIL, NIL, false, 0, false);
        i := i + 1;
      }
      SmallBlocksTile(n, owned);
    }

    /** Takes a listed descriptor off the free list. */
    method Unlink(cur: nat, ghost k: nat)
      requires Listed(pages[..], pageFreeList, free)
      requires k < |free| && free[k].frame == cur
      modifies this`pageFreeList, this`free, pages
      ensures free == RemoveAt(old(free), k)
      ensures Listed(pages[..], pageFreeList, free)
      ensures forall f :: 0 <= f < pages.Length ==>
        pages[f].ppRef == old(pages[f].ppRef) && pages[f].isHuge == old(pages[f].isHuge)
    {
      ghost var before := pages[..];
      assert Threaded(before, free, k);
      assert k > 0 ==> Threaded(before, free, k - 1);
      assert k + 1 < |free| ==> Threaded(before, free, k + 1);
      var info := pages[cur];
      if info.previous == NIL {
        pageFreeList := info.ppLink;
        if pageFreeList != NIL {
          pages[pageFreeList] := pages[pageFreeList].(previous := NIL);
        }
      } else {
        pages[info.previous] := pages[info.previous].(ppLink := info.ppLink);
        if info.ppLink != NIL {
          pages[info.ppLink] := pages[info.ppLink].(previous := info.previous);
        }
      }
      pages[cur] := pages[cur].(isAvailable := false, ppLink := NIL, previous := NIL);
      free := RemoveAt(free, k);
      UnlinkedIsListed(before, old(pageFreeList), old(free), k, pages[..], pageFreeList);
    }

    /** Links a descriptor in front of the free list and marks it available. */
    method Push(cur: nat)
      requires Listed(pages[..], pageFreeList, free)
      requires cur < pages.Length && !OnList(free, cur)
      modifies this`pageFreeList, this`free, pages
      ensures free == [Node(cur, old(pages[cur].isHuge))] + old(free)
      ensures pageFreeList == cur
      ensures Listed(pages[..], pageFreeList, free)
      ensures forall f :: 0 <= f < pages.Length ==>
        pages[f].ppRef == old(pages[f].ppRef) && pages[f].isHuge == old(pages[f].isHuge)
    {
      ghost var before := pages[..];
      assert |free| > 0 ==> Threaded(before, free, 0);
      if pageFreeList != NIL {
        pages[pageFreeList] := pages[pageFreeList].(previous := cur);
      }
      pages[cur] := pages[cur].(ppLink := pageFreeList);
      pageFreeList := cur;
      pages[cur] := pages[cur].(previous := NIL, isAvailable := true);
      free := [Node(cur, pages[cur].isHuge)] + free;
      PushedIsListed(before, old(free), cur, pages[..]);
    }

    /** Finds the first free node of the wanted size and takes it off the list. */
    method DeleteFromFree(huge: bool) returns (cur: int)
      requires Listed(pages[..], pageFreeList, free)
      modifies this`pageFreeList, this`free, pages
      ensures var k := FirstOf(old(free), huge);
        if k < |old(free)| then cur == old(free)[k].frame && free == RemoveAt(old(free), k)
        else cur == NIL && free == old(free) && pages[..] == old(pages[..]) && pageFreeList == old(pageFreeList)
      ensures Listed(pages[..], pageFreeList, free)
      ensures forall f :: 0 <= f < pages.Length ==>
        pages[f].ppRef == old(pages[f].ppRef) && pages[f].isHuge == old(pages[f].isHuge)
    {
      cur := pageFreeList;
      ghost var i := 0;
      while cur != NIL
        invariant 0 <= i <= |free| && cur == FrameAt(free, i)
        invariant forall j :: 0 <= j < i ==> free[j].huge != huge
        decreases |free| - i
      {
        assert Threaded(pages[..], free, i);
        if pages[cur].isHuge == huge {
          break;
        }
        cur := pages[cur].ppLink;
        i := i + 1;
      }
      if cur == NIL {
        return;
      }
      assert Threaded(pages[..], free, i);
      Unlink(cur, i);
    }

    /** Whether the 512 descriptors from hugeStart on are all available and each but the
        first is preceded in the free list by its neighbour in memory. */
    method CheckRun(hugeStart: nat) returns (fits: bool)
      requires hugeStart + SMALL_PAGES_IN_HUGE <= pages.Length
      ensures fits <==> NeighbourRun(pages[..], hugeStart)
    {
      var i := 0;
      while i < SMALL_PAGES_IN_HUGE
        invariant 0 <= i <= SMALL_PAGES_IN_HUGE
        invariant forall j :: 0 <= j < i ==> FollowsNeighbour(pages[..], hugeStart, j)
      {
        var cur := hugeStart + i;
        var prev := pages[cur].previous;
        FrameAddressRoundTrip(cur);
        if prev >= 0 { FrameAddressRoundTrip(prev); }
        if (cur != hugeStart && (prev < 0 || Page2Pa(prev) + PAGE_SIZE != Page2Pa(cur))) || !pages[cur].isAvailable {
          assert !FollowsNeighbour(pages[..], hugeStart, i);
          return false;
        }
        assert FollowsNeighbour(pages[..], hugeStart, i);
        i := i + 1;
      }
      return true;
    }

    /** The first frame of the huge block a frame lies in, found by stepping back. */
    method HugeStart(target: nat) returns (hugeStart: nat)
      requires target < MAX_FRAMES
      ensures hugeStart == target - target % SMALL_PAGES_IN_HUGE
    {
      FrameAddressRoundTrip(target);
      var addr := ToInt32(Page2Pa(target));
      ghost var steps := 0;
      while addr % (SMALL_PAGES_IN_HUGE * PAGE_SIZE) != 0
        invariant 0 <= steps <= target % SMALL_PAGES_IN_HUGE
        invariant addr == (target - steps) * PAGE_SIZE
        decreases addr
      {
        addr := addr - PAGE_SIZE;
        steps := steps + 1;
      }
      FrameAddressRoundTrip(target - steps);
      hugeStart := Pa2Page(addr);
    }

    /** Tries to form a huge node around a small frame that has just been pushed. */
    method MergeAfterFree(target: nat)
      requires pages.Length == npages <= MAX_FRAMES && npages % SMALL_PAGES_IN_HUGE == 0
      requires Listed(pages[..], pageFreeList, free) && HugeAligned(free)
      requires free != [] && free[0] == Node(target, false)
      modifies this`pageFreeList, this`free, pages
      ensures Listed(pages[..], pageFreeList, free) && (old(Valid()) ==> Valid())
      ensures free == if StartsRun(old(free), target)
                      then [Node(target, true)] + old(free)[SMALL_PAGES_IN_HUGE..] else old(free)
      ensures forall f :: 0 <= f < pages.Length ==> pages[f].ppRef == old(pages[f].ppRef)
    {
      RunIsLinkedInOrder(pages[..], pageFreeList, free, target);
      var hugeStart := HugeStart(target);
      var fits := CheckRun(hugeStart);
      if fits {
        ghost var rest := free[SMALL_PAGES_IN_HUGE..];
        assert free == Run(target) + rest;
        AbsorbRun(hugeStart);
        if old(Valid()) {
          MergeKeepsPartition(npages, rest, owned, target);
          OwnsAfterMerge(npages, rest, old(pages[..]), owned, target, pages[..]);
        }
      }
    }

    /** Unlinks the frames of a run but the first, which becomes a huge node. */
    method AbsorbRun(hugeStart: nat)
      requires Listed(pages[..], pageFreeList, free) && StartsRun(free, hugeStart)
      modifies this`pageFreeList, this`free, pages
      ensures Listed(pages[..], pageFreeList, free)
      ensures free == [Node(hugeStart, true)] + old(free)[SMALL_PAGES_IN_HUGE..]
      ensures hugeStart < pages.Length
      ensures forall f :: 0 <= f < pages.Length ==> pages[f].ppRef == old(pages[f].ppRef)
      ensures forall f :: 0 <= f < pages.Length && f != hugeStart ==> pages[f].isHuge == old(pages[f].isHuge)
    {
      ghost var rest := free[SMALL_PAGES_IN_HUGE..];
      assert free == Run(hugeStart) + rest;
      var i := 1;
      while i < SMALL_PAGES_IN_HUGE
        invariant 1 <= i <= SMALL_PAGES_IN_HUGE
        invariant free == [Node(hugeStart, false)] + old(free)[i..]
        invariant Listed(pages[..], pageFreeList, free)
        invariant forall f :: 0 <= f < pages.Length ==>
          pages[f].ppRef == old(pages[f].ppRef) && pages[f].isHuge == old(pages[f].isHuge)
      {
        assert free[1] == old(free)[i] == Run(hugeStart)[i];
        Unlink(hugeStart + i, 1);
        i := i + 1;
      }
      BecomeHuge(hugeStart, 0);
    }

    /** Turns the small node at position k into a huge one. */
    method BecomeHuge(base: nat, ghost k: nat)
      requires Listed(pages[..], pageFreeList, free) && k < |free| && free[k] == Node(base, false)
      modifies this`free, pages
      ensures Listed(pages[..], pageFreeList, free)
      ensures free == old(free)[k := Node(base, true)]
      ensures base < pages.Length && pages[..] == old(pages[..])[base := old(pages[base]).(isHuge := true)]
    {
      ghost var before := pages[..];
      assert Threaded(before, free, k);
      pages[base] := pages[base].(isHuge := true);
      free := free[k := Node(base, true)];
      GrownIsListed(before, pageFreeList, old(free), k, pages[..]);
    }

    /** Takes the huge node at the head of the list apart: its first frame is handed out, the
        others are pushed in ascending order. */
    method SplitHead() returns (page: nat)
      requires Listed(pages[..], pageFreeList, free) && free != []
      requires free[0].frame + SMALL_PAGES_IN_HUGE <= pages.Length
      requires forall f :: free[0].frame < f < free[0].frame + SMALL_PAGES_IN_HUGE ==> !OnList(free, f)
      modifies this`pageFreeList, this`free, pages
      ensures page == old(free)[0].frame
      ensures free == SplitRest(page) + old(free)[1..]
      ensures Listed(pages[..], pageFreeList, free)
      ensures forall f :: 0 <= f < pages.Length ==> pages[f].ppRef == old(pages[f].ppRef)
      ensures !pages[page].isHuge
      ensures forall f :: 0 <= f < pages.Length && !(page <= f < page + SMALL_PAGES_IN_HUGE) ==>
        pages[f].isHuge == old(pages[f].isHuge)
    {
      TailNotListed(free, SMALL_PAGES_IN_HUGE);
      page := DetachHead();
      PushInterior(page);
    }

    /** Pushes the frames of a block behind its first one, in ascending order. */
    method PushInterior(page: nat)
      requires Listed(pages[..], pageFreeList, free)
      requires page + SMALL_PAGES_IN_HUGE <= pages.Length
      requires forall f :: page < f < page + SMALL_PAGES_IN_HUGE ==> !OnList(free, f)
      modifies this`pageFreeList, this`free, pages
      ensures free == SplitRest(page) + old(free)
      ensures Listed(pages[..], pageFreeList, free)
      ensures forall f :: 0 <= f < pages.Length ==> pages[f].ppRef == old(pages[f].ppRef)
      ensures forall f :: 0 <= f < pages.Length && !(page < f < page + SMALL_PAGES_IN_HUGE) ==>
        pages[f].isHuge == old(pages[f].isHuge)
    {
      hide Listed, OnList, Descending;
      ghost var rest := free;
      NoneDescending(page, rest);
      var i := 1;
      while i < SMALL_PAGES_IN_HUGE
        invariant 1 <= i <= SMALL_PAGES_IN_HUGE
        invariant free == Descending(page, i - 1) + rest
        invariant Listed(pages[..], pageFreeList, free)
        invariant forall f :: 0 <= f < pages.Length ==> pages[f].ppRef == old(pages[f].ppRef)
        invariant forall f :: 0 <= f < pages.Length && !(page < f < page + i) ==>
          pages[f].isHuge == old(pages[f].isHuge)
      {
        NotYetPushed(page, rest, i);
        PrependSmall(page + i);
        OneMoreDescending(page, i, rest);
        i := i + 1;
      }
    }

    /** Unlinks the first node and makes its descriptor that of a small page. */
    method DetachHead() returns (page: nat)
      requires Listed(pages[..], pageFreeList, free) && free != []
      modifies this`pageFreeList, this`free, pages
      ensures page == old(free)[0].frame && page < pages.Length
      ensures free == old(free)[1..]
      ensures Listed(pages[..], pageFreeList, free)
      ensures forall f :: 0 <= f < pages.Length ==> pages[f].ppRef == old(pages[f].ppRef)
      ensures forall f :: 0 <= f < pages.Length ==>
        pages[f].isHuge == if f == page then false else old(pages[f].isHuge)
    {
      assert Threaded(pages[..], free, 0);
      page := pageFreeList;
      Unlink(page, 0);
      assert free == old(free)[1..];
      ghost var before := pages[..];
      assert !OnList(free, page);
      RelabelledIsListed(before, pageFreeList, free, page, false);
      pages[page] := pages[page].(isHuge := false);
      assert pages[..] == before[page := before[page].(isHuge := false)];
    }

    /** Links a frame in front of the list as a small node. */
    method PrependSmall(cur: nat)
      requires Listed(pages[..], pageFreeList, free)
      requires cur < pages.Length && !OnList(free, cur)
      modifies this`pageFreeList, this`free, pages
      ensures free == [Node(cur, false)] + old(free)
      ensures Listed(pages[..], pageFreeList, free)
      ensures forall f :: 0 <= f < pages.Length ==> pages[f].ppRef == old(pages[f].ppRef)
      ensures forall f :: 0 <= f < pages.Length && f != cur ==> pages[f].isHuge == old(pages[f].isHuge)
    {
      ghost var before := pages[..];
      pages[cur] := pages[cur].(isHuge := false);
      RelabelledIsListed(before, pageFreeList, free, cur, false);
      assert pages[..] == before[cur := before[cur].(isHuge := false)];
      Push(cur);
    }

    /** Zero-fills the frames of a block. */
    method Clear(page: nat, huge: bool)
      requires words.Length == npages * TABLE_ENTRIES && bytes.Length == npages * PAGE_SIZE
      requires page + Node(page, huge).Span() <= npages
      modifies words, bytes
      ensures forall a :: 0 <= a < words.Length ==>
        words[a] == if Node(page, huge).Covers(a / TABLE_ENTRIES) then 0 else old(words[a])
      ensures forall a :: 0 <= a < bytes.Length ==>
        bytes[a] == if Node(page, huge).Covers(a / PAGE_SIZE) then 0 else old(bytes[a])
    {
      var end := page + (if huge then SMALL_PAGES_IN_HUGE else 1);
      forall a | page * TABLE_ENTRIES <= a < end * TABLE_ENTRIES {
        words[a] := 0;
      }
      forall a | page * PAGE_SIZE <= a < end * PAGE_SIZE {
        bytes[a] := 0;
      }
    }

    /** Allocates a small or a huge page; NIL when none is free. */
    method PageAlloc(zero: bool, huge: bool) returns (page: int)
      requires Valid()
      modifies this`pageFreeList, this`free, this`owned, pages, words, bytes
      ensures Valid()
      ensures Allocated(npages, old(free), old(owned), huge, page, free, owned)
      ensures page == NIL <==> old(free) == [] || (huge && forall nd :: nd in old(free) ==> !nd.huge)
      ensures page == NIL ==> free == old(free) && owned == old(owned)
      ensures (exists nd :: nd in old(free) && nd.huge == huge) ==>
        exists k: nat ::
          && k < |old(free)| && old(free)[k] == Node(page, huge)
          && (forall i :: 0 <= i < k ==> old(free)[i].huge != huge)
          && free == old(free)[..k] + old(free)[k + 1..]
      ensures page != NIL && (forall nd :: nd in old(free) ==> nd.huge != huge) ==>
        && !huge && old(free)[0] == Node(page, true)
        && |free| == |old(free)| + 510 && free[511..] == old(free)[1..]
        && forall i :: 0 <= i < 511 ==> free[i] == Node(page + 511 - i, false)
      ensures forall f :: 0 <= f < npages ==> pages[f].ppRef == old(pages[f].ppRef)
      ensures forall a :: 0 <= a < words.Length ==>
        words[a] == if zero && page != NIL && Node(page, huge).Covers(a / TABLE_ENTRIES) then 0 else old(words[a])
      ensures forall a :: 0 <= a < bytes.Length ==>
        bytes[a] == if zero && page != NIL && Node(page, huge).Covers(a / PAGE_SIZE) then 0 else old(bytes[a])
      ensures BlocksKept(old(bytes[..]), bytes[..], old(owned))
    {
      hide Allocate, Listed, Owns, Partition;
      page := Take(huge);
      Served(npages, old(free), old(owned), huge, page, free, owned);
      if zero && page != NIL {
        AllocatedApart(npages, free, owned, old(owned), Node(page, huge));
        Clear(page, huge);
        ClearedApart(old(bytes[..]), bytes[..], old(owned), Node(page, huge));
      }
    }

    /** The list part of an allocation. */
    method Take(huge: bool) returns (page: int)
      requires Valid()
      modifies this`pageFreeList, this`free, this`owned, pages
      ensures Valid()
      ensures Allocated(npages, old(free), old(owned), huge, page, free, owned)
      ensures forall f :: 0 <= f < npages ==> pages[f].ppRef == old(pages[f].ppRef)
    {
      if pageFreeList == NIL {
        return NIL;
      }
      ghost var before := pages[..];
      page := DeleteFromFree(huge);
      if page != NIL {
        OwnsAfterTake(npages, old(free), owned, FirstOf(old(free), huge), before, pages[..]);
        owned := owned + {Node(page, huge)};
      } else if !huge {
        page := TakeFromHead();
      }
    }

    /** An allocation of a small page when only huge nodes are free. */
    method TakeFromHead() returns (page: nat)
      requires Valid() && free != [] && FirstOf(free, false) == |free|
      modifies this`pageFreeList, this`free, this`owned, pages
      ensures Valid()
      ensures Allocated(npages, old(free), old(owned), false, page, free, owned)
      ensures forall f :: 0 <= f < npages ==> pages[f].ppRef == old(pages[f].ppRef)
    {
      ghost var before := pages[..];
      InteriorNotListed(npages, free, owned);
      page := SplitHead();
      AllocateKeepsPartition(npages, old(free), owned, false);
      OwnsAfterSplit(npages, old(free), owned, before, pages[..]);
      owned := owned + {Node(page, false)};
    }

    /** Returns a page to the free list. The three misuses the original tests for make it
        panic, which is the result `true`. A frame inside a huge block passes these tests, and then
        two nodes of the list cover it, or a node and an allocated block. */
    method PageFree(pp: nat) returns (panicked: bool)
      requires Valid() && pp < npages
      modifies this`pageFreeList, this`free, this`owned, pages
      ensures Listed(pages[..], pageFreeList, free)
      ensures Valid() <==> panicked || Node(pp, old(pages[pp].isHuge)) in old(owned)
      ensures panicked <==> OnList(old(free), pp) || old(pages[pp].ppRef) != 0
      ensures panicked ==> free == old(free) && owned == old(owned) && pages[..] == old(pages[..])
      ensures !panicked ==>
        free == Release(old(free), Node(pp, old(pages[pp].isHuge))) &&
        owned == old(owned) - {Node(pp, old(pages[pp].isHuge))}
      ensures !panicked ==>
        free == if !old(pages[pp].isHuge) && pp % 512 == 0 && |old(free)| >= 511 &&
                   forall i :: 0 <= i < 511 ==> old(free)[i] == Node(pp + 1 + i, false)
                then [Node(pp, true)] + old(free)[511..]
                else [Node(pp, old(pages[pp].isHuge))] + old(free)
      ensures forall f :: 0 <= f < npages ==> pages[f].ppRef == old(pages[f].ppRef)
    {
      hide Partition, Listed, Owns, OnList, Release;
      ReleaseMeaning(free, Node(pp, pages[pp].isHuge));
      ListedIffAvailable(pages[..], pageFreeList, free, pp);
      if pages[pp].ppLink != NIL || pages[pp].ppRef != 0 || pages[pp].isAvailable {
        return true;
      }
      GiveBack(pp);
      return false;
    }

    /** Links a frame into the list and tries to form a huge node around it. */
    method GiveBack(pp: nat)
      requires Valid() && pp < npages && !OnList(free, pp) && pages[pp].ppRef == 0
      modifies this`pageFreeList, this`free, this`owned, pages
      ensures Listed(pages[..], pageFreeList, free)
      ensures Valid() <==> Node(pp, old(pages[pp].isHuge)) in old(owned)
      ensures free == Release(old(free), Node(pp, old(pages[pp].isHuge)))
      ensures owned == old(owned) - {Node(pp, old(pages[pp].isHuge))}
      ensures forall f :: 0 <= f < npages ==> pages[f].ppRef == old(pages[f].ppRef)
    {
      hide Partition, Listed, Owns, OnList, HugeAligned;
      ghost var block := Node(pp, pages[pp].isHuge);
      ReleaseIsSoundIff(npages, pages[..], free, owned, pp);
      Push(pp);
      if block in owned {
        GiveKeepsPartition(npages, old(free), owned, block);
        OwnsAfterGive(old(pages[..]), owned, block, pages[..]);
      }
      owned := owned - {block};
      if !pages[pp].isHuge {
        HugeNodesAligned(npages, old(free), old(owned), block);
        MergeAfterFree(pp);
      }
    }

    /** Drops one reference to an allocated page and frees it with the last one. */
    method PageDecref(pp: nat)
      requires Valid() && pp < npages && Node(pp, pages[pp].isHuge) in owned && pages[pp].ppRef > 0
      modifies this`pageFreeList, this`free, this`owned, pages
      ensures Valid()
      ensures forall f :: 0 <= f < npages ==>
        pages[f].ppRef == if f == pp then old(pages[f].ppRef) - 1 else old(pages[f].ppRef)
      ensures old(pages[pp].ppRef) > 1 ==>
        free == old(free) && owned == old(owned) && pages[pp].isHuge == old(pages[pp].isHuge)
      ensures old(pages[pp].ppRef) == 1 ==>
        free == Release(old(free), Node(pp, old(pages[pp].isHuge))) &&
        owned == old(owned) - {Node(pp, old(pages[pp].isHuge))}
    {
      SetRef(pp, pages[pp].ppRef - 1);
      if pages[pp].ppRef == 0 {
        OneNodePerFrame(npages, free, owned, Node(pp, pages[pp].isHuge));
        var panicked := PageFree(pp);
      }
    }

    /** Takes a particular block back from the free list. */
    method Reclaim(pp: nat, ghost k: nat)
      requires Valid() && k < |free| && free[k].frame == pp
      modifies this`pageFreeList, this`free, this`owned, pages
      ensures Valid()
      ensures free == RemoveAt(old(free), k) && owned == old(owned) + {old(free)[k]}
      ensures forall f :: 0 <= f < npages ==> pages[f].ppRef == old(pages[f].ppRef)
    {
      ghost var before := pages[..];
      Unlink(pp, k);
      OwnsAfterTake(npages, old(free), owned, k, before, pages[..]);
      owned := owned + {old(free)[k]};
    }

    /** Sets the reference count of an allocated page. */
    method SetRef(pp: nat, count: nat)
      requires Valid() && pp < npages && Node(pp, pages[pp].isHuge) in owned
      modifies pages
      ensures Valid()
      ensures pages[..] == old(pages[..])[pp := old(pages[pp]).(ppRef := count)]
    {
      ghost var before := pages[..];
      pages[pp] := pages[pp].(ppRef := count);
      CountedIsListed(npages, before, pageFreeList, free, owned, pp, count);
      assert pages[..] == before[pp := before[pp].(ppRef := count)];
    }
  }

  /** The contents of a block. */
  ghost function BlockBytes(bs: seq<byte>, nd: Node): seq<byte>
    requires (nd.frame + nd.Span()) * PAGE_SIZE <= |bs|
  {
    bs[nd.frame * PAGE_SIZE..(nd.frame + nd.Span()) * PAGE_SIZE]
  }

  /** The contents of the given blocks have not changed. */
  ghost predicate BlocksKept(bs: seq<byte>, bs': seq<byte>, owned: set<Node>) {
    && |bs'| == |bs|
    && forall nd :: nd in owned && (nd.frame + nd.Span()) * PAGE_SIZE <= |bs| ==>
         BlockBytes(bs', nd) == BlockBytes(bs, nd)
  }

  lemma AllocatedApart(n: nat, free: seq<Node>, owned: set<Node>, before: set<Node>, block: Node)
    requires Partition(n, free, owned) && owned == before + {block} && block !in before
    ensures block.frame + block.Span() <= n
    ensures forall nd :: nd in before ==> nd.Apart(block)
  {
    assert IsBlock(free, owned, block);
    forall nd | nd in before ensures nd.Apart(block) {
      assert IsBlock(free, owned, nd);
    }
  }

  lemma ClearedApart(bs: seq<byte>, bs': seq<byte>, before: set<Node>, block: Node)
    requires |bs'| == |bs|
    requires forall nd :: nd in before ==> nd.Apart(block)
    requires forall a :: 0 <= a < |bs| && !block.Covers(a / PAGE_SIZE) ==> bs'[a] == bs[a]
    ensures BlocksKept(bs, bs', before)
  {
    forall nd | nd in before && (nd.frame + nd.Span()) * PAGE_SIZE <= |bs|
      ensures BlockBytes(bs', nd) == BlockBytes(bs, nd)
    {
      forall a | nd.frame * PAGE_SIZE <= a < (nd.frame + nd.Span()) * PAGE_SIZE ensures bs'[a] == bs[a] {
        assert nd.Covers(a / PAGE_SIZE);
      }
    }
  }

  lemma TailNotListed(free: seq<Node>, span: nat)
    requires free != [] && forall f :: free[0].frame < f < free[0].frame + span ==> !OnList(free, f)
    ensures forall f :: free[0].frame < f < free[0].frame + span ==> !OnList(free[1..], f)
  {
    forall f: nat | free[0].frame < f < free[0].frame + span ensures !OnList(free[1..], f) {
      assert !OnList(free, f);
      OnListCons(free[0], free[1..], f);
      assert [free[0]] + free[1..] == free;
    }
  }

  lemma InteriorNotListed(n: nat, free: seq<Node>, owned: set<Node>)
    requires Partition(n, free, owned) && free != [] && free[0].huge
    ensures free[0].frame + SMALL_PAGES_IN_HUGE <= n
    ensures forall f :: free[0].frame < f < free[0].frame + SMALL_PAGES_IN_HUGE ==> !OnList(free, f)
  {
    assert IsBlock(free, owned, free[0]);
    forall f: nat, h: bool | free[0].frame < f < free[0].frame + SMALL_PAGES_IN_HUGE ensures Node(f, h) !in free {
      assert !Node(f, h).Apart(free[0]);
      assert Node(f, h) in free ==> IsBlock(free, owned, Node(f, h));
    }
  }

  /** A frame is available exactly when it is on the list, and then its descriptor tells the size of its node.
      It has a successor link exactly when it is on the list and not last. */
  lemma ListedIffAvailable(ps: seq<PageInfo>, head: int, free: seq<Node>, pp: nat)
    requires Listed(ps, head, free) && pp < |ps|
    ensures Node(pp, ps[pp].isHuge) in free <==> OnList(free, pp)
    ensures ps[pp].isAvailable <==> OnList(free, pp)
    ensures ps[pp].ppLink != NIL <==> OnList(free, pp) && free[|free| - 1].frame != pp
  {
    if OnList(free, pp) {
      var i := OnListAt(free, pp);
      assert Threaded(ps, free, i);
    }
  }

  lemma HugeNodesAligned(n: nat, free: seq<Node>, owned: set<Node>, block: Node)
    requires Partition(n, free, owned) && !block.huge
    ensures n % SMALL_PAGES_IN_HUGE == 0 && HugeAligned([block] + free)
  {
    forall nd | nd in [block] + free && nd.huge ensures nd.frame % SMALL_PAGES_IN_HUGE == 0 {
      assert IsBlock(free, owned, nd);
    }
  }

  /** The block that covers a frame which is not on the list: the frame's own, if its descriptor says so, or a huge
      block it lies in, and then the frame is not its base or the block is allocated. */
  lemma UnlistedFrame(n: nat, ps: seq<PageInfo>, free: seq<Node>, owned: set<Node>, f: nat)
    requires Partition(n, free, owned) && |ps| == n && Owns(ps, owned) && f < n && !OnList(free, f)
    requires Node(f, ps[f].isHuge) !in owned
    ensures var base := f - f % SMALL_PAGES_IN_HUGE;
      base < f && IsBlock(free, owned, Node(base, true)) && f % SMALL_PAGES_IN_HUGE != 0
  {
    assert !IsBlock(free, owned, Node(f, false));
  }

  /** Giving back a frame that is not on the list keeps the tiling exactly when it is an allocated block. */
  lemma ReleaseIsSoundIff(n: nat, ps: seq<PageInfo>, free: seq<Node>, owned: set<Node>, f: nat)
    requires Partition(n, free, owned) && |ps| == n && Owns(ps, owned) && f < n && !OnList(free, f)
    ensures var nd := Node(f, ps[f].isHuge); Partition(n, Release(free, nd), owned - {nd}) <==> nd in owned
  {
    hide Owns, OnList;
    var nd := Node(f, ps[f].isHuge);
    if nd in owned {
      ReleaseKeepsPartition(n, free, owned, nd);
    } else {
      UnlistedFrame(n, ps, free, owned, f);
      var huge := Node(f - f % SMALL_PAGES_IN_HUGE, true);
      var free' := Release(free, nd);
      assert free' == [nd] + free;
      assert free'[0] == nd && IsBlock(free', owned - {nd}, nd) && IsBlock(free', owned - {nd}, huge);
      assert !nd.Apart(huge);
    }
  }

  /** After a merge the upper frames of the block look like allocated ones without references. */
  lemma MergedFramesLookAllocated(n: nat, ps: seq<PageInfo>, head: int, free: seq<Node>, owned: set<Node>, base: nat,
                                  f: nat)
    requires Partition(n, free, owned) && |ps| == n && Listed(ps, head, free) && Owns(ps, owned)
    requires Node(base, true) in free && base < f < base + SMALL_PAGES_IN_HUGE
    ensures f < n && !OnList(free, f) && ps[f].ppLink == NIL && ps[f].ppRef == 0 && !ps[f].isAvailable
    ensures forall h :: Node(f, h) !in owned
  {
    assert IsBlock(free, owned, Node(base, true));
    forall h ensures !IsBlock(free, owned, Node(f, h)) {
      assert !Node(f, h).Apart(Node(base, true));
    }
  }

  /** The descriptor of a block tells its size and whether it is free. */
  lemma BlockState(n: nat, ps: seq<PageInfo>, head: int, free: seq<Node>, owned: set<Node>, nd: Node)
    requires Partition(n, free, owned) && |ps| == n && Listed(ps, head, free) && Owns(ps, owned)
    requires IsBlock(free, owned, nd)
    ensures nd.frame < n && ps[nd.frame].isHuge == nd.huge
    ensures ps[nd.frame].isAvailable <==> nd in free
  {
    if nd in free {
      var i :| 0 <= i < |free| && free[i] == nd;
      assert Threaded(ps, free, i);
    }
    ListedIffAvailable(ps, head, free, nd.frame);
    OneNodePerFrame(n, free, owned, nd);
  }

  lemma OneNodePerFrame(n: nat, free: seq<Node>, owned: set<Node>, nd: Node)
    requires Partition(n, free, owned) && IsBlock(free, owned, nd)
    ensures OnList(free, nd.frame) <==> nd in free
    ensures nd.frame < n
  {
    var other := Node(nd.frame, !nd.huge);
    assert !nd.Apart(other);
    assert other in free ==> IsBlock(free, owned, other);
  }

  lemma OwnsAfterGive(ps: seq<PageInfo>, owned: set<Node>, block: Node, ps': seq<PageInfo>)
    requires Owns(ps, owned) && |ps'| == |ps| && block in owned && ps[block.frame].ppRef == 0
    requires forall f :: 0 <= f < |ps| ==> ps'[f].ppRef == ps[f].ppRef && ps'[f].isHuge == ps[f].isHuge
    ensures Owns(ps', owned - {block})
  {
  }

  lemma CountedIsListed(n: nat, ps: seq<PageInfo>, head: int, free: seq<Node>, owned: set<Node>, pp: nat, count: nat)
    requires Partition(n, free, owned) && Listed(ps, head, free) && Owns(ps, owned)
    requires pp < |ps| && Node(pp, ps[pp].isHuge) in owned
    ensures var ps' := ps[pp := ps[pp].(ppRef := count)]; Listed(ps', head, free) && Owns(ps', owned)
  {
    var ps' := ps[pp := ps[pp].(ppRef := count)];
    forall i | 0 <= i < |free| ensures Threaded(ps', free, i) {
      assert Threaded(ps, free, i);
    }
  }

  /** What an allocation returns and how it changes the free list and the allocated blocks. */
  ghost predicate Allocated(n: nat, free: seq<Node>, owned: set<Node>, huge: bool,
                            page: int, free': seq<Node>, owned': set<Node>)
  {
    var a := Allocate(free, huge);
    && free' == a.rest
    && (page == NIL <==> a.block.None?)
    && (page == NIL ==> owned' == owned)
    && (page != NIL ==>
          && 0 <= page < n
          && a.block.value == Node(page, huge)
          && Node(page, huge) !in owned
          && owned' == owned + {Node(page, huge)})
  }

  /** Which node serves an allocation: the first of the wanted size, or, for a small page when there is none, the first
      huge one. */
  lemma Served(n: nat, free: seq<Node>, owned: set<Node>, huge: bool, page: int, free': seq<Node>, owned': set<Node>)
    requires Allocated(n, free, owned, huge, page, free', owned')
    ensures page == NIL <==> free == [] || (huge && forall nd :: nd in free ==> !nd.huge)
    ensures page == NIL ==> free' == free && owned' == owned
    ensures (exists nd :: nd in free && nd.huge == huge) ==>
      exists k: nat ::
        && k < |free| && free[k] == Node(page, huge) && (forall i :: 0 <= i < k ==> free[i].huge != huge)
        && free' == free[..k] + free[k + 1..]
    ensures page != NIL && (forall nd :: nd in free ==> nd.huge != huge) ==>
      && !huge && free[0] == Node(page, true)
      && |free'| == |free| + 510 && free'[511..] == free[1..]
      && forall i :: 0 <= i < 511 ==> free'[i] == Node(page + 511 - i, false)
  {
    hide Allocate;
    if nd :| nd in free && nd.huge == huge {
      var k := FirstOf(free, huge);
      assert k < |free|;
      ServedBySize(free, huge, k);
    } else {
      ServedBySplit(free, huge);
    }
  }

  /** A small allocation fails only on an empty free list, and costs one frame. */
  lemma SmallAllocation(n: nat, free: seq<Node>, owned: set<Node>, page: int, free': seq<Node>, owned': set<Node>)
    requires Allocated(n, free, owned, false, page, free', owned')
    ensures page == NIL <==> free == []
    ensures page == NIL ==> free' == free && owned' == owned
    ensures page != NIL ==>
      && 0 <= page < n && Node(page, false) !in owned && owned' == owned + {Node(page, false)}
      && Weight(free') + 1 == Weight(free)
  {
    AllocateConserves(free, false);
    if free != [] {
      WeightPositive(free);
    }
  }

  lemma OwnsAfterTake(n: nat, free: seq<Node>, owned: set<Node>, k: nat, ps: seq<PageInfo>, ps': seq<PageInfo>)
    requires Partition(n, free, owned) && Owns(ps, owned) && |ps'| == |ps| == n
    requires k < |free| && Listed(ps, FrameAt(free, 0), free)
    requires forall f :: 0 <= f < n ==> ps'[f].ppRef == ps[f].ppRef && ps'[f].isHuge == ps[f].isHuge
    ensures free[k].frame < n
    ensures free[k] !in owned && Partition(n, RemoveAt(free, k), owned + {free[k]})
    ensures Owns(ps', owned + {free[k]})
  {
    TakeKeepsPartition(n, free, owned, k);
    assert free[k] in free;
    assert Threaded(ps, free, k);
  }

  lemma OwnsAfterSplit(n: nat, free: seq<Node>, owned: set<Node>, ps: seq<PageInfo>, ps': seq<PageInfo>)
    requires Partition(n, free, owned) && Owns(ps, owned) && |ps'| == |ps| == n
    requires free != [] && free[0].huge && free[0].frame < n
    requires forall f :: 0 <= f < n ==> ps'[f].ppRef == ps[f].ppRef
    requires forall f :: 0 <= f < n && !(free[0].frame <= f < free[0].frame + SMALL_PAGES_IN_HUGE) ==>
      ps'[f].isHuge == ps[f].isHuge
    requires !ps'[free[0].frame].isHuge
    ensures Owns(ps', owned + {Node(free[0].frame, false)})
  {
    assert IsBlock(free, owned, free[0]);
    forall nd | nd in owned ensures nd.frame < n && ps'[nd.frame].isHuge == nd.huge {
      assert IsBlock(free, owned, nd);
      assert free[0] in free;
      assert nd.Apart(free[0]);
    }
  }

  /** The size flag of a descriptor that is not on the list is free to change. */
  lemma RelabelledIsListed(ps: seq<PageInfo>, head: int, free: seq<Node>, cur: nat, huge: bool)
    requires Listed(ps, head, free) && cur < |ps| && !OnList(free, cur)
    ensures Listed(ps[cur := ps[cur].(isHuge := huge)], head, free)
  {
    var ps' := ps[cur := ps[cur].(isHuge := huge)];
    forall i | 0 <= i < |free| ensures Threaded(ps', free, i) {
      assert Threaded(ps, free, i);
      assert free[i] in free && free[i] == Node(free[i].frame, free[i].huge);
    }
  }

  lemma NoneDescending(base: nat, rest: seq<Node>)
    ensures Descending(base, 0) + rest == rest
  {
  }

  lemma OneMoreDescending(base: nat, n: nat, rest: seq<Node>)
    requires n > 0
    ensures [Node(base + n, false)] + (Descending(base, n - 1) + rest) == Descending(base, n) + rest
  {
  }

  lemma NotYetPushed(base: nat, rest: seq<Node>, i: nat)
    requires 1 <= i < SMALL_PAGES_IN_HUGE && !OnList(rest, base + i)
    ensures !OnList(Descending(base, i - 1) + rest, base + i)
  {
    var part := Descending(base, i - 1);
    assert forall j :: 0 <= j < |part| ==> part[j].frame < base + i;
  }

  lemma OwnsAfterMerge(n: nat, rest: seq<Node>, ps: seq<PageInfo>, owned: set<Node>, base: nat, ps': seq<PageInfo>)
    requires Partition(n, Run(base) + rest, owned) && Owns(ps, owned) && |ps'| == |ps|
    requires forall f :: 0 <= f < |ps| ==> ps'[f].ppRef == ps[f].ppRef
    requires forall f :: 0 <= f < |ps| && f != base ==> ps'[f].isHuge == ps[f].isHuge
    ensures Owns(ps', owned)
  {
    assert (Run(base) + rest)[0] == Node(base, false);
    assert IsBlock(Run(base) + rest, owned, Node(base, false));
    forall nd | nd in owned ensures nd.frame < |ps'| && ps'[nd.frame].isHuge == nd.huge {
      assert IsBlock(Run(base) + rest, owned, nd);
    }
  }

  lemma SmallBlocksTile(n: nat, owned: set<Node>)
    requires n % SMALL_PAGES_IN_HUGE == 0 && owned == set f: nat | f < n :: Node(f, false)
    ensures Partition(n, [], owned)
  {
  }

  ghost predicate NeighbourRun(ps: seq<PageInfo>, hugeStart: nat)
    requires hugeStart + SMALL_PAGES_IN_HUGE <= |ps|
  {
    forall j :: 0 <= j < SMALL_PAGES_IN_HUGE ==> FollowsNeighbour(ps, hugeStart, j)
  }

  ghost predicate FollowsNeighbour(ps: seq<PageInfo>, hugeStart: nat, j: nat)
    requires hugeStart + j < |ps|
  {
    && ps[hugeStart + j].isAvailable
    && (j > 0 ==> ps[hugeStart + j].previous == hugeStart + j - 1)
  }

  /** The neighbour test succeeds exactly when the list starts with the frames of the block
      in ascending order, and then the frame just pushed is the base of the block. */
  lemma RunIsLinkedInOrder(ps: seq<PageInfo>, head: int, free: seq<Node>, target: nat)
    requires |ps| % SMALL_PAGES_IN_HUGE == 0 && Listed(ps, head, free) && HugeAligned(free)
    requires free != [] && free[0] == Node(target, false)
    ensures target - target % SMALL_PAGES_IN_HUGE + SMALL_PAGES_IN_HUGE <= |ps|
    ensures NeighbourRun(ps, target - target % SMALL_PAGES_IN_HUGE) <==> StartsRun(free, target)
  {
    var base := target - target % SMALL_PAGES_IN_HUGE;
    hide FollowsNeighbour, StartsRun, Run, NeighbourRun;
    assert Threaded(ps, free, 0);
    if NeighbourRun(ps, base) {
      OnlyBaseFollows(ps, free, target);
      hide Listed, OnList;
      LinkedRunIsInList(ps, head, free, target);
    }
    if StartsRun(free, target) {
      ListedRunIsLinked(ps, head, free, target);
    }
  }

  lemma OnlyBaseFollows(ps: seq<PageInfo>, free: seq<Node>, target: nat)
    requires free != [] && free[0] == Node(target, false) && target < |ps| && ps[target].previous == NIL
    requires target - target % SMALL_PAGES_IN_HUGE + SMALL_PAGES_IN_HUGE <= |ps|
    requires NeighbourRun(ps, target - target % SMALL_PAGES_IN_HUGE)
    ensures target % SMALL_PAGES_IN_HUGE == 0
  {
    assert FollowsNeighbour(ps, target - target % SMALL_PAGES_IN_HUGE, target % SMALL_PAGES_IN_HUGE);
  }

  lemma LinkedRunIsInList(ps: seq<PageInfo>, head: int, free: seq<Node>, target: nat)
    requires Listed(ps, head, free) && HugeAligned(free)
    requires target % SMALL_PAGES_IN_HUGE == 0 && target + SMALL_PAGES_IN_HUGE <= |ps| && NeighbourRun(ps, target)
    requires free != [] && free[0] == Node(target, false)
    ensures StartsRun(free, target)
  {
    hide Listed, FollowsNeighbour, HugeAligned;
    var j := 1;
    while j < SMALL_PAGES_IN_HUGE
      invariant 1 <= j <= SMALL_PAGES_IN_HUGE && j <= |free|
      invariant forall i :: 0 <= i < j ==> free[i] == Node(target + i, false)
    {
      assert FollowsNeighbour(ps, target, j);
      NextInRun(ps, head, free, target, j);
      j := j + 1;
    }
    assert Run(target) == free[..SMALL_PAGES_IN_HUGE];
  }

  lemma ListedRunIsLinked(ps: seq<PageInfo>, head: int, free: seq<Node>, target: nat)
    requires Listed(ps, head, free) && StartsRun(free, target) && target + SMALL_PAGES_IN_HUGE <= |ps|
    ensures NeighbourRun(ps, target)
  {
    forall j | 0 <= j < SMALL_PAGES_IN_HUGE ensures FollowsNeighbour(ps, target, j) {
      assert free[j] == Run(target)[j];
      assert Threaded(ps, free, j);
      assert j > 0 ==> free[j - 1] == Run(target)[j - 1];
    }
  }

  lemma NextInRun(ps: seq<PageInfo>, head: int, free: seq<Node>, target: nat, j: nat)
    requires Listed(ps, head, free) && HugeAligned(free)
    requires target % SMALL_PAGES_IN_HUGE == 0 && 0 < j < SMALL_PAGES_IN_HUGE && target + j < |ps|
    requires j <= |free| && free[j - 1] == Node(target + j - 1, false)
    requires FollowsNeighbour(ps, target, j)
    ensures j < |free| && free[j] == Node(target + j, false)
  {
    hide OnList;
    assert OnList(free, target + j);
    var i := OnListAt(free, target + j);
    assert Threaded(ps, free, i);
    assert FrameAt(free, i - 1) == free[j - 1].frame;
    assert free[i] in free;
    InsideBlock(target, j);
  }

  lemma InsideBlock(base: nat, j: nat)
    requires base % SMALL_PAGES_IN_HUGE == 0 && j < SMALL_PAGES_IN_HUGE
    ensures (base + j) % SMALL_PAGES_IN_HUGE == j
  {
  }

  lemma OnListAt(free: seq<Node>, f: nat) returns (i: nat)
    requires OnList(free, f)
    ensures i < |free| && free[i].frame == f
  {
    if Node(f, false) in free {
      i :| i < |free| && free[i] == Node(f, false);
    } else {
      i :| i < |free| && free[i] == Node(f, true);
    }
  }

  lemma OnListCons(head: Node, rest: seq<Node>, f: nat)
    ensures OnList([head] + rest, f) <==> head.frame == f || OnList(rest, f)
  {
    assert forall nd :: nd in [head] + rest <==> nd == head || nd in rest;
    assert head == Node(head.frame, head.huge);
  }

  /** Turning a small node of the list into a huge one. */
  lemma GrownIsListed(ps: seq<PageInfo>, head: int, free: seq<Node>, k: nat, ps': seq<PageInfo>)
    requires Listed(ps, head, free) && k < |free| && free[k].frame < |ps|
    requires ps' == ps[free[k].frame := ps[free[k].frame].(isHuge := true)]
    ensures Listed(ps', head, free[k := Node(free[k].frame, true)])
  {
    var free' := free[k := Node(free[k].frame, true)];
    assert forall i :: 0 <= i < |free| ==> free[i].frame == free'[i].frame;
    forall i | 0 <= i < |free'| ensures Threaded(ps', free', i) {
      assert Threaded(ps, free, i);
    }
    forall f: nat | f < |ps'| && !OnList(free', f) ensures Idle(ps'[f]) {
      SameFrames(free, free', f);
      assert free'[k] in free';
    }
  }

  lemma SameFrames(free: seq<Node>, free': seq<Node>, f: nat)
    requires |free'| == |free| && forall i :: 0 <= i < |free| ==> free[i].frame == free'[i].frame
    ensures OnList(free, f) ==> OnList(free', f)
  {
    forall nd | nd in free ensures OnList(free', nd.frame) {
      var i :| 0 <= i < |free| && free[i] == nd;
      assert free'[i] == Node(nd.frame, free'[i].huge);
    }
  }

  /** The descriptor at f after `cur` has been linked in front of the list. */
  ghost function PushedInfo(ps: seq<PageInfo>, free: seq<Node>, cur: nat, f: nat): PageInfo
    requires f < |ps|
  {
    if f == cur then ps[f].(ppLink := FrameAt(free, 0), previous := NIL, isAvailable := true)
    else if f == FrameAt(free, 0) then ps[f].(previous := cur)
    else ps[f]
  }

  lemma PushedIsListed(ps: seq<PageInfo>, free: seq<Node>, cur: nat, ps': seq<PageInfo>)
    requires Listed(ps, FrameAt(free, 0), free) && cur < |ps| == |ps'| && !OnList(free, cur)
    requires forall f :: 0 <= f < |ps| ==> ps'[f] == PushedInfo(ps, free, cur, f)
    ensures Listed(ps', cur, [Node(cur, ps[cur].isHuge)] + free)
  {
    var free' := [Node(cur, ps[cur].isHuge)] + free;
    forall i | 0 <= i < |free| ensures free[i] == free'[i + 1] && free[i].frame != cur {
      assert free[i] in free && free[i] == Node(free[i].frame, free[i].huge);
    }
    assert DistinctFrames(free');
    forall i | 0 <= i < |free'| ensures Threaded(ps', free', i) {
      PushedIsThreaded(ps, free, cur, ps', i);
    }
    hide DistinctFrames, Threaded;
    forall f: nat | f < |ps'| && !OnList(free', f) ensures Idle(ps'[f]) {
      PushedIsIdle(ps, free, cur, ps', f);
    }
  }

  lemma PushedIsIdle(ps: seq<PageInfo>, free: seq<Node>, cur: nat, ps': seq<PageInfo>, f: nat)
    requires Listed(ps, FrameAt(free, 0), free) && cur < |ps| == |ps'| && f < |ps|
    requires ps'[f] == PushedInfo(ps, free, cur, f) && !OnList([Node(cur, ps[cur].isHuge)] + free, f)
    ensures Idle(ps'[f])
  {
    hide DistinctFrames, Threaded, OnList;
    OnListCons(Node(cur, ps[cur].isHuge), free, f);
    if free != [] {
      OnListCons(free[0], free[1..], f);
      assert [free[0]] + free[1..] == free;
    }
  }

  lemma PushedIsThreaded(ps: seq<PageInfo>, free: seq<Node>, cur: nat, ps': seq<PageInfo>, i: nat)
    requires DistinctFrames(free) && cur < |ps| == |ps'|
    requires forall j :: 0 <= j < |free| ==> Threaded(ps, free, j) && free[j].frame != cur
    requires forall f :: 0 <= f < |ps| ==> ps'[f] == PushedInfo(ps, free, cur, f)
    requires i <= |free|
    ensures Threaded(ps', [Node(cur, ps[cur].isHuge)] + free, i)
  {
    if i > 0 {
      assert Threaded(ps, free, i - 1);
      assert i > 1 ==> free[i - 1].frame != free[0].frame;
    }
  }

  /** The descriptor at f after the node at position k has been unlinked. */
  ghost function UnlinkedInfo(ps: seq<PageInfo>, free: seq<Node>, k: nat, f: nat): PageInfo
    requires k < |free| && f < |ps|
  {
    if f == free[k].frame then ps[f].(isAvailable := false, ppLink := NIL, previous := NIL)
    else if f == FrameAt(free, k - 1) then ps[f].(ppLink := FrameAt(free, k + 1))
    else if f == FrameAt(free, k + 1) then ps[f].(previous := FrameAt(free, k - 1))
    else ps[f]
  }

  lemma UnlinkedIsListed(ps: seq<PageInfo>, head: int, free: seq<Node>, k: nat, ps': seq<PageInfo>, head': int)
    requires Listed(ps, head, free) && k < |free| && |ps'| == |ps|
    requires head' == if k == 0 then FrameAt(free, 1) else head
    requires forall f :: 0 <= f < |ps| ==> ps'[f] == UnlinkedInfo(ps, free, k, f)
    ensures Listed(ps', head', RemoveAt(free, k))
  {
    var free' := RemoveAt(free, k);
    forall i | 0 <= i < |free'| ensures Threaded(ps', free', i) {
      UnlinkedIsThreaded(ps, free, k, ps', i);
    }
    forall f: nat | f < |ps'| && !OnList(free', f) ensures Idle(ps'[f]) {
      UnlinkedOthers(free, k, f);
      if OnList(free, f) {
        assert f == free[k].frame;
      } else {
        assert forall i :: 0 <= i < |free| ==> free[i] in free && free[i].frame != f;
        assert ps'[f] == UnlinkedInfo(ps, free, k, f) == ps[f];
      }
    }
  }

  lemma UnlinkedIsThreaded(ps: seq<PageInfo>, free: seq<Node>, k: nat, ps': seq<PageInfo>, i: nat)
    requires DistinctFrames(free) && k < |free| && |ps'| == |ps|
    requires forall j :: 0 <= j < |free| ==> Threaded(ps, free, j)
    requires forall f :: 0 <= f < |ps| ==> ps'[f] == UnlinkedInfo(ps, free, k, f)
    requires i < |RemoveAt(free, k)|
    ensures Threaded(ps', RemoveAt(free, k), i)
  {
    var free' := RemoveAt(free, k);
    var j := if i < k then i else i + 1;
    assert free'[i] == free[j];
    assert Threaded(ps, free, j);
    assert FrameAt(free', i + 1) == if i + 1 == k then FrameAt(free, k + 1) else FrameAt(free, j + 1);
    assert FrameAt(free', i - 1) == if i == k then FrameAt(free, k - 1) else FrameAt(free, j - 1);
    assert free[j].frame != free[k].frame;
    assert j != k - 1 ==> free[j].frame != FrameAt(free, k - 1);
    assert j != k + 1 ==> free[j].frame != FrameAt(free, k + 1);
  }

  lemma UnlinkedOthers(free: seq<Node>, k: nat, f: nat)
    requires k < |free|
    ensures OnList(free, f) && f != free[k].frame ==> OnList(RemoveAt(free, k), f)
  {
    var free' := RemoveAt(free, k);
    assert forall i :: 0 <= i < |free| && i != k ==> free[i] == free'[if i < k then i else i - 1];
  }
}
