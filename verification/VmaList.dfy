/** The list of virtual memory areas of an environment: a fixed pool of nodes linked in both directions. It begins with
    used nodes in address order, up to the first unused one; an exact fit can leave used nodes behind that. */
module VmaList {
  import opened FreeList
  import opened Paging
  import opened VmaSpec

  /** A node of the pool. Links are positions in the pool or NIL. */
  datatype Vma = Vma(area: Area, next: int, prev: int)

  const POOL_SIZE: nat := 128

  ghost predicate Distinct(nodes: seq<nat>) {
    forall i, j :: 0 <= i < j < |nodes| ==> nodes[i] != nodes[j]
  }

  ghost predicate Linked(ps: seq<Vma>, nodes: seq<nat>, i: nat)
    requires i < |nodes|
  {
    nodes[i] < |ps| && ps[nodes[i]].next == LinkAt(nodes, i + 1) && ps[nodes[i]].prev == LinkAt(nodes, i - 1)
  }

  /** The nodes of the pool are linked in the order of `nodes`, in both directions. */
  ghost predicate Chain(ps: seq<Vma>, head: int, nodes: seq<nat>) {
    && Distinct(nodes)
    && (forall i :: 0 <= i < |nodes| ==> Linked(ps, nodes, i))
    && head == LinkAt(nodes, 0)
  }

  /** The areas of the nodes, used or not, in the order of the list. */
  ghost function ContentsOf(ps: seq<Vma>, nodes: seq<nat>): (r: seq<Area>)
    ensures |r| == |nodes|
    ensures forall i :: 0 <= i < |r| ==> r[i] == if nodes[i] < |ps| then ps[nodes[i]].area else UNUSED
  {
    seq(|nodes|, i requires 0 <= i < |nodes| => if nodes[i] < |ps| then ps[nodes[i]].area else UNUSED)
  }

  /** What a walk along the list finds at a node. */
  lemma AtNode(ps: seq<Vma>, head: int, nodes: seq<nat>, i: nat)
    requires Chain(ps, head, nodes) && i < |nodes|
    ensures nodes[i] < |ps| && ps[nodes[i]].area == ContentsOf(ps, nodes)[i]
    ensures ps[nodes[i]].next == if i + 1 < |nodes| then nodes[i + 1] else NIL
    ensures ps[nodes[i]].prev == if i > 0 then nodes[i - 1] else NIL
  {
    assert Linked(ps, nodes, i);
  }

  /** And what it finds there as long as it walks along visible areas. */
  lemma AtVisible(list: seq<Area>, i: nat)
    requires Spaced(Visible(list)) && i < |list| && i <= |Visible(list)|
    ensures list[i].kind == VmaUnused <==> i == |Visible(list)|
    ensures i < |Visible(list)| ==>
      list[i] == Visible(list)[i] && RoundUp(list[i].End()) == list[i].End() <= USER_TOP
    ensures i + 1 < |Visible(list)| ==> list[i].End() <= list[i + 1].va
  {
    hide Visible, Spaced, Aligned, RoundUp;
    var areas := Visible(list);
    if i < |areas| {
      SpacedAt(areas, i);
      RoundsToItself(list[i].End());
    }
  }

  lemma SpacedAt(areas: seq<Area>, i: nat)
    requires Spaced(areas) && i < |areas|
    ensures areas[i].End() % PAGE_SIZE == 0 && areas[i].End() <= USER_TOP
    ensures i + 1 < |areas| ==> areas[i].End() <= areas[i + 1].va
  {
    assert Aligned(areas[i]);
  }

  /** The node at position j of a new list. */
  function InitialVma(j: nat): Vma {
    Vma(UNUSED, if j == POOL_SIZE - 1 then NIL else j + 1, if j == 0 then NIL else j - 1)
  }

  lemma InitialList(ps: seq<Vma>, nodes: seq<nat>)
    requires |ps| == |nodes| == POOL_SIZE && forall i :: 0 <= i < POOL_SIZE ==> nodes[i] == i && ps[i] == InitialVma(i)
    ensures Chain(ps, 0, nodes) && Visible(ContentsOf(ps, nodes)) == []
    ensures forall i :: 0 <= i < POOL_SIZE ==> ContentsOf(ps, nodes)[i] == UNUSED
  {
    assert forall i :: 0 <= i < POOL_SIZE ==> Linked(ps, nodes, i);
    VisibleIs(ContentsOf(ps, nodes), 0);
  }

  class VmaList {
    const pool: array<Vma>
    var head: int
    ghost var nodes: seq<nat>
    ghost var areas: seq<Area>

    /** A list of unused nodes only, linked in the order of the pool. */
    constructor ()
      ensures Valid() && areas == [] && fresh(pool)
      ensures |nodes| == POOL_SIZE && forall i :: 0 <= i < POOL_SIZE ==> nodes[i] == i && Contents()[i] == UNUSED
    {
      var vmaList := new Vma[POOL_SIZE](_ => Vma(UNUSED, NIL, NIL));
      pool := vmaList;
      head := 0;
      nodes := seq(POOL_SIZE, i requires 0 <= i < POOL_SIZE => i);
      areas := [];
      new;
      hide Chain, Visible, ContentsOf, Linked;
      var j := 0;
      while j < POOL_SIZE
        invariant 0 <= j <= POOL_SIZE && head == 0 && areas == [] && fresh(pool)
        invariant |nodes| == POOL_SIZE && forall i :: 0 <= i < POOL_SIZE ==> nodes[i] == i
        invariant forall i :: 0 <= i < POOL_SIZE ==> pool[i].area == UNUSED
        invariant forall i :: 0 <= i < j ==> pool[i] == InitialVma(i)
      {
        pool[j] := Vma(UNUSED, if j == POOL_SIZE - 1 then NIL else j + 1, if j == 0 then NIL else j - 1);
        j := j + 1;
      }
      InitialList(pool[..], nodes);
    }

    ghost function Contents(): seq<Area>
      reads this, pool
    {
      ContentsOf(pool[..], nodes)
    }

    /** The chain is intact, and the areas up to the first unused node are in order. */
    ghost predicate Valid()
      reads this, pool
    {
      && Chain(pool[..], head, nodes) && nodes != []
      && areas == Visible(Contents()) && Spaced(areas)
    }

    lemma IsValid()
      requires Chain(pool[..], head, nodes) && nodes != [] && areas == Visible(Contents()) && Spaced(areas)
      ensures Valid()
    {
    }

    /** What callers need of the invariant. */
    lemma Shape()
      requires Valid()
      ensures areas == Visible(Contents()) && Spaced(areas) && |Contents()| == |nodes|
    {
    }

    /** What is in the node at position i. */
    lemma NodeAt(i: nat)
      requires Valid() && i < |areas|
      ensures i < |nodes| && nodes[i] < pool.Length && pool[nodes[i]].area == areas[i] == Contents()[i]
    {
      hide Visible;
      AtNode(pool[..], head, nodes, i);
      VisibleAt(Contents(), i);
    }

    /** The node whose area covers an address, NIL if there is none. */
    method Lookup(va: nat) returns (vma: int)
      requires Valid()
      ensures match Find(areas, va)
        case None => vma == NIL
        case Some(i) => i < |nodes| && vma == nodes[i] < pool.Length && pool[vma].area == areas[i]
    {
      hide Chain, Visible;
      Start(pool[..], head, nodes);
      vma := head;
      ghost var i := 0;
      while vma != NIL
        invariant 0 <= i <= |areas| && vma == LinkAt(nodes, i)
        invariant forall j :: 0 <= j < i ==> !areas[j].Covers(va)
        decreases |nodes| - i
      {
        AtNode(pool[..], head, nodes, i);
        AtVisible(Contents(), i);
        if pool[vma].area.kind == VmaUnused {
          return NIL;
        } else if va >= pool[vma].area.va && va < pool[vma].area.va + pool[vma].area.len {
          FindUnique(areas, va, i);
          break;
        }
        vma := pool[vma].next;
        i := i + 1;
      }
    }

    /** Whether the list has at least two nodes. */
    method HasTwo() returns (two: bool)
      requires Valid()
      ensures two <==> |nodes| >= 2
    {
      assert Linked(pool[..], nodes, 0);
      two := pool[head].next != NIL;
    }

    /** The last node of the list, used or not. */
    method GetLast() returns (vma: int)
      requires Chain(pool[..], head, nodes)
      ensures vma == LinkAt(nodes, |nodes| - 1)
      ensures nodes != [] ==> 0 <= vma < pool.Length
    {
      vma := head;
      if vma == NIL {
        return;
      }
      ghost var i := 0;
      assert Linked(pool[..], nodes, 0);
      while pool[vma].next != NIL
        invariant 0 <= i < |nodes| && vma == nodes[i] && vma < pool.Length
        decreases |nodes| - i
      {
        assert Linked(pool[..], nodes, i);
        vma := pool[vma].next;
        i := i + 1;
        assert Linked(pool[..], nodes, i);
      }
      assert Linked(pool[..], nodes, i);
    }

    /** Where a new range of the given size can go, -1 if nowhere. */
    method GetVmem(size: nat) returns (r: int)
      requires Valid()
      ensures r == Vmem(areas, |areas| < |nodes|, size)
    {
      hide Chain, Spaced, Visible, RoundUp, ContentsOf, LinkAt;
      Start(pool[..], head, nodes);
      var vma := head;
      AtNode(pool[..], head, nodes, 0);
      AtVisible(Contents(), 0);
      if pool[vma].area.kind == VmaUnused {
        return 0;
      } else if size <= pool[vma].area.va {
        return pool[vma].area.va - size;
      }
      ghost var i := 0;
      while pool[vma].next != NIL
        invariant 0 <= i < |areas| <= |nodes| && vma == nodes[i] && vma < pool.Length
        invariant Vmem(areas, |areas| < |nodes|, size) == VmemBehind(areas, |areas| < |nodes|, size, i)
        decreases |nodes| - i
      {
        AtNode(pool[..], head, nodes, i);
        AtVisible(Contents(), i);
        var next := pool[vma].next;
        AtNode(pool[..], head, nodes, i + 1);
        AtVisible(Contents(), i + 1);
        var end := RoundUp(pool[vma].area.va + pool[vma].area.len);
        if pool[next].area.kind == VmaUnused {
          return if size > USER_TOP - end then -1 else end;
        } else if size <= pool[next].area.va - end {
          return end;
        }
        vma := next;
        i := i + 1;
      }
      AtNode(pool[..], head, nodes, i);
      AtVisible(Contents(), i);
      return -1;
    }

    /** Cuts the last node off the list. */
    method DetachLast(last: nat)
      requires Chain(pool[..], head, nodes) && |nodes| >= 2 && last == nodes[|nodes| - 1]
      modifies this`nodes, pool
      ensures nodes == old(nodes)[..|old(nodes)| - 1]
      ensures Chain(pool[..], head, nodes)
      ensures forall p :: 0 <= p < pool.Length ==> pool[p].area == old(pool[p].area)
      ensures last < pool.Length
    {
      ghost var n := |nodes| - 1;
      ghost var before := pool[..];
      assert Linked(before, nodes, n) && Linked(before, nodes, n - 1);
      var prev := pool[last].prev;
      pool[prev] := pool[prev].(next := NIL);
      nodes := nodes[..n];
      forall i | 0 <= i < |nodes| ensures Linked(pool[..], nodes, i) {
        assert Linked(before, old(nodes), i);
        assert nodes[i] == old(nodes)[i];
      }
    }

    /** Links a node that is not in the list behind the node at position k. */
    method InsertAfter(vma: nat, node: nat, ghost k: nat)
      requires Chain(pool[..], head, nodes) && k < |nodes| && nodes[k] == vma
      requires node < pool.Length && node !in nodes
      modifies this`nodes, pool
      ensures nodes == InsertAt(old(nodes), k + 1, node)
      ensures Chain(pool[..], head, nodes)
      ensures forall p :: 0 <= p < pool.Length ==> pool[p].area == old(pool[p].area)
    {
      ghost var before := pool[..];
      assert Linked(before, nodes, k);
      assert k + 1 < |nodes| ==> Linked(before, nodes, k + 1);
      var tmp := pool[vma].next;
      pool[vma] := pool[vma].(next := node);
      pool[node] := pool[node].(prev := vma);
      if tmp != NIL {
        pool[tmp] := pool[tmp].(prev := node);
      }
      pool[node] := pool[node].(next := tmp);
      nodes := InsertAt(nodes, k + 1, node);
      InsertedChain(before, old(nodes), k + 1, node, pool[..]);
    }

    /** Links a node that is not in the list in front of it. */
    method PushFront(node: nat)
      requires Chain(pool[..], head, nodes) && nodes != []
      requires node < pool.Length && node !in nodes
      modifies this`head, this`nodes, pool
      ensures nodes == InsertAt(old(nodes), 0, node)
      ensures Chain(pool[..], head, nodes)
      ensures forall p :: 0 <= p < pool.Length ==> pool[p].area == old(pool[p].area)
    {
      ghost var before := pool[..];
      assert Linked(before, nodes, 0);
      pool[head] := pool[head].(prev := node);
      pool[node] := pool[node].(next := head);
      pool[node] := pool[node].(prev := NIL);
      head := node;
      nodes := InsertAt(nodes, 0, node);
      InsertedChain(before, old(nodes), 0, node, pool[..]);
    }

    /** Adds the area for [memVa, memVa + memSize), rounded out to pages, in the node taken from the end. */
    method Insert(kind: VmaType, memVa: nat, memSize: nat, perm: nat, fileVa: nat, fileSize: nat) returns (vma: int)
      requires Valid() && |nodes| >= 2 && kind != VmaUnused
      requires memVa + memSize <= USER_TOP
      modifies this, pool
      ensures Valid()
      ensures var a := NewArea(kind, memVa, memSize, perm, fileVa, fileSize);
        && Contents() == AfterInsert(old(Contents()), a)
        && (vma != NIL <==> InsertSucceeds(old(Contents()), a))
        && (vma != NIL ==> 0 <= vma < pool.Length && pool[vma].area == a)
      ensures !old(HasSpareIn(Contents())) ==> nodes == old(nodes) && pool[..] == old(pool[..]) && head == old(head)
    {
      hide Chain, Spaced, Visible, Aligned, AfterPlace, PlaceFrom, RoundUp, RoundDown, AfterInsert, InsertSucceeds,
           HasSpareIn, ContentsOf;
      InsertUnfolded(Contents(), NewArea(kind, memVa, memSize, perm, fileVa, fileSize));
      var vaStart, vaEnd := RoundDown(memVa), RoundUp(memVa + memSize);
      var node := GetLast();
      AtNode(pool[..], head, nodes, |nodes| - 1);
      if node == NIL || pool[node].area.kind != VmaUnused {
        return NIL;
      }
      ghost var before := pool[..];
      NewAreaIsAligned(kind, memVa, memSize, perm, fileVa, fileSize);
      pool[node] := pool[node].(area := Area(kind, vaStart, vaEnd - vaStart, perm, memVa, fileVa, memSize, fileSize));
      RelabelledChain(before, head, nodes, node, pool[..]);
      DetachLast(node);
      DetachedContents(before, head, old(nodes), pool[..]);
      vma := Place(node, vaStart, vaEnd);
    }

    /** The walk that looks for the place of a detached node and links it in. */
    method Place(node: nat, vaStart: nat, vaEnd: nat) returns (vma: int)
      requires Chain(pool[..], head, nodes) && nodes != [] && Spaced(Visible(Contents()))
      requires node < pool.Length && node !in nodes && Aligned(pool[node].area)
      requires pool[node].area.va == vaStart && pool[node].area.End() == vaEnd
      modifies this, pool
      ensures Valid()
      ensures forall p :: 0 <= p < pool.Length ==> pool[p].area == old(pool[p].area)
      ensures Contents() == AfterPlace(old(Contents()), pool[node].area)
      ensures vma == if PlaceFrom(old(Contents()), vaStart, vaEnd, 0).Some? then node else NIL
    {
      hide VmaList.Valid, Chain, Spaced, Visible, Aligned, PlaceFrom, AfterPlace, InsertAt, ContentsOf, LinkAt,
           Takes;
      ghost var list, a := Contents(), pool[node].area;
      vma := head;
      Start(pool[..], head, nodes);
      AtNode(pool[..], head, nodes, 0);
      TakesAt(list, vaStart, vaEnd, 0);
      if pool[vma].area.kind == VmaUnused || vaEnd < pool[vma].area.va {
        FirstPlace(list, a, 0);
        LinkFront(node);
        return node;
      }
      ghost var i := 0;
      while pool[vma].next != NIL
        invariant 0 <= i < |nodes| && vma == nodes[i] && vma < pool.Length
        invariant pool[..] == old(pool[..]) && nodes == old(nodes) && head == old(head)
        invariant forall m :: 0 <= m <= i ==> !Takes(list, vaStart, vaEnd, m)
        decreases |nodes| - i
      {
        AtNode(pool[..], head, nodes, i);
        AtNode(pool[..], head, nodes, i + 1);
        TakesAt(list, vaStart, vaEnd, i + 1);
        var next := pool[vma].next;
        if pool[vma].area.va + pool[vma].area.len <= vaStart &&
           (pool[next].area.kind == VmaUnused || vaEnd < pool[next].area.va)
        {
          FirstPlace(list, a, i + 1);
          Link(vma, node, i);
          return node;
        }
        vma := next;
        i := i + 1;
      }
      AtNode(pool[..], head, nodes, i);
      TakesAt(list, vaStart, vaEnd, i + 1);
      if pool[vma].area.va + pool[vma].area.len <= vaStart {
        FirstPlace(list, a, i + 1);
        Link(vma, node, i);
        return node;
      }
      NoPlace(list, a);
      areas := Visible(Contents());
      IsValid();
      return NIL;
    }

    /** Links a detached node in front of the list. */
    method LinkFront(node: nat)
      requires Chain(pool[..], head, nodes) && nodes != [] && node < pool.Length && node !in nodes
      requires Spaced(Visible(InsertAt(Contents(), 0, pool[node].area)))
      modifies this, pool
      ensures Valid()
      ensures forall p :: 0 <= p < pool.Length ==> pool[p].area == old(pool[p].area)
      ensures Contents() == InsertAt(old(Contents()), 0, pool[node].area)
    {
      hide Chain, Spaced, Visible;
      PushFront(node);
      InsertedContents(old(pool[..]), old(nodes), 0, node, pool[..]);
      areas := Visible(Contents());
    }

    /** Links a detached node behind the node at position i. */
    method Link(vma: nat, node: nat, ghost i: nat)
      requires Chain(pool[..], head, nodes) && i < |nodes| && nodes[i] == vma
      requires node < pool.Length && node !in nodes
      requires Spaced(Visible(InsertAt(Contents(), i + 1, pool[node].area)))
      modifies this, pool
      ensures Valid()
      ensures forall p :: 0 <= p < pool.Length ==> pool[p].area == old(pool[p].area)
      ensures Contents() == InsertAt(old(Contents()), i + 1, pool[node].area)
    {
      hide Chain, Spaced, Visible;
      InsertAfter(vma, node, i);
      InsertedContents(old(pool[..]), old(nodes), i + 1, node, pool[..]);
      areas := Visible(Contents());
    }

    /** Unlinks the node at position k. */
    method Unlink(vma: nat, ghost k: nat)
      requires Chain(pool[..], head, nodes) && k < |nodes| && nodes[k] == vma
      modifies this`head, this`nodes, pool
      ensures nodes == RemoveAt(old(nodes), k)
      ensures Chain(pool[..], head, nodes)
      ensures forall p :: 0 <= p < pool.Length ==> pool[p].area == old(pool[p].area)
    {
      ghost var before := pool[..];
      assert Linked(before, nodes, k);
      assert k > 0 ==> Linked(before, nodes, k - 1);
      assert k + 1 < |nodes| ==> Linked(before, nodes, k + 1);
      var next, prev := pool[vma].next, pool[vma].prev;
      if prev == NIL {
        head := next;
        if head != NIL {
          pool[next] := pool[next].(prev := NIL);
        }
      } else {
        pool[prev] := pool[prev].(next := next);
        if next != NIL {
          pool[next] := pool[next].(prev := prev);
        }
      }
      nodes := RemoveAt(nodes, k);
      RemovedChain(before, old(nodes), k, pool[..]);
    }

    /** Takes an area off the list: its node becomes unused and moves to the end. */
    method MakeUnused(vma: nat, ghost k: nat)
      requires Valid() && |nodes| >= 2 && k < |areas| && nodes[k] == vma
      modifies this, pool
      ensures Valid()
      ensures Contents() == AfterUnuse(old(Contents()), k)
    {
      hide Spaced, Visible, ContentsOf, AfterUnuse;
      ghost var before := pool[..];
      Unlink(vma, k);
      var last := GetLast();
      ghost var mid := pool[..];
      assert Linked(mid, nodes, |nodes| - 1);
      pool[vma] := pool[vma].(area := pool[vma].area.(va := 0, kind := VmaUnused), next := NIL, prev := last);
      pool[last] := pool[last].(next := vma);
      AppendedChain(mid, head, nodes, vma, pool[..]);
      nodes := nodes + [vma];
      UnusedContents(before, old(nodes), k, pool[..]);
      UnuseMeaning(old(Contents()), k);
      RemoveMeaning(areas, k);
      areas := RemoveAt(areas, k);
    }

    /** Moves the bounds of a visible area inwards. */
    method Shrink(vma: nat, va: nat, len: nat, ghost k: nat)
      requires Valid() && k < |areas| && nodes[k] == vma
      requires areas[k].va <= va && va + len <= areas[k].End() && va % PAGE_SIZE == 0 && len % PAGE_SIZE == 0
      modifies pool, this`areas
      ensures Valid()
      ensures Contents() == old(Contents())[k := old(areas)[k].(va := va, len := len)]
      ensures areas == old(areas)[k := old(areas)[k].(va := va, len := len)]
    {
      hide Spaced, Chain, Visible;
      ghost var before := pool[..];
      AtNode(before, head, nodes, k);
      ChainIsDistinct(before, head, nodes);
      pool[vma] := pool[vma].(area := pool[vma].area.(va := va, len := len));
      RelabelledChain(before, head, nodes, vma, pool[..]);
      RelabelledContents(before, nodes, k, pool[..]);
      ShrinkMeaning(areas, k, va, len);
      VisibleAfterShrink(old(Contents()), k, areas[k].(va := va, len := len));
      areas := areas[k := areas[k].(va := va, len := len)];
    }
  }

  lemma InsertUnfolded(list: seq<Area>, a: Area)
    requires list != []
    ensures HasSpareIn(list) <==> list[|list| - 1].kind == VmaUnused
    ensures if HasSpareIn(list)
      then
        && AfterInsert(list, a) == AfterPlace(list[..|list| - 1], a)
        && (InsertSucceeds(list, a) <==> PlaceFrom(list[..|list| - 1], a.va, a.End(), 0).Some?)
      else AfterInsert(list, a) == list && !InsertSucceeds(list, a)
  {
  }

  lemma NewAreaIsAligned(kind: VmaType, memVa: nat, memSize: nat, perm: nat, fileVa: nat, fileSize: nat)
    requires memVa + memSize <= USER_TOP && kind != VmaUnused
    ensures RoundDown(memVa) <= RoundUp(memVa + memSize)
    ensures Aligned(NewArea(kind, memVa, memSize, perm, fileVa, fileSize))
  {
    RoundUpIsCeiling(memVa + memSize);
  }

  lemma TakesAt(list: seq<Area>, start: nat, end: nat, j: nat)
    requires j <= |list|
    ensures Takes(list, start, end, j) <==>
      (j > 0 ==> list[j - 1].End() <= start) && (j < |list| ==> list[j].kind == VmaUnused || end < list[j].va)
  {
  }

  lemma FirstPlace(list: seq<Area>, a: Area, j: nat)
    requires Spaced(Visible(list)) && Aligned(a)
    requires j <= |list| && Takes(list, a.va, a.End(), j) && forall m :: 0 <= m < j ==> !Takes(list, a.va, a.End(), m)
    ensures PlaceFrom(list, a.va, a.End(), 0) == Some(j) && AfterPlace(list, a) == InsertAt(list, j, a)
    ensures Spaced(Visible(InsertAt(list, j, a)))
  {
    hide Spaced, Aligned, Visible, InsertAt, Fits, FitsAt;
    FirstIsPlace(list, a.va, a.End(), j);
    hide Takes, PlaceFrom;
    PlaceMeaning(list, a);
  }

  lemma FirstIsPlace(list: seq<Area>, start: nat, end: nat, j: nat)
    requires j <= |list| && Takes(list, start, end, j) && forall m :: 0 <= m < j ==> !Takes(list, start, end, m)
    ensures PlaceFrom(list, start, end, 0) == Some(j)
  {
    hide Takes;
  }

  lemma NoPlace(list: seq<Area>, a: Area)
    requires forall m :: 0 <= m <= |list| ==> !Takes(list, a.va, a.End(), m)
    ensures PlaceFrom(list, a.va, a.End(), 0) == None && AfterPlace(list, a) == list
  {
  }

  lemma DetachedContents(ps: seq<Vma>, head: int, nodes: seq<nat>, ps': seq<Vma>)
    requires Chain(ps, head, nodes) && nodes != [] && |ps'| == |ps| && HasSpareIn(ContentsOf(ps, nodes))
    requires forall q :: 0 <= q < |ps| && q != nodes[|nodes| - 1] ==> ps'[q].area == ps[q].area
    ensures var n := |nodes| - 1;
      && ContentsOf(ps', nodes[..n]) == ContentsOf(ps, nodes)[..n] && nodes[n] !in nodes[..n]
      && Visible(ContentsOf(ps', nodes[..n])) == Visible(ContentsOf(ps, nodes))
  {
    var n := |nodes| - 1;
    assert forall i :: 0 <= i < n ==> nodes[..n][i] == nodes[i] && nodes[i] != nodes[n];
    VisibleWithoutSpare(ContentsOf(ps, nodes));
  }

  lemma InsertedContents(ps: seq<Vma>, nodes: seq<nat>, j: nat, node: nat, ps': seq<Vma>)
    requires j <= |nodes| && node < |ps| == |ps'| && forall q :: 0 <= q < |ps| ==> ps'[q].area == ps[q].area
    ensures ContentsOf(ps', InsertAt(nodes, j, node)) == InsertAt(ContentsOf(ps, nodes), j, ps[node].area)
  {
  }

  lemma RelabelledContents(ps: seq<Vma>, nodes: seq<nat>, k: nat, ps': seq<Vma>)
    requires Distinct(nodes) && k < |nodes| && nodes[k] < |ps| == |ps'|
    requires forall q :: 0 <= q < |ps| && q != nodes[k] ==> ps'[q].area == ps[q].area
    ensures ContentsOf(ps', nodes) == ContentsOf(ps, nodes)[k := ps'[nodes[k]].area]
  {
  }

  lemma UnusedContents(ps: seq<Vma>, nodes: seq<nat>, k: nat, ps': seq<Vma>)
    requires Distinct(nodes) && k < |nodes| && nodes[k] < |ps| == |ps'|
    requires forall q :: 0 <= q < |ps| && q != nodes[k] ==> ps'[q].area == ps[q].area
    requires ps'[nodes[k]].area == ps[nodes[k]].area.(va := 0, kind := VmaUnused)
    ensures ContentsOf(ps', RemoveAt(nodes, k) + [nodes[k]]) == AfterUnuse(ContentsOf(ps, nodes), k)
  {
    RemoveAtIndex(nodes, k);
    RemoveAtIndex(ContentsOf(ps, nodes), k);
  }

  lemma ChainIsDistinct(ps: seq<Vma>, head: int, nodes: seq<nat>)
    requires Chain(ps, head, nodes)
    ensures Distinct(nodes)
  {
  }

  lemma RelabelledChain(ps: seq<Vma>, head: int, nodes: seq<nat>, p: nat, ps': seq<Vma>)
    requires Chain(ps, head, nodes) && p < |ps| && |ps'| == |ps|
    requires forall q :: 0 <= q < |ps| ==> ps'[q].next == ps[q].next && ps'[q].prev == ps[q].prev
    ensures Chain(ps', head, nodes)
  {
    forall i | 0 <= i < |nodes| ensures Linked(ps', nodes, i) {
      assert Linked(ps, nodes, i);
    }
  }

  lemma AppendedChain(ps: seq<Vma>, head: int, nodes: seq<nat>, node: nat, ps': seq<Vma>)
    requires Chain(ps, head, nodes) && nodes != [] && node < |ps| == |ps'| && node !in nodes
    requires forall p :: 0 <= p < |ps| && p != node ==>
      && ps'[p].prev == ps[p].prev
      && ps'[p].next == if p == nodes[|nodes| - 1] then node else ps[p].next
    requires ps'[node].next == NIL && ps'[node].prev == nodes[|nodes| - 1]
    ensures Chain(ps', head, nodes + [node])
  {
    var nodes' := nodes + [node];
    forall i | 0 <= i < |nodes'| ensures Linked(ps', nodes', i) {
      if i < |nodes| {
        assert Linked(ps, nodes, i) && nodes[i] in nodes;
        assert i < |nodes| - 1 ==> nodes[i] != nodes[|nodes| - 1];
      }
    }
  }

  /** The links of node p after `node` has been inserted at position k. */
  ghost function InsertedLinks(ps: seq<Vma>, nodes: seq<nat>, k: nat, node: nat, p: nat): (int, int)
    requires p < |ps|
  {
    if p == node then (LinkAt(nodes, k), LinkAt(nodes, k - 1))
    else (if p == LinkAt(nodes, k - 1) then node else ps[p].next, if p == LinkAt(nodes, k) then node else ps[p].prev)
  }

  lemma InsertedChain(ps: seq<Vma>, nodes: seq<nat>, k: nat, node: nat, ps': seq<Vma>)
    requires Chain(ps, LinkAt(nodes, 0), nodes) && k <= |nodes| && node < |ps| == |ps'| && node !in nodes
    requires forall p :: 0 <= p < |ps| ==> (ps'[p].next, ps'[p].prev) == InsertedLinks(ps, nodes, k, node, p)
    ensures Chain(ps', if k == 0 then node else LinkAt(nodes, 0), InsertAt(nodes, k, node))
  {
    var nodes' := InsertAt(nodes, k, node);
    assert forall i :: 0 <= i < |nodes'| ==>
      nodes'[i] == if i < k then nodes[i] else if i == k then node else nodes[i - 1];
    forall i | 0 <= i < |nodes'| ensures Linked(ps', nodes', i) {
      InsertedLinked(ps, nodes, k, node, ps', i);
    }
  }

  lemma InsertedLinked(ps: seq<Vma>, nodes: seq<nat>, k: nat, node: nat, ps': seq<Vma>, i: nat)
    requires Distinct(nodes) && (forall j :: 0 <= j < |nodes| ==> Linked(ps, nodes, j))
    requires k <= |nodes| && node < |ps| == |ps'| && node !in nodes && i <= |nodes|
    requires forall p :: 0 <= p < |ps| ==> (ps'[p].next, ps'[p].prev) == InsertedLinks(ps, nodes, k, node, p)
    ensures Linked(ps', InsertAt(nodes, k, node), i)
  {
    var nodes' := InsertAt(nodes, k, node);
    assert forall m :: 0 <= m < |nodes'| ==>
      nodes'[m] == if m < k then nodes[m] else if m == k then node else nodes[m - 1];
    if i != k {
      var j := if i < k then i else i - 1;
      assert nodes'[i] == nodes[j] && Linked(ps, nodes, j);
      assert nodes[j] in nodes;
      assert j != k - 1 && k > 0 ==> nodes[j] != nodes[k - 1];
      assert j != k && k < |nodes| ==> nodes[j] != nodes[k];
    }
  }

  lemma RemovedChain(ps: seq<Vma>, nodes: seq<nat>, k: nat, ps': seq<Vma>)
    requires Chain(ps, LinkAt(nodes, 0), nodes) && k < |nodes| && |ps'| == |ps|
    requires forall p :: 0 <= p < |ps| && p != nodes[k] ==>
      && ps'[p].next == (if p == LinkAt(nodes, k - 1) then LinkAt(nodes, k + 1) else ps[p].next)
      && ps'[p].prev == (if p == LinkAt(nodes, k + 1) then LinkAt(nodes, k - 1) else ps[p].prev)
    ensures Chain(ps', if k == 0 then LinkAt(nodes, 1) else LinkAt(nodes, 0), RemoveAt(nodes, k))
  {
    var nodes' := RemoveAt(nodes, k);
    assert forall i :: 0 <= i < |nodes'| ==> nodes'[i] == nodes[if i < k then i else i + 1];
    forall i | 0 <= i < |nodes'| ensures Linked(ps', nodes', i) {
      RemovedLinked(ps, nodes, k, ps', i);
    }
  }

  lemma RemovedLinked(ps: seq<Vma>, nodes: seq<nat>, k: nat, ps': seq<Vma>, i: nat)
    requires Distinct(nodes) && (forall j :: 0 <= j < |nodes| ==> Linked(ps, nodes, j))
    requires k < |nodes| && |ps'| == |ps| && i + 1 < |nodes|
    requires forall p :: 0 <= p < |ps| && p != nodes[k] ==>
      && ps'[p].next == (if p == LinkAt(nodes, k - 1) then LinkAt(nodes, k + 1) else ps[p].next)
      && ps'[p].prev == (if p == LinkAt(nodes, k + 1) then LinkAt(nodes, k - 1) else ps[p].prev)
    ensures Linked(ps', RemoveAt(nodes, k), i)
  {
    var nodes' := RemoveAt(nodes, k);
    assert forall m :: 0 <= m < |nodes'| ==> nodes'[m] == nodes[if m < k then m else m + 1];
    var j := if i < k then i else i + 1;
    assert nodes'[i] == nodes[j] && Linked(ps, nodes, j);
    assert nodes[j] != nodes[k];
    assert j != k - 1 && k > 0 ==> nodes[j] != nodes[k - 1];
    assert j != k + 1 && k + 1 < |nodes| ==> nodes[j] != nodes[k + 1];
  }

  lemma Start(ps: seq<Vma>, head: int, nodes: seq<nat>)
    requires Chain(ps, head, nodes) && nodes != []
    ensures head == nodes[0]
  {
  }
}
