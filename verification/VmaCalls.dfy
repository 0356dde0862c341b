/** What the two area system calls do to the list of areas, as functions on its contents, and what that means for
    the permissions granted at each address. */
module VmaCalls {
  import opened FreeList
  import opened Bits
  import opened Paging
  import opened VmaSpec
  import opened Views

  ghost predicate AllBacked(areas: seq<Area>) {
    forall i :: 0 <= i < |areas| ==> Backed(areas[i])
  }

  /** Areas in order, with sensible file ranges. */
  ghost predicate GoodList(list: seq<Area>) {
    Spaced(Visible(list)) && AllBacked(Visible(list))
  }

  // ---- Insertion in general ----

  /** What any insertion means: the areas stay in order, and the new range is granted if it fits. */
  lemma InsertionMeaning(list: seq<Area>, a: Area)
    requires GoodList(list) && Aligned(a) && Backed(a)
    ensures GoodList(AfterInsert(list, a))
    ensures var areas, areas' := Visible(list), Visible(AfterInsert(list, a));
      && (if HasSpareIn(list) && Fits(areas, a.va, a.End())
          then
            && a in areas'
            && forall x: int :: PermAt(areas', x) == if a.Covers(x) then Some(a.perm) else PermAt(areas, x)
          else areas' == areas)
      && (forall b :: b in areas ==> b in areas')
      && (HasSpareIn(list) && Fits(areas, a.va, a.End()) ==> InsertSucceeds(list, a))
  {
    if HasSpareIn(list) {
      VisibleWithoutSpare(list);
      var rest, areas := list[..|list| - 1], Visible(list);
      PlaceMeaning(rest, a);
      hide Spaced, Backed, Aligned, Visible, AfterPlace;
      if Fits(areas, a.va, a.End()) {
        var j: nat :| FitsAt(areas, a.va, a.End(), j) && Visible(AfterPlace(rest, a)) == InsertAt(areas, j, a);
        InsertMeaning(areas, a, j);
        InsertedMembers(areas, j, a);
      }
    }
  }

  lemma InsertedMembers(areas: seq<Area>, j: nat, a: Area)
    requires j <= |areas| && AllBacked(areas) && Backed(a)
    ensures var areas' := InsertAt(areas, j, a);
      AllBacked(areas') && a in areas' && forall b :: b in areas ==> b in areas'
  {
    hide InsertAt, Backed;
    var areas' := InsertAt(areas, j, a);
    InsertAtIndex(areas, j, a);
    forall b | b in areas ensures b in areas' {
      var i :| 0 <= i < |areas| && areas[i] == b;
      assert areas'[if i < j then i else i + 1] == b;
    }
  }

  // ---- Creation ----

  /** An unused node follows the visible areas. */
  predicate HasRoom(list: seq<Area>) { |Visible(list)| < |list| }

  function CreateVa(list: seq<Area>, size: nat): int {
    Vmem(Visible(list), HasRoom(list), RoundUp(size))
  }

  predicate CreateSucceeds(list: seq<Area>, size: nat, perm: nat) {
    var va := CreateVa(list, size);
    0 <= va && va + size <= USER_TOP && InsertSucceeds(list, NewArea(VmaAnon, va, size, perm, 0, 0))
  }

  /** The list after an anonymous area has been created at the first place where there is room. */
  function AfterCreate(list: seq<Area>, size: nat, perm: nat): seq<Area> {
    var va := CreateVa(list, size);
    if 0 <= va && va + size <= USER_TOP then AfterInsert(list, NewArea(VmaAnon, va, size, perm, 0, 0)) else list
  }

  /** The search for room finds a range that ends where another area starts. */
  ghost predicate CreateHides(list: seq<Area>, size: nat) {
    ExactFit(Visible(list), HasRoom(list), RoundUp(size))
  }

  /** Sizes that rounding does not wrap. When there is no area at all the search does not test the size. */
  predicate SizeOk(list: seq<Area>, size: nat) {
    size + PAGE_SIZE <= WORD_LIMIT && (Visible(list) == [] ==> size <= USER_TOP)
  }

  /** What a creation means: a range in vacant user space, which is granted unless the search met an exact fit. */
  lemma CreateMeaning(list: seq<Area>, size: nat, perm: nat)
    requires GoodList(list) && SizeOk(list, size) && perm < PAGE_SIZE
    ensures GoodList(AfterCreate(list, size, perm))
    ensures var va, areas, areas' := CreateVa(list, size), Visible(list), Visible(AfterCreate(list, size, perm));
      && (va >= 0 ==> va % PAGE_SIZE == 0 && va + RoundUp(size) <= USER_TOP && Vacant(areas, va, RoundUp(size)))
      && (CreateSucceeds(list, size, perm) && size > 0 && !CreateHides(list, size) ==>
            forall x: int :: PermAt(areas', x) == if va <= x < va + RoundUp(size) then Some(perm) else PermAt(areas, x))
      && (!CreateSucceeds(list, size, perm) || (size > 0 && CreateHides(list, size)) ==> areas' == areas)
      && (size == 0 ==> forall x: int :: PermAt(areas', x) == PermAt(areas, x))
  {
    hide Spaced, Backed, Aligned, Visible, AfterInsert, InsertSucceeds, Placed, Vacant, Vmem, NewArea, PermAt, Fits,
         StartsNowhere;
    var va, areas, spare := CreateVa(list, size), Visible(list), HasRoom(list);
    RoundUpIsCeiling(size);
    PlaceIsVacant(areas, spare, size);
    if va >= 0 {
      var a := NewArea(VmaAnon, va, size, perm, 0, 0);
      NewAreaBounds(va, size, perm);
      InsertionMeaning(list, a);
      InsertNeedsSpare(list, a);
      if size > 0 {
        VmemIsPlaced(areas, spare, RoundUp(size));
        PlacementFitsUnlessExact(areas, spare, RoundUp(size), va);
      }
      if !InsertSucceeds(list, a) {
        RejectedIsUnchanged(list, a);
      }
    }
  }

  lemma PlaceIsVacant(areas: seq<Area>, spare: bool, size: nat)
    requires Spaced(areas) && size + PAGE_SIZE <= WORD_LIMIT && (areas == [] ==> size <= USER_TOP)
    ensures var va := Vmem(areas, spare, RoundUp(size));
      va >= 0 ==> va % PAGE_SIZE == 0 && va + size <= va + RoundUp(size) <= USER_TOP && Vacant(areas, va, RoundUp(size))
  {
    hide Spaced, Placed, Vacant;
    var va := Vmem(areas, spare, RoundUp(size));
    VmemIsPlaced(areas, spare, RoundUp(size));
    RoundUpIsCeiling(size);
    hide Vmem, RoundUp;
    PlacementSoundAndComplete(areas, spare, RoundUp(size), va);
    if va >= 0 {
      PlacedAligned(areas, spare, RoundUp(size), va);
      if areas == [] {
        UserTopIsAligned(size);
        assert Placed(areas, spare, RoundUp(size), va) ==> va == 0;
      }
    }
  }

  lemma UserTopIsAligned(size: nat)
    requires size <= USER_TOP
    ensures RoundUp(size) <= USER_TOP
  {
    RoundUpIsCeiling(size);
  }

  lemma InsertNeedsSpare(list: seq<Area>, a: Area)
    ensures !HasSpareIn(list) ==> !InsertSucceeds(list, a)
  {
  }

  lemma RejectedIsUnchanged(list: seq<Area>, a: Area)
    requires !InsertSucceeds(list, a)
    ensures Visible(AfterInsert(list, a)) == Visible(list)
  {
    if HasSpareIn(list) {
      VisibleWithoutSpare(list);
    }
  }

  lemma NewAreaBounds(va: nat, size: nat, perm: nat)
    requires va % PAGE_SIZE == 0 && va + size <= USER_TOP && size + PAGE_SIZE <= WORD_LIMIT && perm < PAGE_SIZE
    requires va + RoundUp(size) <= USER_TOP
    ensures var a := NewArea(VmaAnon, va, size, perm, 0, 0);
      a.va == va && a.len == RoundUp(size) && a.perm == perm && Aligned(a) && Backed(a)
  {
    RoundUpShift(va, size);
  }

  lemma AllAligned(areas: seq<Area>)
    requires Spaced(areas)
    ensures forall i :: 0 <= i < |areas| ==> areas[i].va % PAGE_SIZE == 0 && areas[i].End() % PAGE_SIZE == 0
  {
    forall i | 0 <= i < |areas| ensures areas[i].va % PAGE_SIZE == 0 && areas[i].End() % PAGE_SIZE == 0 {
      assert Aligned(areas[i]);
    }
  }

  lemma BehindArea(areas: seq<Area>, spare: bool, size: nat, r: nat, i: nat)
    requires PlacedBehind(areas, spare, size, r, i)
    ensures i < |areas| && r == areas[i].End()
  {
    hide GapTakes;
  }

  lemma PlacedAligned(areas: seq<Area>, spare: bool, size: nat, r: nat)
    requires Spaced(areas) && Placed(areas, spare, size, r) && size % PAGE_SIZE == 0
    ensures r % PAGE_SIZE == 0
  {
    hide PlacedBehind, Spaced;
    AllAligned(areas);
    if areas != [] {
      if size > areas[0].va {
        var i: nat :| PlacedBehind(areas, spare, size, r, i);
        BehindArea(areas, spare, size, r, i);
      }
    }
  }

  /** When a creation fails: the last node is in use, or there is no vacant range of the size, or the search met an
      exact fit and the walk of the insertion takes the range nowhere behind the visible areas either. */
  lemma CreateFailsIff(list: seq<Area>, size: nat, perm: nat)
    requires GoodList(list) && SizeOk(list, size) && perm < PAGE_SIZE && size > 0
    ensures !CreateSucceeds(list, size, perm) <==>
      || !HasSpareIn(list)
      || (Visible(list) != [] && NoRoom(Visible(list), RoundUp(size)))
      || (CreateHides(list, size) && CreateVa(list, size) >= 0 &&
          !TakesHidden(list, CreateVa(list, size), CreateVa(list, size) + RoundUp(size)))
  {
    hide Spaced, Backed, Aligned, Visible, AfterInsert, InsertSucceeds, Placed, Vacant, Vmem, NewArea, PermAt, Fits,
         StartsNowhere, TakesHidden;
    var va, areas, spare := CreateVa(list, size), Visible(list), HasRoom(list);
    RoundUpIsCeiling(size);
    PlaceIsVacant(areas, spare, size);
    VmemIsPlaced(areas, spare, RoundUp(size));
    if HasSpareIn(list) {
      NoRoomIff(list, size);
    }
    if va >= 0 {
      var a := NewArea(VmaAnon, va, size, perm, 0, 0);
      NewAreaBounds(va, size, perm);
      InsertNeedsSpare(list, a);
      PlacementFitsUnlessExact(areas, spare, RoundUp(size), va);
      if HasSpareIn(list) {
        RejectedIff(list, a);
      }
    }
  }

  /** When a creation succeeds, for every size, also none: the last node is free, the search finds a place, and there
      the range keeps apart from all areas, or the walk of the insertion takes it somewhere behind them. */
  lemma CreateSucceedsIff(list: seq<Area>, size: nat, perm: nat)
    requires GoodList(list) && SizeOk(list, size) && perm < PAGE_SIZE
    ensures var va, end, areas := CreateVa(list, size), CreateVa(list, size) + RoundUp(size), Visible(list);
      CreateSucceeds(list, size, perm) <==>
        && list != [] && list[|list| - 1].kind == VmaUnused && va >= 0
        && ((forall k :: 0 <= k < |areas| ==> areas[k].End() <= va || end < areas[k].va) || TakesHidden(list, va, end))
  {
    hide Spaced, Backed, Aligned, Visible, InsertSucceeds, Vmem, NewArea, Fits, TakesHidden;
    var va, areas, spare := CreateVa(list, size), Visible(list), HasRoom(list);
    RoundUpIsCeiling(size);
    PlaceIsVacant(areas, spare, size);
    if va >= 0 {
      var a := NewArea(VmaAnon, va, size, perm, 0, 0);
      NewAreaBounds(va, size, perm);
      InsertNeedsSpare(list, a);
      FitsIffApart(areas, a.va, a.End());
      if HasSpareIn(list) {
        RejectedIff(list, a);
      }
    }
  }

  ghost predicate NoRoom(areas: seq<Area>, size: nat) {
    forall start: nat :: Vacant(areas, start, size) ==> start + size > USER_TOP
  }

  lemma NoRoomIff(list: seq<Area>, size: nat)
    requires Spaced(Visible(list)) && HasSpareIn(list) && SizeOk(list, size) && size > 0
    ensures CreateVa(list, size) < 0 <==> Visible(list) != [] && NoRoom(Visible(list), RoundUp(size))
  {
    hide Spaced, Placed, Vacant;
    RoundUpIsCeiling(size);
    var va, areas, spare := CreateVa(list, size), Visible(list), HasRoom(list);
    VisibleWithoutSpare(list);
    VmemIsPlaced(areas, spare, RoundUp(size));
    PlacementSoundAndComplete(areas, spare, RoundUp(size), va);
  }

  // ---- Destruction ----

  function Max(a: nat, b: nat): nat { if a > b then a else b }

  /** A range strictly inside an area is taken out, and there is no place for the rest behind it: no spare node, or
      another area starts right at the end, or the range is empty because no page boundary lies in it. */
  ghost predicate TailLost(areas: seq<Area>, spare: bool, i: nat, from: nat, to: nat)
    requires i < |areas|
  {
    areas[i].va < from && to < areas[i].End() && !(spare && from <= to && StartsNowhere(areas, areas[i].End()))
  }

  /** The areas grant what they granted before, minus exactly [from, to), and minus the rest of the area
      behind it in the cases where that is lost. */
  ghost predicate AreasAfterCut(areas: seq<Area>, spare: bool, i: nat, from: nat, to: nat, areas': seq<Area>)
    requires i < |areas|
  {
    forall x: int :: PermAt(areas', x) ==
      if from <= x < to then None
      else if TailLost(areas, spare, i, from, to) && Max(from, to) <= x < areas[i].End() then None
      else PermAt(areas, x)
  }

  /** A range that can be taken out of the area at position i. */
  predicate Cuttable(list: seq<Area>, i: nat, from: nat, to: nat) {
    i < |list| && list[i].va <= from <= list[i].End() <= USER_TOP && list[i].va <= to <= list[i].End()
  }

  /** The list after [from, to) has been taken out of an area: the area goes, shrinks, or is split. */
  function AfterCut(list: seq<Area>, i: nat, from: nat, to: nat): seq<Area>
    requires Cuttable(list, i, from, to)
  {
    var a := list[i];
    if from == a.va && to == a.End() then AfterUnuse(list, i)
    else if from == a.va then list[i := a.(va := to, len := a.End() - to)]
    else if to == a.End() then list[i := a.(len := from - a.va)]
    else AfterInsert(list[i := a.(len := from - a.va)], NewArea(a.kind, to, a.End() - to, a.perm, 0, 0))
  }

  lemma CutUnfolded(list: seq<Area>, i: nat, from: nat, to: nat)
    requires Cuttable(list, i, from, to)
    ensures var a, list' := list[i], AfterCut(list, i, from, to);
      && (from == a.va && to == a.End() ==> list' == AfterUnuse(list, i))
      && (from == a.va && to < a.End() ==> list' == list[i := a.(va := to, len := a.End() - to)])
      && (from > a.va && to == a.End() ==> list' == list[i := a.(len := from - a.va)])
      && (from > a.va && to < a.End() ==>
            list' == AfterInsert(list[i := a.(len := from - a.va)], NewArea(a.kind, to, a.End() - to, a.perm, 0, 0)))
  {
  }

  /** The list after a destroy call for [va, va + size). */
  ghost function AfterDestroy(list: seq<Area>, va: nat, size: nat): seq<Area> {
    match Find(Visible(list), va)
    case None => list
    case Some(i) =>
      var from, to := RoundUp(va), RoundDown(va + size);
      if Cuttable(list, i, from, to) then AfterCut(list, i, from, to) else list
  }

  lemma CutWhole(list: seq<Area>, i: nat)
    requires GoodList(list) && i < |Visible(list)|
    ensures var areas, list' := Visible(list), AfterUnuse(list, i);
      GoodList(list') && AreasAfterCut(areas, HasSpareIn(list), i, areas[i].va, areas[i].End(), Visible(list'))
  {
    hide Backed, Visible, Spaced, RemoveAt;
    var areas := Visible(list);
    UnuseMeaning(list, i);
    RemoveMeaning(areas, i);
    RemoveAtIndex(areas, i);
    OutsideOthers(areas, i);
    assert !TailLost(areas, HasSpareIn(list), i, areas[i].va, areas[i].End());
  }

  lemma CutShrunk(list: seq<Area>, i: nat, from: nat, to: nat, va: nat, len: nat)
    requires GoodList(list) && i < |Visible(list)| && from % PAGE_SIZE == 0 && to % PAGE_SIZE == 0
    requires var a := Visible(list)[i];
      && a.va <= from <= to <= a.End()
      && ((from == a.va && va == to && va + len == a.End()) || (to == a.End() && va == a.va && va + len == from))
    ensures va % PAGE_SIZE == 0 && len % PAGE_SIZE == 0
    ensures var list' := list[i := list[i].(va := va, len := len)];
      GoodList(list') && AreasAfterCut(Visible(list), HasSpareIn(list), i, from, to, Visible(list'))
  {
    hide Backed, Aligned, Visible;
    var areas := Visible(list);
    var a := areas[i].(va := va, len := len);
    TrimAligned(areas, i, from, to, va, len);
    ShrinkMeaning(areas, i, va, len);
    OutsideOthers(areas, i);
    CutBacked(areas, i, va, len);
    VisibleAfterShrink(list, i, a);
    assert !TailLost(areas, HasSpareIn(list), i, from, to);
    forall x: int ensures PermAt(areas[i := a], x) == if from <= x < to then None else PermAt(areas, x) {
      assert areas[i].Covers(x) && !a.Covers(x) <==> from <= x < to;
    }
  }

  lemma AlignedArea(areas: seq<Area>, i: nat)
    requires Spaced(areas) && i < |areas|
    ensures areas[i].va % PAGE_SIZE == 0 && areas[i].len % PAGE_SIZE == 0 && areas[i].End() <= USER_TOP
    ensures areas[i].End() % PAGE_SIZE == 0 && areas[i].kind != VmaUnused
  {
    assert Aligned(areas[i]);
  }

  lemma TrimAligned(areas: seq<Area>, i: nat, from: nat, to: nat, va: nat, len: nat)
    requires Spaced(areas) && i < |areas| && from % PAGE_SIZE == 0 && to % PAGE_SIZE == 0
    requires (from == areas[i].va && va == to && va + len == areas[i].End()) ||
             (to == areas[i].End() && va == areas[i].va && va + len == from)
    ensures va % PAGE_SIZE == 0 && len % PAGE_SIZE == 0
  {
    hide Spaced;
    AlignedArea(areas, i);
    MultipleDifference(areas[i].End(), to);
    MultipleDifference(from, areas[i].va);
  }

  lemma MultipleDifference(a: nat, b: nat)
    requires a % PAGE_SIZE == 0 && b % PAGE_SIZE == 0
    ensures (a - b) % PAGE_SIZE == 0
  {
    assert a - b == PAGE_SIZE * (a / PAGE_SIZE - b / PAGE_SIZE);
  }

  lemma CutBacked(areas: seq<Area>, i: nat, va: nat, len: nat)
    requires i < |areas| && AllBacked(areas) && areas[i].va <= va && va + len <= areas[i].End()
    ensures AllBacked(areas[i := areas[i].(va := va, len := len)])
  {
    hide RoundUp, RoundDown;
  }

  /** Inside an area its permissions are what is granted. */
  lemma OutsideOthers(areas: seq<Area>, i: nat)
    requires Spaced(areas) && i < |areas|
    ensures forall x: int :: areas[i].Covers(x) ==> PermAt(areas, x) == Some(areas[i].perm)
  {
    forall x: int | areas[i].Covers(x) ensures PermAt(areas, x) == Some(areas[i].perm) {
      PermIs(areas, x, i);
    }
  }

  lemma TailBounds(areas: seq<Area>, i: nat, to: nat)
    requires Spaced(areas) && i < |areas| && Backed(areas[i])
    requires areas[i].va <= to <= areas[i].End() && to % PAGE_SIZE == 0
    ensures areas[i].kind != VmaUnused && areas[i].End() <= USER_TOP
    ensures var t := NewArea(areas[i].kind, to, areas[i].End() - to, areas[i].perm, 0, 0);
      t.va == to && t.End() == areas[i].End() && t.perm == areas[i].perm && Aligned(t) && Backed(t)
  {
    hide RoundUp, RoundDown, Spaced;
    AlignedArea(areas, i);
    RoundsToItself(to);
    RoundsToItself(areas[i].End());
  }

  lemma ShrunkSpaced(areas: seq<Area>, i: nat, from: nat)
    requires Spaced(areas) && AllBacked(areas) && i < |areas| && from % PAGE_SIZE == 0
    requires areas[i].va <= from <= areas[i].End()
    ensures var areas1 := areas[i := areas[i].(len := from - areas[i].va)];
      && Spaced(areas1) && AllBacked(areas1)
      && forall x: int :: PermAt(areas1, x) ==
           if areas[i].Covers(x) && from <= x then None else PermAt(areas, x)
  {
    hide Spaced, Backed, PermAt;
    var a, a1 := areas[i], areas[i].(len := from - areas[i].va);
    AlignedArea(areas, i);
    MultipleDifference(from, a.va);
    ShrinkMeaning(areas, i, a.va, from - a.va);
    CutBacked(areas, i, a.va, from - a.va);
    assert a.(va := a.va, len := from - a.va) == a1;
    forall x: int ensures PermAt(areas[i := a1], x) == if a.Covers(x) && from <= x then None else PermAt(areas, x) {
      assert a.Covers(x) && !a1.Covers(x) <==> a.Covers(x) && from <= x;
    }
  }

  /** Behind a shrunk area its former rear part fits exactly when it does not overlap what is left and no other area
      starts where it ends. */
  lemma TailFits(areas: seq<Area>, i: nat, from: nat, to: nat)
    requires Spaced(areas) && i < |areas| && areas[i].va < from <= areas[i].End() && areas[i].va <= to < areas[i].End()
    requires Spaced(areas[i := areas[i].(len := from - areas[i].va)])
    ensures var areas1 := areas[i := areas[i].(len := from - areas[i].va)];
      Fits(areas1, to, areas[i].End()) <==> from <= to && StartsNowhere(areas, areas[i].End())
  {
    var a, end := areas[i], areas[i].End();
    var areas1 := areas[i := a.(len := from - a.va)];
    FitsIffApart(areas1, to, end);
    hide Fits, Aligned;
    assert areas1[i].End() == from && areas1[i].va < end;
    if from <= to && StartsNowhere(areas, end) {
      forall k | 0 <= k < |areas1| ensures areas1[k].End() <= to || end < areas1[k].va {
        assert k < i ==> areas[k].End() <= a.va;
        assert k > i ==> end <= areas[k].va && areas[k].va != end;
      }
    } else if to < from {
      assert !(areas1[i].End() <= to || end < areas1[i].va);
    } else {
      var k :| 0 <= k < |areas| && areas[k].va == end;
      assert !(areas1[k].End() <= to || end < areas1[k].va);
    }
  }

  lemma CutMiddle(list: seq<Area>, i: nat, from: nat, to: nat)
    requires GoodList(list) && i < |Visible(list)| && from % PAGE_SIZE == 0 && to % PAGE_SIZE == 0
    requires var a := Visible(list)[i];
      a.va < from <= a.End() <= USER_TOP && a.va <= to < a.End() && list[i].End() == a.End() && list[i] == a
    ensures var a := list[i];
      var list' := AfterInsert(list[i := a.(len := from - a.va)], NewArea(a.kind, to, a.End() - to, a.perm, 0, 0));
      GoodList(list') && AreasAfterCut(Visible(list), HasSpareIn(list), i, from, to, Visible(list'))
  {
    hide Spaced, Backed, Aligned, NewArea, PermAt, StartsNowhere, Visible, AfterInsert, Fits;
    var areas, a := Visible(list), list[i];
    var a1, t := a.(len := from - a.va), NewArea(a.kind, to, a.End() - to, a.perm, 0, 0);
    var list1, areas1 := list[i := a1], areas[i := a1];
    ShrunkSpaced(areas, i, from);
    VisibleAfterShrink(list, i, a1);
    TailBounds(areas, i, to);
    TailFits(areas, i, from, to);
    OutsideOthers(areas, i);
    InsertionMeaning(list1, t);
    var areas' := Visible(AfterInsert(list1, t));
    forall x: int ensures PermAt(areas', x) ==
      if from <= x < to then None
      else if TailLost(areas, HasSpareIn(list), i, from, to) && Max(from, to) <= x < areas[i].End() then None
      else PermAt(areas, x)
    {
      assert t.Covers(x) <==> to <= x < a.End();
      assert PermAt(areas1, x) == if a.Covers(x) && from <= x then None else PermAt(areas, x);
      assert a.Covers(x) ==> PermAt(areas, x) == Some(a.perm);
    }
  }

  /** Taking a range out of an area is interval subtraction, in all four cases. */
  lemma CutMeaning(list: seq<Area>, i: nat, from: nat, to: nat)
    requires GoodList(list) && i < |Visible(list)| && from % PAGE_SIZE == 0 && to % PAGE_SIZE == 0
    requires Cuttable(list, i, from, to)
    requires from == list[i].va ==> from <= to
    ensures GoodList(AfterCut(list, i, from, to))
    ensures AreasAfterCut(Visible(list), HasSpareIn(list), i, from, to, Visible(AfterCut(list, i, from, to)))
  {
    hide GoodList, AreasAfterCut, AfterInsert, AfterUnuse, AfterCut, NewArea, Visible;
    var a := list[i];
    VisibleAt(list, i);
    CutUnfolded(list, i, from, to);
    if from == a.va && to == a.End() {
      CutWhole(list, i);
    } else if from == a.va {
      CutShrunk(list, i, from, to, to, a.End() - to);
    } else if to == a.End() {
      CutShrunk(list, i, from, to, a.va, from - a.va);
      assert a.(va := a.va, len := from - a.va) == a.(len := from - a.va);
    } else {
      CutMiddle(list, i, from, to);
    }
  }

  /** The page boundaries a destroy call works with: from the first at or above its start to the last at or below its
      end. When there is none in between, they come out in the wrong order, one page apart. */
  lemma DestroyBounds(list: seq<Area>, va: nat, size: nat, i: nat)
    requires GoodList(list) && va + size < WORD_LIMIT && Find(Visible(list), va) == Some(i)
    requires RoundDown(va + size) <= Visible(list)[i].End()
    ensures var from, to := RoundUp(va), RoundDown(va + size);
      && Cuttable(list, i, from, to) && (from == list[i].va ==> from <= to) && from <= to + PAGE_SIZE
  {
    hide Visible, Backed;
    var areas := Visible(list);
    AlignedArea(areas, i);
    RoundUpIsCeiling(va);
    BoundaryAbove(va, areas[i].End());
    BoundaryBelow(va, size, areas[i].va);
  }

  lemma BoundaryAbove(va: nat, end: nat)
    requires va < end && end % PAGE_SIZE == 0 && end <= USER_TOP
    ensures RoundUp(va) <= end && (va % PAGE_SIZE == 0 ==> RoundUp(va) == va)
  {
    hide RoundUp, RoundDown;
    RoundUpIsCeiling(va);
    MultipleDifference(RoundUp(va), end);
    SmallMultiple(RoundUp(va) - end);
    if va % PAGE_SIZE == 0 {
      RoundsToItself(va);
    }
  }

  lemma SmallMultiple(d: int)
    requires d % PAGE_SIZE == 0 && d < PAGE_SIZE
    ensures d <= 0
  {
  }

  lemma BoundaryBelow(va: nat, size: nat, start: nat)
    requires start <= va && start % PAGE_SIZE == 0 && va + PAGE_SIZE <= WORD_LIMIT
    ensures start <= RoundDown(va + size) && RoundUp(va) <= RoundDown(va + size) + PAGE_SIZE
    ensures RoundUp(va) == start ==> start <= RoundDown(va + size)
  {
    RoundUpIsCeiling(va);
  }

  lemma DestroyMeaning(list: seq<Area>, va: nat, size: nat)
    requires GoodList(list) && va + size < WORD_LIMIT
    ensures GoodList(AfterDestroy(list, va, size))
    ensures match Find(Visible(list), va)
      case None => AfterDestroy(list, va, size) == list
      case Some(i) =>
        var from, to := RoundUp(va), RoundDown(va + size);
        if to > Visible(list)[i].End() then AfterDestroy(list, va, size) == list
        else
          && Cuttable(list, i, from, to) && AfterDestroy(list, va, size) == AfterCut(list, i, from, to)
          && AreasAfterCut(Visible(list), HasSpareIn(list), i, from, to, Visible(AfterDestroy(list, va, size)))
  {
    hide GoodList, AreasAfterCut, AfterCut, RoundUp, RoundDown;
    match Find(Visible(list), va)
    case None =>
    case Some(i) =>
      if RoundDown(va + size) <= Visible(list)[i].End() {
        DestroyBounds(list, va, size, i);
        CutMeaning(list, i, RoundUp(va), RoundDown(va + size));
      }
  }

  /** The same address by address, for the area i that covers `va`, the first page boundary `from` at or above `va` and
      the last one `to` at or below the end of the range. */
  lemma DestroySubtracts(list: seq<Area>, va: nat, size: nat, i: nat, from: nat, to: nat, x: int)
    requires GoodList(list) && va + size < WORD_LIMIT && i < |Visible(list)|
    requires Visible(list)[i].va <= va < Visible(list)[i].va + Visible(list)[i].len
    requires from % 4096 == 0 && va <= from < va + 4096 && to % 4096 == 0 && to <= va + size < to + 4096
    ensures var areas, areas' := Visible(list), Visible(AfterDestroy(list, va, size));
      var start, end := areas[i].va, areas[i].va + areas[i].len;
      var kept :=
        list[|list| - 1].kind == VmaUnused && from <= to && forall k :: 0 <= k < |areas| ==> areas[k].va != end;
      if to > end then AfterDestroy(list, va, size) == list
      else
        PermAt(areas', x) ==
          if from <= x < to then None
          else if start < from && to < end && !kept && from <= x && to <= x < end then None
          else PermAt(areas, x)
  {
    hide Visible, AfterDestroy, AfterCut, PermAt, Aligned, Backed, Spaced;
    var areas := Visible(list);
    FindUnique(areas, va, i);
    LooksBelowTop(areas, i, va);
    RoundUpIsCeiling(va);
    SameBoundary(RoundUp(va), from, va);
    SameBoundary(RoundDown(va + size), to, va + size - 4095);
    hide RoundUp, RoundDown;
    DestroyMeaning(list, va, size);
    if to <= areas[i].End() {
      assert AreasAfterCut(areas, HasSpareIn(list), i, from, to, Visible(AfterDestroy(list, va, size)));
    }
  }

  lemma LooksBelowTop(areas: seq<Area>, i: nat, va: nat)
    requires Spaced(areas) && i < |areas| && areas[i].Covers(va)
    ensures va + PAGE_SIZE <= WORD_LIMIT
  {
    assert Aligned(areas[i]);
  }

  lemma SameBoundary(a: nat, b: nat, low: int)
    requires a % 4096 == 0 && b % 4096 == 0 && low <= a < low + 4096 && low <= b < low + 4096
    ensures a == b
  {
  }

  // ---- Where the calls fall short of interval arithmetic ----

  /** An anonymous, readable area of whole pages. */
  function Pages(first: nat, count: nat): Area {
    Area(VmaAnon, first * PAGE_SIZE, count * PAGE_SIZE, PAGE_USER, first * PAGE_SIZE, 0, count * PAGE_SIZE, 0)
  }

  lemma PagesAreGood(first: nat, count: nat)
    requires (first + count) * PAGE_SIZE <= USER_TOP
    ensures Aligned(Pages(first, count)) && Backed(Pages(first, count))
  {
    hide RoundUp, RoundDown;
    RoundsToItself(first * PAGE_SIZE);
    RoundsToItself((first + count) * PAGE_SIZE);
  }

  /** An exact fit goes unnoticed exactly when the walk takes the range behind the visible areas: then the call succeeds
      and grants nothing, and otherwise it fails. */
  lemma ExactFitGrantsNothing(list: seq<Area>, size: nat, perm: nat)
    requires GoodList(list) && SizeOk(list, size) && perm < PAGE_SIZE && size > 0
    requires HasSpareIn(list) && CreateHides(list, size)
    ensures CreateVa(list, size) >= 0
    ensures CreateSucceeds(list, size, perm) <==>
      TakesHidden(list, CreateVa(list, size), CreateVa(list, size) + RoundUp(size))
    ensures Visible(AfterCreate(list, size, perm)) == Visible(list)
  {
    hide Spaced, AllBacked, AfterCreate, CreateSucceeds, NoRoom, Visible, PermAt, TakesHidden;
    CreateMeaning(list, size, perm);
    CreateFailsIff(list, size, perm);
    NoRoomIff(list, size);
  }

  lemma PageZero()
    ensures NewArea(VmaAnon, 0, PAGE_SIZE, PAGE_USER, 0, 0) == Pages(0, 1) && RoundUp(PAGE_SIZE) == PAGE_SIZE
  {
    RoundsToItself(PAGE_SIZE);
  }

  lemma OnlyPageOne(list: seq<Area>)
    requires |list| >= 2 && list[0] == Pages(1, 1) && list[1].kind == VmaUnused
    ensures GoodList(list) && Visible(list) == [Pages(1, 1)]
  {
    hide Backed, Aligned, Visible;
    VisibleIs(list, 1);
    PagesAreGood(1, 1);
    assert Visible(list) == [Pages(1, 1)];
  }

  /** What one page more does to a list that starts with the area of page 1: an exact fit at address 0. */
  lemma OnePageMore(list: seq<Area>)
    requires |list| >= 2 && list[0] == Pages(1, 1) && list[1].kind == VmaUnused
    ensures Visible(list) == [Pages(1, 1)] && CreateHides(list, PAGE_SIZE)
    ensures AfterCreate(list, PAGE_SIZE, PAGE_USER) == AfterInsert(list, Pages(0, 1))
    ensures CreateSucceeds(list, PAGE_SIZE, PAGE_USER) <==> InsertSucceeds(list, Pages(0, 1))
  {
    hide AfterInsert, InsertSucceeds, Visible, GoodList, RoundUp, NewArea;
    OnlyPageOne(list);
    PageZero();
    assert Visible(list)[0].va == PAGE_SIZE;
  }

  /** For instance: with page 1 in use, a page is created at address 0, and no lookup sees it. The same call again
      fails, because the hidden area now stands behind the unused node that let it in, and a node is lost. After that
      the list still has an unused node, but none at its end. */
  lemma ExactFitIsHidden()
    ensures var list := [Pages(1, 1), UNUSED, UNUSED, UNUSED];
      var once := AfterCreate(list, PAGE_SIZE, PAGE_USER);
      && CreateHides(list, PAGE_SIZE) && CreateSucceeds(list, PAGE_SIZE, PAGE_USER)
      && once == [Pages(1, 1), UNUSED, Pages(0, 1), UNUSED] && Visible(once) == [Pages(1, 1)]
      && CreateHides(once, PAGE_SIZE) && !CreateSucceeds(once, PAGE_SIZE, PAGE_USER)
      && AfterCreate(once, PAGE_SIZE, PAGE_USER) == [Pages(1, 1), UNUSED, Pages(0, 1)]
  {
    hide CreateSucceeds, AfterCreate, CreateHides, Visible, AfterInsert, InsertSucceeds;
    var list, once := [Pages(1, 1), UNUSED, UNUSED, UNUSED], [Pages(1, 1), UNUSED, Pages(0, 1), UNUSED];
    OnePageMore(list);
    OnePageMore(once);
    HiddenFirst();
    RejectedSecond();
  }

  lemma HiddenFirst()
    ensures var list := [Pages(1, 1), UNUSED, UNUSED, UNUSED];
      InsertSucceeds(list, Pages(0, 1)) && AfterInsert(list, Pages(0, 1)) == [Pages(1, 1), UNUSED, Pages(0, 1), UNUSED]
  {
    var list, rest := [Pages(1, 1), UNUSED, UNUSED, UNUSED], [Pages(1, 1), UNUSED, UNUSED];
    assert list[..3] == rest;
    assert !Takes(rest, 0, PAGE_SIZE, 0) && !Takes(rest, 0, PAGE_SIZE, 1) && Takes(rest, 0, PAGE_SIZE, 2);
    hide PlaceFrom;
    assert PlaceFrom(rest, 0, PAGE_SIZE, 0) == Some(2);
  }

  lemma RejectedSecond()
    ensures var list := [Pages(1, 1), UNUSED, Pages(0, 1), UNUSED];
      !InsertSucceeds(list, Pages(0, 1)) && AfterInsert(list, Pages(0, 1)) == [Pages(1, 1), UNUSED, Pages(0, 1)]
  {
    var list, rest := [Pages(1, 1), UNUSED, Pages(0, 1), UNUSED], [Pages(1, 1), UNUSED, Pages(0, 1)];
    assert list[..3] == rest;
    assert !Takes(rest, 0, PAGE_SIZE, 0) && !Takes(rest, 0, PAGE_SIZE, 1);
    assert !Takes(rest, 0, PAGE_SIZE, 2) && !Takes(rest, 0, PAGE_SIZE, 3);
    hide PlaceFrom, Takes;
    assert PlaceFrom(rest, 0, PAGE_SIZE, 0) == None;
  }

  /** A lost tail: pages 1 to 3 are one area and page 4 another; giving up page 2 takes page 3 along. */
  lemma SplitLosesTail()
    ensures var list := [Pages(1, 3), Pages(4, 1), UNUSED, UNUSED];
      var list' := AfterDestroy(list, 2 * PAGE_SIZE, PAGE_SIZE);
      && GoodList(list) && HasSpareIn(list)
      && PermAt(Visible(list), 3 * PAGE_SIZE) == Some(PAGE_USER) && PermAt(Visible(list'), 3 * PAGE_SIZE) == None
  {
    var list := [Pages(1, 3), Pages(4, 1), UNUSED, UNUSED];
    VisibleIs(list, 2);
    PagesAreGood(1, 3);
    PagesAreGood(4, 1);
    hide Backed, Aligned, Visible;
    assert Visible(list) == [Pages(1, 3), Pages(4, 1)];
    LosesPageThree(list, 2 * PAGE_SIZE, PAGE_SIZE);
  }

  /** A range without a page boundary: giving up one byte of page 2 takes page 3 along. */
  lemma OneByteLosesTail()
    ensures var list := [Pages(1, 3), UNUSED, UNUSED];
      var list' := AfterDestroy(list, 2 * PAGE_SIZE + 1, 1);
      && GoodList(list) && HasSpareIn(list)
      && PermAt(Visible(list), 3 * PAGE_SIZE) == Some(PAGE_USER) && PermAt(Visible(list'), 3 * PAGE_SIZE) == None
  {
    var list := [Pages(1, 3), UNUSED, UNUSED];
    VisibleIs(list, 1);
    PagesAreGood(1, 3);
    hide Backed, Aligned, Visible;
    assert Visible(list) == [Pages(1, 3)];
    LosesPageThree(list, 2 * PAGE_SIZE + 1, 1);
  }

  lemma LosesPageThree(list: seq<Area>, va: nat, size: nat)
    requires GoodList(list) && Visible(list) != [] && Visible(list)[0] == Pages(1, 3)
    requires RoundUp(va) == (if size == 1 then 3 else 2) * PAGE_SIZE && 2 * PAGE_SIZE <= va < 3 * PAGE_SIZE
    requires RoundDown(va + size) == (if size == 1 then 2 else 3) * PAGE_SIZE && va + size < WORD_LIMIT
    requires size == 1 || !StartsNowhere(Visible(list), 4 * PAGE_SIZE)
    ensures PermAt(Visible(list), 3 * PAGE_SIZE) == Some(PAGE_USER)
    ensures PermAt(Visible(AfterDestroy(list, va, size)), 3 * PAGE_SIZE) == None
  {
    hide Backed, Aligned, Visible, AfterDestroy, AfterCut, RoundUp, RoundDown, Spaced;
    var areas := Visible(list);
    DestroyMeaning(list, va, size);
    FindUnique(areas, va, 0);
    PermIs(areas, 3 * PAGE_SIZE, 0);
    assert TailLost(areas, HasSpareIn(list), 0, RoundUp(va), RoundDown(va + size));
  }

  // ---- Sequences of calls and faults ----

  datatype Event =
    | Create(size: nat, perm: nat, populate: bool)
    | Destroy(va: nat, size: nat)
    | Fault(va: nat, isUser: bool, isProtection: bool)

  /** Arguments the calls are meant for: sizes within user space, permissions in the low twelve bits, and ranges that
      do not wrap. */
  predicate EventOk(e: Event) {
    match e
    case Create(size, perm, _) => size <= USER_TOP && perm < PAGE_SIZE
    case Destroy(va, size) => va + size < WORD_LIMIT
    case Fault(_, _, _) => true
  }

  ghost function AfterEvent(list: seq<Area>, e: Event): seq<Area> {
    match e
    case Create(size, perm, _) => AfterCreate(list, size, Or(perm, PAGE_USER))
    case Destroy(va, size) => AfterDestroy(list, va, size)
    case Fault(_, _, _) => list
  }

  ghost function AfterAll(list: seq<Area>, events: seq<Event>): seq<Area> {
    if events == [] then list else AfterEvent(AfterAll(list, events[..|events| - 1]), events[|events| - 1])
  }

  /** The event ends the environment or stops the kernel. */
  ghost predicate Ends(list: seq<Area>, e: Event, kernelVma: nat) {
    match e
    case Create(_, _, _) => false
    case Destroy(va, size) =>
      (match Find(Visible(list), va)
       case None => true
       case Some(i) => RoundDown(va + size) > Visible(list)[i].End())
    case Fault(va, isUser, isProtection) =>
      || (!isUser && RoundDown(va) >= kernelVma)
      || (isUser && isProtection)
      || Find(Visible(list), RoundDown(va)) == None
  }

  /** The event leaves no page mapped outside the areas: it does not populate an area that no lookup sees, and it does
      not lose the rear part of an area. */
  ghost predicate Harmless(list: seq<Area>, e: Event) {
    match e
    case Create(size, perm, populate) =>
      populate && size > 0 && CreateSucceeds(list, size, Or(perm, PAGE_USER)) ==> !CreateHides(list, size)
    case Destroy(va, size) =>
      (match Find(Visible(list), va)
       case None => true
       case Some(i) =>
         RoundDown(va + size) <= Visible(list)[i].End() ==>
           !TailLost(Visible(list), HasSpareIn(list), i, RoundUp(va), RoundDown(va + size)))
    case Fault(_, _, _) => true
  }

  lemma DestroyUnfolded(list: seq<Area>, va: nat, size: nat, kernelVma: nat)
    ensures AfterEvent(list, Destroy(va, size)) == AfterDestroy(list, va, size)
    ensures Ends(list, Destroy(va, size), kernelVma) <==> Ends(list, Destroy(va, size), 0)
    ensures Ends(list, Destroy(va, size), 0) ==> AfterDestroy(list, va, size) == list
    ensures Ends(list, Destroy(va, size), 0) <==>
      match Find(Visible(list), va)
      case None => true
      case Some(i) => RoundDown(va + size) > Visible(list)[i].End()
    ensures !Ends(list, Destroy(va, size), 0) ==>
      && Find(Visible(list), va).Some?
      && (Harmless(list, Destroy(va, size)) <==>
            var i := Find(Visible(list), va).value;
            !TailLost(Visible(list), HasSpareIn(list), i, RoundUp(va), RoundDown(va + size)))
  {
    hide Visible, TailLost, RoundUp, RoundDown, AfterCut;
    BeyondIsNotCut(list, va, size);
  }

  lemma BeyondIsNotCut(list: seq<Area>, va: nat, size: nat)
    ensures Ends(list, Destroy(va, size), 0) ==> AfterDestroy(list, va, size) == list
  {
    hide Visible, RoundUp, RoundDown, AfterCut;
    match Find(Visible(list), va)
    case Some(i) => VisibleAt(list, i);
    case None =>
  }

  lemma FaultUnfolded(list: seq<Area>, va: nat, isUser: bool, isProtection: bool, kernelVma: nat)
    ensures var e := Fault(va, isUser, isProtection);
      && AfterEvent(list, e) == list && Harmless(list, e)
      && (Ends(list, e, kernelVma) <==>
            || (!isUser && RoundDown(va) >= kernelVma) || (isUser && isProtection)
            || Find(Visible(list), RoundDown(va)) == None)
  {
  }

  lemma CreateUnfolded(list: seq<Area>, size: nat, perm: nat, populate: bool, kernelVma: nat)
    ensures var e := Create(size, perm, populate);
      AfterEvent(list, e) == AfterCreate(list, size, Or(perm, PAGE_USER)) && !Ends(list, e, kernelVma)
  {
  }

  lemma EndIsHarmless(list: seq<Area>, e: Event, kernelVma: nat)
    ensures Ends(list, e, kernelVma) ==> Harmless(list, e)
  {
  }

  lemma UserPerm(perm: nat)
    requires perm < PAGE_SIZE
    ensures Or(perm, PAGE_USER) < PAGE_SIZE
  {
    Shift12(0);
    OrSplit(0, 0, perm, PAGE_USER, 12);
  }

  /** No call has done harm so far. */
  ghost predicate Intact(list: seq<Area>, events: seq<Event>) {
    forall k :: 0 <= k < |events| ==> Harmless(AfterAll(list, events[..k]), events[k])
  }

  /** Event k finds a list of at least two nodes, if it is a call, and does not end the run. */
  ghost predicate GoesOn(list: seq<Area>, events: seq<Event>, k: nat, kernelVma: nat) {
    && k < |events|
    && (|AfterAll(list, events[..k])| >= 2 || events[k].Fault?)
    && !Ends(AfterAll(list, events[..k]), events[k], kernelVma)
  }

  lemma NoEvents(list: seq<Area>, events: seq<Event>)
    ensures AfterAll(list, events[..0]) == list && Intact(list, events[..0])
  {
  }

  lemma OneMoreEvent(list: seq<Area>, events: seq<Event>, k: nat, kernelVma: nat)
    requires k < |events|
    ensures events[k] in events
    ensures AfterAll(list, events[..k + 1]) == AfterEvent(AfterAll(list, events[..k]), events[k])
    ensures Intact(list, events[..k + 1]) ==>
      Intact(list, events[..k]) && Harmless(AfterAll(list, events[..k]), events[k])
    ensures GoesOn(list, events, k, kernelVma) <==>
      && (|AfterAll(list, events[..k])| >= 2 || events[k].Fault?)
      && !Ends(AfterAll(list, events[..k]), events[k], kernelVma)
  {
    hide AfterEvent, Harmless, Ends;
    var more := events[..k + 1];
    assert more[..k] == events[..k] && more[k] == events[k];
    assert forall j :: 0 <= j < k ==> more[..j] == events[..k][..j] && more[j] == events[..k][j];
  }

  // ---- Loading a program ----

  const USTACK_TOP: nat := USER_TOP - 2 * PAGE_SIZE
  const UTEMP: nat := PAGE_SIZE

  /** A loadable program header: where the segment lies in user memory and in the file. */
  datatype ProgramSegment = ProgramSegment(memVa: nat, memSize: nat, fileVa: nat, fileSize: nat)

  /** The segment ends in user space, and the file range stays inside the 64-bit address space. */
  predicate SegmentFits(p: ProgramSegment) {
    && p.memVa + p.memSize <= USER_TOP && p.memVa % PAGE_SIZE <= p.fileVa
    && p.fileVa + p.fileSize < WORD_LIMIT && p.fileVa + p.memSize + 2 * PAGE_SIZE < WORD_LIMIT
  }

  function SegmentArea(p: ProgramSegment): Area
    requires SegmentFits(p)
  {
    NewArea(VmaBinary, p.memVa, p.memSize, Or(PAGE_WRITE, PAGE_USER), p.fileVa, p.fileSize)
  }

  function PageArea(va: nat, perm: nat): Area
    requires va + PAGE_SIZE <= USER_TOP
  {
    NewArea(VmaAnon, va, PAGE_SIZE, perm, 0, 0)
  }

  /** The areas of a program in the order in which they are added: its segments, its stack and two more pages. */
  function ProgramAreas(segments: seq<ProgramSegment>): seq<Area>
    requires forall i :: 0 <= i < |segments| ==> SegmentFits(segments[i])
  {
    seq(|segments|, i requires 0 <= i < |segments| => SegmentArea(segments[i])) +
    [PageArea(USTACK_TOP - PAGE_SIZE, Or(PAGE_WRITE, PAGE_USER)), PageArea(UTEMP, PAGE_USER),
     PageArea(UTEMP + PAGE_SIZE, Or(PAGE_WRITE, PAGE_USER))]
  }

  lemma ProgramAreasAre(segments: seq<ProgramSegment>)
    requires forall i :: 0 <= i < |segments| ==> SegmentFits(segments[i])
    ensures var img, n := ProgramAreas(segments), |segments|;
      && |img| == n + 3 && (forall i :: 0 <= i < n ==> img[i] == SegmentArea(segments[i]))
      && img[n] == PageArea(USTACK_TOP - PAGE_SIZE, Or(PAGE_WRITE, PAGE_USER))
      && img[n + 1] == PageArea(UTEMP, PAGE_USER)
      && img[n + 2] == PageArea(UTEMP + PAGE_SIZE, Or(PAGE_WRITE, PAGE_USER))
    ensures Or(PAGE_WRITE, PAGE_USER) < PAGE_SIZE
  {
    UserPerm(PAGE_WRITE);
  }

  function AfterInserts(list: seq<Area>, areas: seq<Area>): seq<Area> {
    if areas == [] then list else AfterInsert(AfterInserts(list, areas[..|areas| - 1]), areas[|areas| - 1])
  }

  /** None of the segments is rejected. */
  predicate SegmentsSucceed(list: seq<Area>, segments: seq<ProgramSegment>)
    requires forall i :: 0 <= i < |segments| ==> SegmentFits(segments[i])
  {
    var img := ProgramAreas(segments);
    forall k :: 0 <= k < |segments| ==> InsertSucceeds(AfterInserts(list, img[..k]), img[k])
  }

  lemma NothingInserted(list: seq<Area>, areas: seq<Area>)
    ensures AfterInserts(list, areas[..0]) == list
  {
  }

  lemma OneMoreInsert(list: seq<Area>, areas: seq<Area>, k: nat)
    requires k < |areas|
    ensures AfterInserts(list, areas[..k + 1]) == AfterInsert(AfterInserts(list, areas[..k]), areas[k])
  {
    assert areas[..k + 1][..k] == areas[..k];
  }

  lemma InsertLength(list: seq<Area>, a: Area)
    ensures |list| <= |AfterInsert(list, a)| + 1 && (InsertSucceeds(list, a) ==> |AfterInsert(list, a)| == |list|)
  {
  }

  lemma SegmentIsBacked(p: ProgramSegment)
    requires SegmentFits(p)
    ensures Aligned(SegmentArea(p)) && Backed(SegmentArea(p))
  {
    UserPerm(PAGE_WRITE);
    RoundUpIsCeiling(p.memVa + p.memSize);
  }

  lemma PageIsBacked(va: nat, perm: nat)
    requires va % PAGE_SIZE == 0 && va + PAGE_SIZE <= USER_TOP && perm < PAGE_SIZE
    ensures Aligned(PageArea(va, perm)) && Backed(PageArea(va, perm))
  {
    RoundsToItself(va);
    RoundsToItself(va + PAGE_SIZE);
  }

  /** Areas that do not touch: of any two, one ends before the other begins, strictly so if it was added later. */
  predicate KeepApart(areas: seq<Area>) {
    forall i, j :: 0 <= i < j < |areas| ==> areas[i].End() <= areas[j].va || areas[j].End() < areas[i].va
  }

  /** One more area that keeps apart from the visible ones joins them. */
  lemma LoadedOne(list: seq<Area>, a: Area)
    requires GoodList(list) && TidyList(list) && |Visible(list)| < |list|
    requires Aligned(a) && Backed(a) && ApartFrom(Visible(list), a.va, a.End())
    ensures InsertSucceeds(list, a)
    ensures var list' := AfterInsert(list, a);
      && GoodList(list') && TidyList(list') && |list'| == |list| && |Visible(list')| == |Visible(list)| + 1
      && forall b :: b in Visible(list') <==> b in Visible(list) || b == a
  {
    hide Spaced, Aligned, Backed, AllBacked, PermAt, InsertAt, AfterInsert, InsertSucceeds, AfterPlace, Fits;
    var areas, rest := Visible(list), list[..|list| - 1];
    assert HasSpareIn(list);
    FitsIffApart(areas, a.va, a.End());
    InsertionMeaning(list, a);
    RejectedIff(list, a);
    TidyAfter(list, a);
    VisibleWithoutSpare(list);
    PlaceMeaning(rest, a);
    InsertUnfolds(list, a);
    var j: nat :| FitsAt(areas, a.va, a.End(), j) && Visible(AfterPlace(rest, a)) == InsertAt(areas, j, a);
    InsertAtIndex(areas, j, a);
    InsertMembers(areas, j, a);
  }

  lemma InsertUnfolds(list: seq<Area>, a: Area)
    requires HasSpareIn(list)
    ensures AfterInsert(list, a) == AfterPlace(list[..|list| - 1], a)
    ensures InsertSucceeds(list, a) ==> |AfterInsert(list, a)| == |list|
  {
  }

  lemma InsertMembers<T>(s: seq<T>, j: nat, x: T)
    requires j <= |s|
    ensures forall y :: y in InsertAt(s, j, x) <==> y in s || y == x
  {
    assert s == s[..j] + s[j..];
  }

  lemma StaysApart(areas: seq<Area>, n: nat, loaded: seq<Area>)
    requires KeepApart(areas) && n < |areas| && forall b :: b in loaded ==> b in areas[..n]
    ensures ApartFrom(loaded, areas[n].va, areas[n].End())
  {
    forall k | 0 <= k < |loaded| ensures loaded[k].End() <= areas[n].va || areas[n].End() < loaded[k].va {
      assert loaded[k] in areas[..n];
    }
  }

  lemma EmptyIsGood(list: seq<Area>)
    requires Visible(list) == []
    ensures GoodList(list)
  {
  }

  /** Areas that keep apart are all accepted into an empty list with enough nodes, and a lookup sees all of them. */
  lemma {:induction false} LoadedWhole(list: seq<Area>, areas: seq<Area>, n: nat)
    requires Visible(list) == [] && TidyList(list) && KeepApart(areas) && n <= |areas| <= |list|
    requires forall i :: 0 <= i < |areas| ==> Aligned(areas[i]) && Backed(areas[i])
    ensures var list' := AfterInserts(list, areas[..n]);
      && GoodList(list') && TidyList(list') && |list'| == |list| && |Visible(list')| == n
      && (forall b :: b in Visible(list') <==> b in areas[..n])
      && (n < |areas| ==> InsertSucceeds(list', areas[n]))
    decreases n
  {
    hide Aligned, Backed, Visible, TidyList, GoodList, AfterInserts, AfterInsert, InsertSucceeds;
    if n == 0 {
      NothingInserted(list, areas);
      EmptyIsGood(list);
    } else {
      LoadedWhole(list, areas, n - 1);
      OneMoreInsert(list, areas, n - 1);
      StaysApart(areas, n - 1, Visible(AfterInserts(list, areas[..n - 1])));
      LoadedOne(AfterInserts(list, areas[..n - 1]), areas[n - 1]);
    }
    if n < |areas| {
      StaysApart(areas, n, Visible(AfterInserts(list, areas[..n])));
      LoadedOne(AfterInserts(list, areas[..n]), areas[n]);
    }
  }
}
