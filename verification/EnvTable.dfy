/** The table of environments: a free list of slots, and identifiers that tell the successive users of
    one slot apart. */
module EnvTable {
  import opened Bits
  import opened FreeList
  import Frames

  const NENV: nat := 1024
  const ENVGENSHIFT: nat := 12
  const E_BAD_ENV: int := 2
  const E_NO_FREE_ENV: int := 5
  const UINT32_LIMIT: nat := 0x1_0000_0000
  const NOT_NENV_MINUS_1: nat := 0xffff_fc00

  /** The number of identifiers a slot goes through before they repeat: 2 to the 19th, less 1. */
  const PERIOD: nat := 0x7_ffff

  function ToUint32(x: int): nat { x % UINT32_LIMIT }

  /** ENVX: the slot an identifier names. */
  function SlotOf(id: int): nat { And(ToUint32(id), NENV - 1) }

  /** The identifier a slot gets when the last one it had was id. */
  function NextId(id: int, slot: nat): int {
    var sum := Frames.ToInt32(id + Shl(1, ENVGENSHIFT));
    var generation := Frames.ToInt32(And(ToUint32(sum), NOT_NENV_MINUS_1));
    Or(if generation <= 0 then Shl(1, ENVGENSHIFT) else generation, slot)
  }

  /** The n-th identifier a slot is given; 0 before the first. */
  function NthId(slot: nat, n: nat): int {
    if n == 0 then 0 else NextId(NthId(slot, n - 1), slot)
  }

  // ---- Arithmetic of identifiers ----

  lemma Shift10(a: nat)
    ensures Shl(a, 10) == 1024 * a && Shr(a, 10) == a / 1024 && Pow2(10) == 1024
  {
    Shift9(a);
    ShlAdd(a, 9, 1);
    ShrAdd(a, 9, 1);
    Pow2Add(9, 1);
    assert Shl(Shl(a, 9), 1) == 2 * Shl(a, 9) && Shl(Pow2(9), 1) == 2 * Pow2(9);
    assert Shr(Shr(a, 9), 1) == Shr(a, 9) / 2;
  }

  lemma Shift22(a: nat)
    requires a < 0x40_0000
    ensures Pow2(22) == 0x40_0000 && Shr(a, 22) == 0
  {
    Pow2Add(10, 12);
    Shift10(a);
    Shift12(1024);
    ShrAdd(a, 10, 12);
    Shift12(a / 1024);
  }

  lemma ClearLow10(a: nat)
    requires a < UINT32_LIMIT
    ensures And(a, NOT_NENV_MINUS_1) == a - a % NENV
  {
    var high := a / 1024;
    Shift10(a);
    Shift22(high);
    Shift10(Pow2(22) - 1);
    Shift10(high);
    AndFieldMask(a, 10, 22);
    AndLowMask(high, 22);
    ShlZero(22);
  }

  lemma Low10(a: nat)
    ensures And(a, NENV - 1) == a % NENV
  {
    Shift10(a);
    Shift10(a / 1024);
    AndLowMask(a, 10);
  }

  lemma IntWraps(x: int)
    ensures -0x8000_0000 <= x < 0x8000_0000 ==> Frames.ToInt32(x) == x
    ensures 0x8000_0000 <= x < UINT32_LIMIT ==> Frames.ToInt32(x) == x - UINT32_LIMIT
    ensures 0 <= x < UINT32_LIMIT ==> ToUint32(x) == x
    ensures -0x8000_0000 <= x < 0 ==> ToUint32(x) == x + UINT32_LIMIT
  {
  }

  lemma SlotResidue(m: nat, slot: nat)
    requires slot < NENV
    ensures (1024 * m + slot) % NENV == slot
  {
  }

  lemma GenerationOf(m: nat, slot: nat)
    requires slot < NENV && 1024 * m + slot < UINT32_LIMIT
    ensures And(ToUint32(1024 * m + slot), NOT_NENV_MINUS_1) == 1024 * m
    ensures Or(1024 * m, slot) == 1024 * m + slot && (1024 * m + slot) % NENV == slot
  {
    hide And, Or, Shl, ToUint32, Pow2;
    SlotResidue(m, slot);
    IntWraps(1024 * m + slot);
    ClearLow10(1024 * m + slot);
    Shift10(m);
    OrDisjoint(m, slot, 10);
  }

  lemma FirstStep(slot: nat)
    requires slot < NENV
    ensures NextId(0, slot) == 4096 + slot
  {
    hide Or, And, ToUint32, Frames.ToInt32, Shl;
    Shift12(1);
    IntWraps(4096);
    GenerationOf(4, 0);
    GenerationOf(4, slot);
  }

  lemma WrapStep(slot: nat)
    requires slot < NENV
    ensures NextId(4096 * PERIOD + slot, slot) == 4096 + slot
  {
    hide Or, And, ToUint32, Frames.ToInt32, Shl;
    Shift12(1);
    IntWraps(4096 * PERIOD + slot + 4096);
    IntWraps(4096 * PERIOD + slot + 4096 - UINT32_LIMIT);
    IntWraps(0x8000_0000 + slot);
    IntWraps(0x8000_0000);
    GenerationOf(0x20_0000, slot);
    GenerationOf(4, slot);
  }

  lemma InnerStep(k: nat, slot: nat)
    requires slot < NENV && 0 < k < PERIOD
    ensures NextId(4096 * k + slot, slot) == 4096 * (k + 1) + slot
  {
    hide Or, And, ToUint32, Frames.ToInt32, Shl;
    Shift12(1);
    IntWraps(4096 * k + slot + 4096);
    IntWraps(4096 * (k + 1));
    GenerationOf(4 * (k + 1), slot);
  }

  lemma NextIdStep(k: nat, slot: nat)
    requires slot < NENV && k <= PERIOD
    ensures NextId(if k == 0 then 0 else 4096 * k + slot, slot) == 4096 * (if k == PERIOD then 1 else k + 1) + slot
  {
    hide NextId;
    if k == 0 {
      FirstStep(slot);
    } else if k == PERIOD {
      WrapStep(slot);
    } else {
      InnerStep(k, slot);
    }
  }

  /** Identifiers count up in steps of 4096 from 4096 and start over before the sign bit. */
  lemma {:induction false} IdClosedForm(slot: nat, n: nat)
    requires slot < NENV && n > 0
    ensures NthId(slot, n) == 4096 * ((n - 1) % PERIOD + 1) + slot
    decreases n
  {
    hide NextId;
    if n == 1 {
      NextIdStep(0, slot);
    } else {
      IdClosedForm(slot, n - 1);
      NextIdStep((n - 2) % PERIOD + 1, slot);
      NextResidue(n - 2);
    }
  }

  lemma NextResidue(m: nat)
    ensures (m + 1) % PERIOD == if m % PERIOD == PERIOD - 1 then 0 else m % PERIOD + 1
  {
    assert m + 1 == PERIOD * (m / PERIOD) + (m % PERIOD + 1);
  }

  /** Every identifier is positive, fits in 31 bits and names its slot. */
  lemma IdNamesSlot(slot: nat, n: nat)
    requires slot < NENV && n > 0
    ensures 0 < NthId(slot, n) < 0x8000_0000
    ensures SlotOf(NthId(slot, n)) == slot
  {
    hide NthId, And, Or;
    var k := (n - 1) % PERIOD + 1;
    IdClosedForm(slot, n);
    GenerationOf(4 * k, slot);
    IntWraps(4096 * k + slot);
    Low10(4096 * k + slot);
  }

  /** Two identifiers are equal exactly when they are given to the same slot a multiple of PERIOD apart. */
  lemma IdsRepeat(s: nat, i: nat, t: nat, j: nat)
    requires s < NENV && t < NENV && i > 0 && j > 0
    ensures NthId(s, i) == NthId(t, j) <==> s == t && (i - j) % PERIOD == 0
  {
    hide NthId;
    IdClosedForm(s, i);
    IdClosedForm(t, j);
    SameResidue(i - 1, j - 1);
  }

  lemma SameResidue(a: nat, b: nat)
    ensures a % PERIOD == b % PERIOD <==> (a - b) % PERIOD == 0
  {
    var q := a / PERIOD - b / PERIOD;
    assert a - b == PERIOD * q + (a % PERIOD - b % PERIOD);
  }

  /** Any PERIOD identifiers in a row are pairwise distinct. */
  lemma IdsDistinctInWindow(slot: nat, i: nat, j: nat)
    requires slot < NENV && 0 < i < j < i + PERIOD
    ensures NthId(slot, i) != NthId(slot, j)
  {
    hide NthId;
    IdsRepeat(slot, j, slot, i);
  }

  // ---- The table ----

  datatype EnvStatus = EnvFree | EnvDying | EnvRunnable | EnvRunning | EnvNotRunnable

  datatype EnvInfo = EnvInfo(link: int, id: int, parentId: int, status: EnvStatus, runs: nat)

  /** The free list starts at head and reads free. */
  ghost predicate Chain(es: seq<EnvInfo>, head: int, free: seq<nat>) {
    && head == LinkAt(free, 0)
    && (forall i :: 0 <= i < |free| ==> free[i] < |es| && es[free[i]].link == LinkAt(free, i + 1))
  }

  /** The list holds exactly the free slots, each once. */
  ghost predicate HoldsFree(es: seq<EnvInfo>, free: seq<nat>) {
    && (forall i, j :: 0 <= i < j < |free| ==> free[i] != free[j])
    && (forall k: nat :: k < |es| ==> (k in free <==> es[k].status == EnvFree))
  }

  /** Slot k has been given issued[k] identifiers, and holds the last one. */
  ghost predicate Numbered(es: seq<EnvInfo>, issued: seq<nat>) {
    && |issued| == |es|
    && (forall k :: 0 <= k < |es| ==> es[k].id == NthId(k, issued[k]) && (es[k].status != EnvFree ==> issued[k] > 0))
  }

  class Environments {
    const envs: array<EnvInfo>
    var envFreeList: int
    var curenv: int
    ghost var free: seq<nat>
    ghost var issued: seq<nat>

    ghost predicate Valid()
      reads this, envs
    {
      && envs.Length == NENV
      && Chain(envs[..], envFreeList, free)
      && HoldsFree(envs[..], free)
      && Numbered(envs[..], issued)
      && (curenv == NIL || 0 <= curenv < NENV)
    }

    predicate Live(e: int)
      reads this, envs
    {
      0 <= e < envs.Length && envs[e].status != EnvFree
    }

    /** The table as the kernel image starts with it: all zero. */
    constructor ()
      ensures fresh(envs) && envs.Length == NENV && curenv == NIL
    {
      envs := new EnvInfo[NENV](_ => EnvInfo(NIL, 0, 0, EnvFree, 0));
      envFreeList, curenv, free, issued := NIL, NIL, [], [];
    }

    /** Makes all slots free, in the order of the array. */
    method EnvInit()
      requires envs.Length == NENV && curenv == NIL
      modifies `envFreeList, `free, `issued, envs
      ensures Valid()
      ensures |free| == NENV && forall k :: 0 <= k < NENV ==> free[k] == k
      ensures forall k :: 0 <= k < NENV ==> issued[k] == 0 && envs[k].id == 0
    {
      hide Prepared, Chain, HoldsFree, Numbered;
      envFreeList, free, issued := NIL, [], seq(NENV, _ => 0);
      var i := NENV;
      Unprepared(envs[..], issued);
      while i > 0
        invariant 0 <= i <= NENV
        invariant Prepared(envs[..], envFreeList, free, issued, i)
        modifies `envFreeList, `free, envs
      {
        i := i - 1;
        ghost var es, head := envs[..], envFreeList;
        envs[i] := envs[i].(id := 0, status := EnvFree, link := envFreeList);
        InitStep(es, envs[..], head, free, issued, i);
        envFreeList := i;
        free := [i] + free;
      }
      AllPrepared(envs[..], envFreeList, free, issued);
    }

    /** Takes the first free slot and gives it an identifier; setupVm and setupVma are what the two set-up
        routines return. */
    method EnvAlloc(parentId: int, setupVm: int, setupVma: int) returns (r: int, e: int)
      requires Valid()
      modifies this, envs
      ensures Valid() && curenv == old(curenv)
      ensures r ==
        if old(free) == [] then -E_NO_FREE_ENV
        else if setupVm < 0 then setupVm
        else if setupVma < 0 then setupVma
        else 0
      ensures r < 0 ==> envs[..] == old(envs[..]) && free == old(free) && issued == old(issued)
      ensures r == 0 ==>
        && old(free) == [e] + free && 0 <= e < NENV && issued == old(issued)[e := old(issued[e]) + 1]
        && envs[e].id == NthId(e, issued[e]) && envs[e].parentId == parentId
        && envs[e].status == EnvRunnable && envs[e].runs == 0
        && (forall k :: 0 <= k < NENV && k != e ==> envs[k] == old(envs[k]))
    {
      e := envFreeList;
      if e == NIL {
        r := -E_NO_FREE_ENV;
        return;
      }
      if setupVm < 0 {
        r := setupVm;
        return;
      }
      if setupVma < 0 {
        r := setupVma;
        return;
      }
      envs[e] := envs[e].(id := NextId(envs[e].id, e), parentId := parentId, status := EnvRunnable, runs := 0);
      envFreeList := envs[e].link;
      issued := issued[e := issued[e] + 1];
      TakeFirst(old(envs[..]), envs[..], old(free), e);
      free := free[1..];
      r := 0;
    }

    /** Puts a slot back at the head of the free list; it keeps its identifier for the next user. */
    method EnvRelease(e: nat)
      requires Valid() && Live(e)
      modifies this, envs
      ensures Valid() && curenv == old(curenv) && issued == old(issued)
      ensures free == [e] + old(free) && !Live(e) && envs[e].id == old(envs[e].id)
      ensures forall k :: 0 <= k < NENV && k != e ==> envs[k] == old(envs[k])
    {
      envs[e] := envs[e].(status := EnvFree, link := envFreeList);
      envFreeList := e;
      GiveFirst(old(envs[..]), envs[..], old(free), e);
      free := [e] + free;
    }

    /** Makes e the current environment. */
    method EnvRun(e: nat)
      requires Valid() && Live(e)
      modifies this`curenv, envs
      ensures Valid() && curenv == e
      ensures envs[e] == old(envs[e]).(status := EnvRunning, runs := (old(envs[e].runs) + 1) % UINT32_LIMIT)
      ensures forall k :: 0 <= k < NENV && k != e ==>
        envs[k] == if k == old(curenv) && old(envs[k].status) == EnvRunning
                   then old(envs[k]).(status := EnvRunnable) else old(envs[k])
    {
      hide Chain, HoldsFree, Numbered;
      ghost var es := envs[..];
      if curenv != NIL && envs[curenv].status == EnvRunning {
        envs[curenv] := envs[curenv].(status := EnvRunnable);
      }
      curenv := e;
      envs[e] := envs[e].(status := EnvRunning, runs := (envs[e].runs + 1) % UINT32_LIMIT);
      RunKeeps(es, envs[..], envFreeList, free, issued);
    }

    /** Looks an identifier up. It finds the live environment that holds it, if the caller may have it, and
        rejects every identifier that one of the last PERIOD - 1 earlier users of a slot held. */
    method Envid2Env(envid: int, checkperm: bool) returns (r: int, e: int)
      requires Valid() && (checkperm ==> curenv != NIL)
      ensures r == 0 || (r == -E_BAD_ENV && e == NIL)
      ensures envid == 0 ==> r == 0 && e == curenv
      ensures envid != 0 ==>
        (r == 0 <==> exists k ::
                       && Live(k) && envs[k].id == envid
                       && (checkperm ==> k == curenv || envs[k].parentId == envs[curenv].id))
      ensures envid != 0 && r == 0 ==>
        Live(e) && envs[e].id == envid && forall k :: Live(k) && envs[k].id == envid ==> k == e
      ensures forall k, i :: 0 <= k < NENV && 0 < i < issued[k] < i + PERIOD && envid == NthId(k, i) ==> r != 0
    {
      if envid == 0 {
        ZeroIsNoId();
        return 0, curenv;
      }
      e := SlotOf(envid);
      Low10(ToUint32(envid));
      HolderIsSlot(envs[..], free, issued, envid);
      StaleIsNotHeld(envs[..], issued, envid);
      if envs[e].status == EnvFree || envs[e].id != envid {
        return -E_BAD_ENV, NIL;
      }
      if checkperm && e != curenv && envs[e].parentId != envs[curenv].id {
        return -E_BAD_ENV, NIL;
      }
      r := 0;
    }
  }

  /** The slots from i on are free, without an identifier, and on the list in ascending order. */
  ghost predicate Prepared(es: seq<EnvInfo>, head: int, free: seq<nat>, issued: seq<nat>, i: nat) {
    && |es| == |issued| == NENV && Chain(es, head, free)
    && |free| == NENV - i && (forall j :: 0 <= j < |free| ==> free[j] == i + j)
    && (forall k :: i <= k < NENV ==> es[k].id == 0 && es[k].status == EnvFree)
    && (forall k :: 0 <= k < NENV ==> issued[k] == 0)
  }

  lemma Unprepared(es: seq<EnvInfo>, issued: seq<nat>)
    requires |es| == |issued| == NENV && forall k :: 0 <= k < NENV ==> issued[k] == 0
    ensures Prepared(es, NIL, [], issued, NENV)
  {
  }

  lemma InitStep(es: seq<EnvInfo>, es': seq<EnvInfo>, head: int, free: seq<nat>, issued: seq<nat>, i: nat)
    requires Prepared(es, head, free, issued, i + 1) && i < NENV && |es'| == NENV
    requires es' == es[i := es[i].(id := 0, status := EnvFree, link := head)]
    ensures Prepared(es', i, [i] + free, issued, i)
  {
    var more := [i] + free;
    assert forall j :: 0 < j < |more| ==> more[j] == free[j - 1] && LinkAt(more, j + 1) == LinkAt(free, j);
  }

  lemma AllPrepared(es: seq<EnvInfo>, head: int, free: seq<nat>, issued: seq<nat>)
    requires Prepared(es, head, free, issued, 0)
    ensures Chain(es, head, free) && HoldsFree(es, free) && Numbered(es, issued)
    ensures |free| == NENV && forall k :: 0 <= k < NENV ==> free[k] == k
    ensures |issued| == NENV && forall k :: 0 <= k < NENV ==> issued[k] == 0 && es[k].id == 0
  {
    hide Chain;
    assert forall k :: 0 <= k < |free| ==> free[k] == k;
    forall k: nat | k < NENV ensures k in free {
      assert free[k] == k;
    }
  }

  lemma TakeFirst(es: seq<EnvInfo>, es': seq<EnvInfo>, free: seq<nat>, e: nat)
    requires Chain(es, e, free) && HoldsFree(es, free) && e < |es| == |es'| && es'[e].status != EnvFree
    requires es'[e].link == es[e].link && forall k :: 0 <= k < |es| && k != e ==> es'[k] == es[k]
    ensures free != [] && free[0] == e && free == [e] + free[1..]
    ensures Chain(es', es[e].link, free[1..]) && HoldsFree(es', free[1..])
  {
    RestHoldsFree(es, es', free, e);
    RestIsChain(es, es', free, e);
  }

  lemma RestIsChain(es: seq<EnvInfo>, es': seq<EnvInfo>, free: seq<nat>, e: nat)
    requires Chain(es, e, free) && e < |es| == |es'| && forall i, j :: 0 <= i < j < |free| ==> free[i] != free[j]
    requires es'[e].link == es[e].link && forall k :: 0 <= k < |es| && k != e ==> es'[k] == es[k]
    ensures Chain(es', es[e].link, free[1..])
  {
    var rest := free[1..];
    forall i | 0 <= i < |rest| ensures rest[i] < |es'| && es'[rest[i]].link == LinkAt(rest, i + 1) {
      assert rest[i] == free[i + 1];
      assert LinkAt(rest, i + 1) == LinkAt(free, i + 2);
    }
  }

  lemma RestHoldsFree(es: seq<EnvInfo>, es': seq<EnvInfo>, free: seq<nat>, e: nat)
    requires free != [] && free[0] == e && HoldsFree(es, free) && e < |es| == |es'| && es'[e].status != EnvFree
    requires forall k :: 0 <= k < |es| && k != e ==> es'[k] == es[k]
    ensures HoldsFree(es', free[1..])
  {
    var rest := free[1..];
    assert free == [e] + rest;
    assert forall i :: 0 <= i < |rest| ==> rest[i] == free[i + 1] != e;
    forall k: nat | k < |es| ensures k in rest <==> es'[k].status == EnvFree {
      assert k in free <==> k == e || k in rest;
      assert e !in rest;
    }
  }

  lemma GiveFirst(es: seq<EnvInfo>, es': seq<EnvInfo>, free: seq<nat>, e: nat)
    requires Chain(es, LinkAt(free, 0), free) && HoldsFree(es, free) && e < |es| == |es'|
    requires es[e].status != EnvFree && es'[e].status == EnvFree && es'[e].link == LinkAt(free, 0)
    requires forall k :: 0 <= k < |es| && k != e ==> es'[k] == es[k]
    ensures Chain(es', e, [e] + free) && HoldsFree(es', [e] + free)
  {
    assert e !in free;
    MoreIsChain(es, es', free, e);
    MoreHoldsFree(es, es', free, e);
  }

  lemma MoreHoldsFree(es: seq<EnvInfo>, es': seq<EnvInfo>, free: seq<nat>, e: nat)
    requires HoldsFree(es, free) && e !in free && e < |es| == |es'| && es'[e].status == EnvFree
    requires forall k :: 0 <= k < |es| && k != e ==> es'[k] == es[k]
    ensures HoldsFree(es', [e] + free)
  {
    var more := [e] + free;
    assert forall i :: 0 < i < |more| ==> more[i] == free[i - 1] && free[i - 1] in free;
    forall k: nat | k < |es| ensures k in more <==> es'[k].status == EnvFree {
      assert k in more <==> k == e || k in free;
    }
  }

  lemma MoreIsChain(es: seq<EnvInfo>, es': seq<EnvInfo>, free: seq<nat>, e: nat)
    requires Chain(es, LinkAt(free, 0), free) && e !in free && e < |es| == |es'|
    requires es'[e].link == LinkAt(free, 0)
    requires forall k :: 0 <= k < |es| && k != e ==> es'[k] == es[k]
    ensures Chain(es', e, [e] + free)
  {
    var more := [e] + free;
    forall i | 0 <= i < |more| ensures more[i] < |es'| && es'[more[i]].link == LinkAt(more, i + 1) {
      if i > 0 {
        assert more[i] == free[i - 1] && free[i - 1] in free;
        assert LinkAt(more, i + 1) == LinkAt(free, i);
      }
    }
  }

  /** Running an environment changes neither the list nor the identifiers. */
  lemma RunKeeps(es: seq<EnvInfo>, es': seq<EnvInfo>, head: int, free: seq<nat>, issued: seq<nat>)
    requires Chain(es, head, free) && HoldsFree(es, free) && Numbered(es, issued) && |es| == |es'|
    requires forall k :: 0 <= k < |es| ==>
      es'[k].id == es[k].id && es'[k].link == es[k].link && (es'[k].status == EnvFree <==> es[k].status == EnvFree)
    ensures Chain(es', head, free) && HoldsFree(es', free) && Numbered(es', issued)
  {
    hide NthId;
  }

  lemma ZeroIsNoId()
    ensures forall k: nat, i: nat :: k < NENV && 0 < i ==> NthId(k, i) != 0
  {
    forall k: nat, i: nat | k < NENV && 0 < i ensures NthId(k, i) != 0 {
      IdNamesSlot(k, i);
    }
  }

  /** An identifier in use is held by the slot it names. */
  lemma HolderIsSlot(es: seq<EnvInfo>, free: seq<nat>, issued: seq<nat>, id: int)
    requires Numbered(es, issued) && |es| == NENV
    ensures forall k :: 0 <= k < |es| && es[k].status != EnvFree && es[k].id == id ==> k == SlotOf(id)
  {
    forall k | 0 <= k < |es| && es[k].status != EnvFree && es[k].id == id ensures k == SlotOf(id) {
      IdNamesSlot(k, issued[k]);
    }
  }

  lemma StaleIsNotHeld(es: seq<EnvInfo>, issued: seq<nat>, id: int)
    requires Numbered(es, issued) && |es| == NENV
    ensures forall k, i :: 0 <= k < NENV && 0 < i < issued[k] < i + PERIOD && id == NthId(k, i) ==>
      k == SlotOf(id) && es[k].id != id
  {
    forall k, i | 0 <= k < NENV && 0 < i < issued[k] < i + PERIOD && id == NthId(k, i)
      ensures k == SlotOf(id) && es[k].id != id
    {
      IdNamesSlot(k, i);
      IdsDistinctInWindow(k, i, issued[k]);
    }
  }
}
