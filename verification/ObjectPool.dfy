/** The object pool of `src/pool.c`: a stack of objects of which the first `free` can be had, and before
    every object a header with its index in the stack. Objects are numbered. */
module ObjectPool {
  datatype State = State(stack: seq<nat>, index: seq<nat>, free: nat)

  ghost predicate Shape(s: State) {
    && |s.stack| == |s.index| && s.free <= |s.stack|
    && (forall i :: 0 <= i < |s.stack| ==> s.stack[i] < |s.stack|)
  }

  /** `live` are the objects handed out: the others are exactly those that can be had, each once. */
  ghost predicate FreeOk(s: State, live: set<nat>) {
    && Shape(s)
    && (forall o :: o in live ==> o < |s.stack|)
    && (forall i, j :: 0 <= i < j < s.free ==> s.stack[i] != s.stack[j])
    && (forall i :: 0 <= i < s.free ==> s.stack[i] !in live)
    && (forall o: nat :: o < |s.stack| && o !in live ==> o in s.stack[..s.free])
  }

  /** The headers give every object's place in the stack, so that the stack is a permutation, and the
      live objects are those from `free` on. */
  ghost predicate Coherent(s: State, live: set<nat>) {
    && Shape(s)
    && (forall o :: o in live ==> o < |s.stack|)
    && (forall i :: 0 <= i < |s.stack| ==> s.index[s.stack[i]] == i)
    && (forall o: nat :: o < |s.stack| ==> s.index[o] < |s.stack| && s.stack[s.index[o]] == o)
    && (forall o: nat :: o < |s.stack| ==> (o in live <==> s.index[o] >= s.free))
  }

  lemma CoherentFree(s: State, live: set<nat>)
    requires Coherent(s, live)
    ensures FreeOk(s, live)
  {
    forall i, j | 0 <= i < j < s.free ensures s.stack[i] != s.stack[j] {
      assert s.index[s.stack[i]] == i && s.index[s.stack[j]] == j;
    }
    forall o: nat | o < |s.stack| && o !in live ensures o in s.stack[..s.free] {
      assert s.stack[..s.free][s.index[o]] == o;
    }
  }

  /** The segment from `POOL_getFirst` on lists each live object exactly once. */
  lemma LiveSegment(s: State, live: set<nat>)
    requires Coherent(s, live)
    ensures forall o: nat :: o in live <==> o in s.stack[s.free..]
    ensures forall i, j :: s.free <= i < j < |s.stack| ==> s.stack[i] != s.stack[j]
    ensures |live| == |s.stack| - s.free
  {
    var l := s.stack[s.free..];
    LiveListed(s, live);
    forall i, j | s.free <= i < j < |s.stack| ensures s.stack[i] != s.stack[j] {
      assert s.index[s.stack[i]] == i && s.index[s.stack[j]] == j;
    }
    hide Coherent;
    forall i, j | 0 <= i < j < |l| ensures l[i] != l[j] {
      assert l[i] == s.stack[s.free + i] && l[j] == s.stack[s.free + j];
    }
    DistinctSize(l, live);
  }

  lemma LiveListed(s: State, live: set<nat>)
    requires Coherent(s, live)
    ensures forall o: nat :: o in live <==> o in s.stack[s.free..]
  {
    var l := s.stack[s.free..];
    forall o: nat ensures o in live <==> o in l {
      if o in live {
        assert l[s.index[o] - s.free] == o;
      }
      if o in l {
        var i :| 0 <= i < |l| && l[i] == o;
        assert s.index[s.stack[s.free + i]] == s.free + i;
      }
    }
  }

  lemma {:induction false} DistinctSize(l: seq<nat>, live: set<nat>)
    requires forall i, j :: 0 <= i < j < |l| ==> l[i] != l[j]
    requires forall o: nat :: o in live <==> o in l
    ensures |live| == |l|
  {
    if l == [] {
      assert live == {};
    } else {
      var x, r := l[|l| - 1], l[..|l| - 1];
      assert l == r + [x];
      assert x !in r;
      DistinctSize(r, live - {x});
    }
  }

  /** The objects that are not to be had are the live ones, so their number is known. */
  lemma LiveCount(s: State, live: set<nat>)
    requires FreeOk(s, live)
    ensures |live| == |s.stack| - s.free
  {
    var l, all := s.stack[..s.free], Numbers(|s.stack|);
    var rest := all - live;
    forall i, j | 0 <= i < j < |l| ensures l[i] != l[j] {
      assert l[i] == s.stack[i] && l[j] == s.stack[j];
    }
    forall o: nat ensures o in rest <==> o in l {
      if o in l {
        var i :| 0 <= i < |l| && l[i] == o;
        assert s.stack[i] == o;
      }
    }
    hide FreeOk;
    DistinctSize(l, rest);
    assert live <= all;
    Complement(all, live);
  }

  lemma Complement(all: set<nat>, part: set<nat>)
    requires part <= all
    ensures |all - part| == |all| - |part|
  {
    assert all == (all - part) + part;
  }

  // ----- Allocating

  lemma AllocateFree(s: State, live: set<nat>)
    requires FreeOk(s, live) && s.free > 0
    ensures var o := s.stack[s.free - 1]; o !in live && FreeOk(s.(free := s.free - 1), live + {o})
  {
    var o, s' := s.stack[s.free - 1], s.(free := s.free - 1);
    forall x: nat | x < |s.stack| && x !in live + {o} ensures x in s'.stack[..s'.free] {
      assert s.stack[..s.free] == s'.stack[..s'.free] + [o];
    }
  }

  lemma AllocateCoherent(s: State, live: set<nat>)
    requires Coherent(s, live) && s.free > 0
    ensures Coherent(s.(free := s.free - 1), live + {s.stack[s.free - 1]})
  {
    var o, s' := s.stack[s.free - 1], s.(free := s.free - 1);
    forall x: nat | x < |s.stack| ensures x in live + {o} <==> s'.index[x] >= s'.free {
      assert s.index[o] == s.free - 1;
      assert s.index[x] == s.free - 1 ==> x == o;
    }
  }

  // ----- Releasing

  /** The pool after a release. The object overwritten at the top of the free ones goes where the headers
      say the released one was. */
  function Released(s: State, o: nat, maintain: bool): State
    requires s.free < |s.stack| == |s.index| && o < |s.stack| && s.stack[s.free] < |s.stack| && s.index[o] < |s.stack|
  {
    var prev, stack := s.stack[s.free], s.stack[s.free := o];
    if maintain && prev != o then
      State(stack[s.index[o] := prev], s.index[prev := s.index[o]][o := s.index[prev]], s.free + 1)
    else
      State(stack, s.index, s.free + 1)
  }

  lemma RoomToRelease(s: State, live: set<nat>, o: nat)
    requires FreeOk(s, live) && o in live
    ensures s.free < |s.stack|
  {
    if s.free == |s.stack| {
      Crowded(s.stack, o);
    }
  }

  /** `n` different numbers below `n` are all of them. */
  lemma Crowded(l: seq<nat>, o: nat)
    requires forall i, j :: 0 <= i < j < |l| ==> l[i] != l[j]
    requires forall i :: 0 <= i < |l| ==> l[i] < |l|
    requires o < |l|
    ensures o in l
  {
    if o !in l {
      var all := Numbers(|l|);
      var used := set i | 0 <= i < |l| :: l[i];
      DistinctSize(l, used);
      assert used <= all - {o};
      Subset(used, all - {o});
      assert false;
    }
  }

  ghost function Numbers(n: nat): (all: set<nat>)
    ensures |all| == n && forall i: nat :: i in all <==> i < n
  {
    if n == 0 then {} else Numbers(n - 1) + {n - 1}
  }

  lemma {:induction false} Subset(a: set<nat>, b: set<nat>)
    requires a <= b
    ensures |a| <= |b|
  {
    if a != {} {
      var x :| x in a;
      Subset(a - {x}, b - {x});
    }
  }

  /** A coherent release keeps the stack a permutation and the headers right. */
  lemma ReleaseCoherent(s: State, live: set<nat>, o: nat)
    requires Coherent(s, live) && o in live
    ensures s.free < |s.stack| && Coherent(Released(s, o, true), live - {o})
  {
    assert s.index[o] >= s.free;
    var prev, p, s' := s.stack[s.free], s.index[o], Released(s, o, true);
    assert s.index[prev] == s.free;
    forall i | 0 <= i < |s.stack| ensures s'.stack[i] < |s.stack| && s'.index[s'.stack[i]] == i {
      assert s.index[s.stack[i]] == i;
    }
    forall x: nat | x < |s.stack| ensures s'.index[x] < |s.stack| && s'.stack[s'.index[x]] == x && (x in live - {o} <==> s'.index[x] >= s'.free) {
      assert s.index[x] < |s.stack| && s.stack[s.index[x]] == x;
    }
  }

  /** What a release needs to leave exactly the objects not live to be had: not asked to keep the stack
      coherent, or nothing to exchange, or the exchange stays out of the free objects (or repeats what is
      there). */
  predicate KeepsFree(s: State, o: nat, maintain: bool)
    requires s.free < |s.stack| == |s.index| && o < |s.stack|
  {
    var prev, p := s.stack[s.free], s.index[o];
    !maintain || prev == o || p > s.free || (p < s.free && s.stack[p] == prev)
  }

  lemma ReleaseFree(s: State, live: set<nat>, o: nat, maintain: bool)
    requires FreeOk(s, live) && o in live && s.index[o] < |s.stack|
    ensures s.free < |s.stack| && (FreeOk(Released(s, o, maintain), live - {o}) <==> KeepsFree(s, o, maintain))
  {
    RoomToRelease(s, live, o);
    var s', p, prev := Released(s, o, maintain), s.index[o], s.stack[s.free];
    if KeepsFree(s, o, maintain) {
      ReleasedShape(s, o, maintain);
      assert s'.stack[..s'.free] == s.stack[..s.free] + [o];
      Pushed(s, s', live, o);
    } else {
      Lost(s, live, o);
    }
  }

  lemma ReleasedShape(s: State, o: nat, maintain: bool)
    requires Shape(s) && s.free < |s.stack| && o < |s.stack| && s.index[o] < |s.stack|
    ensures Shape(Released(s, o, maintain)) && Released(s, o, maintain).free == s.free + 1
    ensures |Released(s, o, maintain).stack| == |s.stack|
  {
  }

  lemma Pushed(s: State, s': State, live: set<nat>, o: nat)
    requires FreeOk(s, live) && o in live && Shape(s') && s'.free == s.free + 1 && |s'.stack| == |s.stack|
    requires s'.stack[..s'.free] == s.stack[..s.free] + [o]
    ensures FreeOk(s', live - {o})
  {
    var l, l' := s.stack[..s.free], s'.stack[..s'.free];
    forall i | 0 <= i < s'.free ensures s'.stack[i] == if i < s.free then s.stack[i] else o {
      assert s'.stack[i] == l'[i];
      assert i < s.free ==> l'[i] == l[i];
    }
    forall x: nat | x < |s'.stack| && x !in live - {o} ensures x in l' {
      assert x == o || x in l;
    }
  }

  /** Otherwise an object gets lost: the released one, or one that could be had. */
  lemma Lost(s: State, live: set<nat>, o: nat)
    requires FreeOk(s, live) && o in live && s.free < |s.stack| && s.index[o] < |s.stack| && !KeepsFree(s, o, true)
    ensures !FreeOk(Released(s, o, true), live - {o})
  {
    var s', p, prev := Released(s, o, true), s.index[o], s.stack[s.free];
    var x := if p == s.free then o else s.stack[p];
    assert forall i :: 0 <= i < s'.free ==> s'.stack[i] != x;
    assert x !in s'.stack[..s'.free];
    assert x !in live - {o};
  }

  /** With coherent releases only, and with plain ones only, the condition always holds. */
  lemma CoherentKeeps(s: State, live: set<nat>, o: nat)
    requires Coherent(s, live) && o in live
    ensures s.free < |s.stack| && KeepsFree(s, o, true) && KeepsFree(s, o, false)
  {
    assert s.index[o] >= s.free;
    assert s.stack[s.index[o]] == o;
  }

  /** Mixed, they can hand out a live object: here object 1 is live, and on top of the free ones next. */
  lemma MixedBreaks()
    ensures var s := State([2, 1, 2], [0, 1, 2], 1);
            && s == Released(State([0, 1, 2], [0, 1, 2], 0), 2, false)
            && FreeOk(s, {0, 1}) && !FreeOk(Released(s, 0, true), {1}) && 1 in Released(s, 0, true).stack[..2]
  {
    var s := State([2, 1, 2], [0, 1, 2], 1);
    assert s.stack[..1] == [2];
    var t := Released(s, 0, true);
    assert t.stack == [1, 0, 2];
    assert t.stack[..2] == [1, 0];
    assert t.stack[0] == 1;
  }

  // ----- The pool in memory

  class Pool {
    const allocStack: array<nat>
    /** The header before every object. */
    const index: array<nat>
    var free: nat

    /** The objects handed out. */
    ghost var live: set<nat>

    ghost function Value(): State
      reads this, allocStack, index
    {
      State(allocStack[..], index[..], free)
    }

    ghost predicate Valid()
      reads this, allocStack, index
    {
      && allocStack != index && FreeOk(Value(), live)
      && (forall i :: 0 <= i < index.Length ==> index[i] < index.Length)
    }

    /** `POOL_create`, without the memory it takes. */
    constructor (size: nat)
      ensures Valid() && Coherent(Value(), live) && live == {} && allocStack.Length == size
      ensures fresh(allocStack) && fresh(index)
    {
      allocStack, index := new nat[size], new nat[size];
      new;
      Reset();
    }

    /** `POOL_reset`: every object can be had. */
    method Reset()
      requires allocStack != index && allocStack.Length == index.Length
      modifies this, allocStack, index
      ensures Valid() && Coherent(Value(), live) && live == {} && free == allocStack.Length
    {
      var i := 0;
      while i < allocStack.Length
        invariant 0 <= i <= allocStack.Length
        invariant forall j :: 0 <= j < i ==> allocStack[j] == j && index[j] == j
      {
        index[i] := i;
        allocStack[i] := i;
        i := i + 1;
      }
      free, live := i, {};
      CoherentFree(Value(), live);
    }

    /** `POOL_allocate`: an object that is not live, if there is one. */
    method Allocate() returns (o: int)
      requires Valid()
      modifies this
      ensures Valid()
      ensures o == -1 <==> old(free) == 0
      ensures o == -1 ==> live == old(live) && free == old(free)
      ensures o != -1 ==> o >= 0 && o !in old(live) && live == old(live) + {o} && free == old(free) - 1
      ensures old(Coherent(Value(), live)) ==> Coherent(Value(), live)
    {
      hide FreeOk, Coherent;
      if free == 0 {
        return -1;
      }
      FreeShape(Value(), live);
      AllocateFree(Value(), live);
      if Coherent(Value(), live) {
        AllocateCoherent(Value(), live);
      }
      free := free - 1;
      o := allocStack[free];
      live := live + {o};
    }

    /** `POOL_release`: in a coherent pool coherent releases keep it so; in any pool the free objects stay
        right exactly when `KeepsFree` says so. */
    method Release(item: nat, maintainCoherency: bool)
      requires Valid() && item in live
      modifies this, allocStack, index
      ensures live == old(live) - {item} && old(free) < allocStack.Length && item < allocStack.Length == index.Length
      ensures (forall i :: 0 <= i < index.Length ==> index[i] < index.Length) && allocStack != index
      ensures FreeOk(Value(), live) <==> old(KeepsFree(Value(), item, maintainCoherency))
      ensures Valid() <==> old(KeepsFree(Value(), item, maintainCoherency))
      ensures maintainCoherency && old(Coherent(Value(), live)) ==> Coherent(Value(), live) && Valid()
    {
      hide FreeOk, Coherent, KeepsFree;
      ghost var s := Value();
      FreeShape(s, live);
      MemberInside(s, live, item);
      RoomToRelease(s, live, item);
      ReleaseFree(s, live, item, maintainCoherency);
      if Coherent(s, live) {
        ReleaseCoherent(s, live, item);
        CoherentKeeps(s, live, item);
      }
      var prevObject := allocStack[free];
      allocStack[free] := item;
      free := free + 1;
      if maintainCoherency && prevObject != item {
        var objectIndex := index[item];
        allocStack[objectIndex] := prevObject;
        var prevObjectIndex := index[prevObject];
        index[prevObject] := objectIndex;
        index[item] := prevObjectIndex;
      }
      live := live - {item};
      assert Value() == Released(s, item, maintainCoherency);
    }

    /** `POOL_getNumAllocated` is the number of live objects, whichever way they were released. */
    method GetNumAllocated() returns (n: nat)
      requires Valid()
      ensures n == |live|
    {
      hide FreeOk;
      FreeShape(Value(), live);
      LiveCount(Value(), live);
      n := allocStack.Length - free;
    }

    /** `POOL_find`: the position of an object among those handed out, counted from the end of the stack; in
        a coherent pool it finds exactly the live objects. */
    method Find(item: nat) returns (position: int)
      requires Valid()
      ensures position == -1 <==> item !in allocStack[free..]
      ensures position != -1 ==> 0 <= position < allocStack.Length - free && allocStack[allocStack.Length - 1 - position] == item
      ensures Coherent(Value(), live) ==> (position == -1 <==> item !in live)
    {
      FreeShape(Value(), live);
      hide FreeOk, Coherent, Shape;
      if Coherent(Value(), live) {
        LiveListed(Value(), live);
      }
      var s := Scan(item);
      SegmentMember(allocStack[..], free, item);
      assert allocStack[..][free..] == allocStack[free..];
      position := if s < allocStack.Length then (allocStack.Length - 1) - s else -1;
    }

    /** The loop of `POOL_find`. */
    method Scan(item: nat) returns (s: nat)
      requires free <= allocStack.Length
      ensures free <= s <= allocStack.Length && (s < allocStack.Length ==> allocStack[s] == item)
      ensures forall j :: free <= j < s ==> allocStack[j] != item
    {
      s := free;
      while s < allocStack.Length
        invariant free <= s <= allocStack.Length
        invariant forall j :: free <= j < s ==> allocStack[j] != item
      {
        if allocStack[s] == item {
          return;
        }
        s := s + 1;
      }
    }
  }

  lemma SegmentMember(l: seq<nat>, free: nat, x: nat)
    requires free <= |l|
    ensures x in l[free..] <==> exists j :: free <= j < |l| && l[j] == x
  {
    if x in l[free..] {
      var i :| 0 <= i < |l[free..]| && l[free..][i] == x;
      assert l[free + i] == x;
    }
    if j :| free <= j < |l| && l[j] == x {
      assert l[free..][j - free] == x;
    }
  }

  lemma FreeShape(s: State, live: set<nat>)
    requires FreeOk(s, live)
    ensures Shape(s)
  {
  }

  lemma MemberInside(s: State, live: set<nat>, o: nat)
    requires FreeOk(s, live) && o in live
    ensures o < |s.stack|
  {
  }
}
