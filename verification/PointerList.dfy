/**
 The growable array of pointers. `nil` stands for the NULL pointer. The two places
 where the program may exit, growth past 32 bits and a reallocation to size zero
 that yields NULL, are results of the methods that reach them.
 */
module PointerLists {
  import opened Bits

  /** Capacity after growing, in 32-bit unsigned arithmetic. */
  function GrownCap(cap: Word32): Word32 {
    (cap + cap / 2 + 1) % 0x1_0000_0000
  }

  /** The test `new_cap <= cap` finds exactly the growths that wrap around. */
  lemma GrowthTestIsExact(cap: Word32)
    ensures GrownCap(cap) <= cap <==> cap + cap / 2 + 1 >= 0x1_0000_0000
    ensures GrownCap(cap) > cap ==> GrownCap(cap) == cap + cap / 2 + 1
  {
    var sum := cap + cap / 2 + 1;
    if sum >= 0x1_0000_0000 {
      QuotientUnique(sum, 0x1_0000_0000, 1, sum - 0x1_0000_0000);
    } else {
      QuotientUnique(sum, 0x1_0000_0000, 0, sum);
    }
  }

  /** Capacity after shrinking: a third goes, or one place of a small list. */
  function ContractedCap(cap: Word32): (c: Word32)
    ensures c <= cap && (cap > 0 ==> c < cap)
    ensures cap >= 3 ==> 2 * cap <= 3 * c <= 2 * cap + 2
  {
    if cap <= 0 then 0
    else if cap < 3 then cap - 1
    else cap - cap / 3
  }

  /** Capacity after an element is removed from n of them: one step down where the rest fits. */
  function CapAfterRemove(cap: Word32, n: nat): (c: Word32)
    ensures c <= cap && (1 <= n <= cap ==> n - 1 <= c)
    ensures 1 <= n <= cap ==> (c < cap <==> n - 1 <= ContractedCap(cap))
    ensures c < cap ==> c == ContractedCap(cap)
  {
    if n <= ContractedCap(cap) + 1 then ContractedCap(cap) else cap
  }

  /** In numbers: one element goes, and then a third of the places (rounded down) if the rest still
      fits; below three places the step is one place. */
  lemma CapAfterRemoveExactly(cap: Word32, n: nat)
    requires 1 <= n <= cap
    ensures CapAfterRemove(cap, n) ==
            if cap < 3 then cap - 1
            else if n - 1 + cap / 3 <= cap then cap - cap / 3 else cap
  {
  }

  class PointerList<T(==)> {
    const nil: T
    const zeroReallocFails: bool  // realloc(p, 0) returns NULL on this platform
    var list: array<T>
    var len: Word32
    var cap: Word32

    ghost var copied: nat  // elements moved by reallocations so far

    ghost predicate Valid()
      reads this
    {
      len <= cap == list.Length
    }

    ghost function Contents(): seq<T>
      requires Valid()
      reads this, list
    {
      list[..len]
    }

    constructor (nil: T, zeroReallocFails: bool)
      ensures Valid() && Contents() == [] && fresh(list) && cap == 0 && copied == 0
      ensures this.nil == nil && this.zeroReallocFails == zeroReallocFails
    {
      this.nil := nil;
      this.zeroReallocFails := zeroReallocFails;
      list := new T[0];
      len, cap, copied := 0, 0, 0;
    }

    method Realloc(newCap: Word32) returns (ok: bool)
      requires Valid() && len <= newCap
      modifies this`list, this`cap, this`copied
      ensures ok <==> !(newCap == 0 && zeroReallocFails)
      ensures !ok ==> unchanged(this)
      ensures ok ==> Valid() && fresh(list) && cap == newCap && Contents() == old(Contents())
      ensures ok ==> copied == old(copied) + (if old(cap) <= newCap then old(cap) else newCap)
    {
      if newCap == 0 && zeroReallocFails {
        return false;
      }
      var moved := if cap <= newCap then cap else newCap;
      var bigger := new T[newCap](_ => nil);
      for i := 0 to moved
        invariant bigger[..i] == list[..i]
        modifies bigger
      {
        bigger[i] := list[i];
      }
      assert bigger[..len] == bigger[..moved][..len];
      list := bigger;
      cap := newCap;
      copied := copied + moved;
      ok := true;
    }

    method Expand() returns (ok: bool)
      requires Valid()
      modifies this`list, this`cap, this`copied
      ensures ok <==> cap > old(cap)
      ensures ok <==> old(cap) + old(cap) / 2 + 1 < 0x1_0000_0000
      ensures !ok ==> unchanged(this)
      ensures ok ==> Valid() && fresh(list) && Contents() == old(Contents())
      ensures ok ==> cap == old(cap) + old(cap) / 2 + 1 && copied == old(copied) + old(cap)
    {
      var newCap := GrownCap(cap);
      GrowthTestIsExact(cap);
      if newCap <= cap {
        return false;
      }
      ok := Realloc(newCap);
    }

    /** Never drops an element: it shrinks to at least the caller's minimum and is only
        called when the contents fit. */
    method Contract(minCap: Word32) returns (ok: bool)
      requires Valid() && len <= ContractedCap(cap)
      modifies this`list, this`cap, this`copied
      ensures ok <==> !(old(cap) == 1 && minCap == 0 && zeroReallocFails)
      ensures !ok ==> unchanged(this)
      ensures ok ==> Valid() && Contents() == old(Contents()) && (list == old(list) || fresh(list))
      ensures ok ==> cap == var c := ContractedCap(old(cap));
                            var d := if c < minCap then minCap else c; if d < old(cap) then d else old(cap)
    {
      var newCap := ContractedCap(cap);
      newCap := if newCap < minCap then minCap else newCap;
      if newCap >= cap {
        return true;
      }
      ok := Realloc(newCap);
    }

    method Append(ptr: T) returns (ok: bool)
      requires Valid()
      modifies this, list
      ensures ok <==> old(len) < old(cap) || old(cap) + old(cap) / 2 + 1 < 0x1_0000_0000
      ensures !ok ==> unchanged(this)
      ensures ok ==> Valid() && Contents() == old(Contents()) + [ptr]
      ensures ok ==> if old(len) < old(cap) then list == old(list) && cap == old(cap) && copied == old(copied)
                     else fresh(list) && cap == old(cap) + old(cap) / 2 + 1 && copied == old(copied) + old(cap)
    {
      if len >= cap {
        ok := Expand();
        if !ok {
          return;
        }
      }
      list[len] := ptr;
      len := len + 1;
      ok := true;
    }

    /** Fails, where the program exits, only when the last element leaves a list of
        capacity 1 and the platform's realloc yields NULL for size 0. */
    method Remove(index: Word32) returns (ok: bool)
      requires Valid()
      modifies this, list
      ensures ok <==> !(old(len) == 1 && old(cap) == 1 && index == 0 && zeroReallocFails)
      ensures ok ==> Valid() && (list == old(list) || fresh(list))
      ensures ok ==> cap == if index < old(len) then CapAfterRemove(old(cap), old(len)) else old(cap)
      ensures ok ==> Contents() == if index < old(len) then old(Contents())[..index] + old(Contents())[index + 1..]
                                   else old(Contents())
    {
      if index >= len {
        return true;
      }
      ghost var was := list[..len];
      var i := index;
      while i < len - 1
        invariant index <= i <= len - 1
        invariant forall k :: 0 <= k < index || i <= k < len ==> list[k] == was[k]
        invariant forall k :: index <= k < i ==> list[k] == was[k + 1]
        modifies list
      {
        list[i] := list[i + 1];
        i := i + 1;
      }
      len := len - 1;
      assert list[..len] == was[..index] + was[index + 1..];
      ok := true;
      if len <= ContractedCap(cap) {
        ok := Contract(0);
      }
    }

    method Pop() returns (last: T, ok: bool)
      requires Valid()
      modifies this, list
      ensures ok <==> !(old(len) == 1 && old(cap) == 1 && zeroReallocFails)
      ensures ok ==> Valid() && (list == old(list) || fresh(list))
      ensures ok ==> cap == if old(len) > 0 then CapAfterRemove(old(cap), old(len)) else old(cap)
      ensures ok ==> if old(len) == 0 then last == nil && Contents() == []
                     else old(Contents()) == Contents() + [last]
    {
      if len <= 0 {
        return nil, true;
      }
      last := list[len - 1];
      ok := Remove(len - 1);
    }

    method Get(index: Word32) returns (ptr: T)
      requires Valid()
      ensures ptr == if index < len then Contents()[index] else nil
    {
      if index >= len {
        return nil;
      }
      return list[index];
    }

    method Set(index: Word32, ptr: T)
      requires Valid()
      modifies list
      ensures Contents() == if index < len then old(Contents())[index := ptr] else old(Contents())
    {
      if index >= len {
        return;
      }
      list[index] := ptr;
    }

    /** Makes room at the end, then carries each element one place on. */
    method Insert(ptr: T, pos: Word32) returns (ok: bool)
      requires Valid()
      modifies this, list
      ensures ok <==> pos > old(len) || old(len) < old(cap) || old(cap) + old(cap) / 2 + 1 < 0x1_0000_0000
      ensures ok ==> Valid() && (list == old(list) || fresh(list))
      ensures ok ==> cap == if pos > old(len) || old(len) < old(cap) then old(cap) else old(cap) + old(cap) / 2 + 1
      ensures ok ==> Contents() == if pos <= old(len) then old(Contents())[..pos] + [ptr] + old(Contents())[pos..]
                                   else old(Contents())
    {
      if pos > len {
        return true;
      }
      ok := Append(nil);
      if !ok {
        return;
      }
      CarryFrom(ptr, pos);
    }

    method CarryFrom(ptr: T, pos: Word32)
      requires Valid() && pos < len
      modifies list
      ensures Contents() == old(Contents())[..pos] + [ptr] + old(Contents())[pos..len - 1]
    {
      ghost var was := list[..len];
      var i, curr := pos, ptr;
      while i < len
        invariant pos <= i <= len
        invariant curr == if i == pos then ptr else was[i - 1]
        invariant forall k :: 0 <= k < pos || i <= k < len ==> list[k] == was[k]
        invariant i > pos ==> list[pos] == ptr
        invariant forall k :: pos < k < i ==> list[k] == was[k - 1]
        modifies list
      {
        var next := list[i];
        list[i] := curr;
        curr := next;
        i := i + 1;
      }
      assert list[..len] == was[..pos] + [ptr] + was[pos..len - 1];
    }
  }

  /** Appending n elements to an empty list moves fewer than 3n elements in all. */
  method AppendAll<T(==)>(xs: seq<T>, nil: T, zeroReallocFails: bool) returns (l: PointerList<T>, ok: bool)
    ensures fresh(l) && (ok ==> l.Valid() && l.Contents() == xs)
    ensures ok && |xs| > 0 ==> l.copied < 3 * |xs|
    ensures |xs| < 0x8000_0000 ==> ok
  {
    l := new PointerList<T>(nil, zeroReallocFails);
    ok := true;
    for i := 0 to |xs|
      invariant fresh(l) && fresh(l.list) && l.Valid() && ok
      invariant l.Contents() == xs[..i]
      invariant l.cap <= i + i / 2 + 1
      invariant l.copied <= 2 * l.cap && (i > 0 ==> l.copied < 3 * i)
    {
      ok := l.Append(xs[i]);
      if !ok {
        return;
      }
    }
  }

  // ---------- whole runs ----------

  datatype ListOp<T> =
    | Append(x: T)
    | Insert(x: T, pos: Word32)
    | Remove(index: Word32)
    | Pop
    | Set(index: Word32, x: T)
    | Get(index: Word32)

  /** The sequence a run has built, its capacity and the pointers it has returned; or the
      program has exited. */
  datatype ListState<T> = ListState(contents: seq<T>, cap: Word32, returned: seq<T>) | Exited

  function Grow<T>(st: ListState<T>, contents: seq<T>): ListState<T>
    requires st.ListState?
  {
    if |st.contents| < st.cap then st.(contents := contents)
    else if st.cap + st.cap / 2 + 1 < 0x1_0000_0000 then st.(contents := contents, cap := st.cap + st.cap / 2 + 1)
    else Exited
  }

  function Shrink<T>(st: ListState<T>, contents: seq<T>, zeroReallocFails: bool): ListState<T>
    requires st.ListState?
  {
    if |st.contents| == 1 && st.cap == 1 && zeroReallocFails then Exited
    else st.(contents := contents, cap := CapAfterRemove(st.cap, |st.contents|))
  }

  function Apply<T>(st: ListState<T>, op: ListOp<T>, nil: T, zeroReallocFails: bool): ListState<T> {
    if st.Exited? then st
    else
      var s, n := st.contents, |st.contents|;
      match op
      case Append(x) => Grow(st, s + [x])
      case Insert(x, pos) => if pos <= n then Grow(st, s[..pos] + [x] + s[pos..]) else st
      case Remove(i) => if i < n then Shrink(st, s[..i] + s[i + 1..], zeroReallocFails) else st
      case Pop => if n == 0 then st.(returned := st.returned + [nil])
                  else Shrink(st.(returned := st.returned + [s[n - 1]]), s[..n - 1], zeroReallocFails)
      case Set(i, x) => if i < n then st.(contents := s[i := x]) else st
      case Get(i) => st.(returned := st.returned + [if i < n then s[i] else nil])
  }

  function ApplyAll<T>(ops: seq<ListOp<T>>, nil: T, zeroReallocFails: bool): ListState<T> {
    if ops == [] then ListState([], 0, [])
    else Apply(ApplyAll(ops[..|ops| - 1], nil, zeroReallocFails), ops[|ops| - 1], nil, zeroReallocFails)
  }

  /** Up to 2^31 operations a run does not exit, where realloc of size 0 does not yield NULL: the
      capacity never exceeds the operations by more than half. */
  lemma {:induction false} ShortRunsDoNotExit<T>(ops: seq<ListOp<T>>, nil: T)
    requires |ops| <= 0x8000_0000
    ensures var st := ApplyAll(ops, nil, false);
            st.ListState? && |st.contents| <= st.cap && |st.contents| <= |ops| && st.cap <= |ops| + |ops| / 2 + 1
  {
    if ops != [] {
      ShortRunsDoNotExit(ops[..|ops| - 1], nil);
    }
  }

  /** An exit is final. */
  lemma {:induction false} ExitIsFinal<T>(ops: seq<ListOp<T>>, k: nat, nil: T, zeroReallocFails: bool)
    requires k <= |ops| && ApplyAll(ops[..k], nil, zeroReallocFails).Exited?
    ensures ApplyAll(ops, nil, zeroReallocFails).Exited?
  {
    if k < |ops| {
      assert ops[..|ops| - 1][..k] == ops[..k];
      ExitIsFinal(ops[..|ops| - 1], k, nil, zeroReallocFails);
    } else {
      assert ops[..k] == ops;
    }
  }

  /** Where realloc of size 0 yields NULL, the shortest run that exits adds an element and
      takes it off again. */
  lemma {:induction false} EmptyingExits<T>(x: T, nil: T)
    ensures ApplyAll([Append(x), Pop], nil, true).Exited?
    ensures ApplyAll([Append(x), Pop], nil, false) == ListState([], 0, [x])
  {
    assert [Append(x), Pop][..1] == [Append(x)];
    assert forall fails :: ApplyAll([Append(x)], nil, fails) == ListState([x], 1, []);
  }

  lemma {:induction false} OneMore<T>(ops: seq<ListOp<T>>, k: nat, nil: T, zeroReallocFails: bool)
    requires k < |ops|
    ensures ApplyAll(ops[..k + 1], nil, zeroReallocFails)
            == Apply(ApplyAll(ops[..k], nil, zeroReallocFails), ops[k], nil, zeroReallocFails)
  {
    assert ops[..k + 1][..k] == ops[..k];
  }

  /** Any run of list operations acts on a plain sequence, and exits exactly when a full list
      cannot grow or, where realloc of size 0 yields NULL, the only element leaves a list of
      capacity 1. */
  method RunList<T(==)>(ops: seq<ListOp<T>>, nil: T, zeroReallocFails: bool)
    returns (contents: seq<T>, cap: Word32, returned: seq<T>, ok: bool)
    ensures ApplyAll(ops, nil, zeroReallocFails) == if ok then ListState(contents, cap, returned) else Exited
    ensures |ops| <= 0x8000_0000 && !zeroReallocFails ==> ok
  {
    hide Apply;
    if |ops| <= 0x8000_0000 {
      ShortRunsDoNotExit(ops, nil);
    }
    var l := new PointerList<T>(nil, zeroReallocFails);
    returned, contents, cap, ok := [], [], 0, true;
    for k := 0 to |ops|
      invariant fresh(l) && fresh(l.list) && l.Valid() && ok && l.nil == nil && l.zeroReallocFails == zeroReallocFails
      invariant ApplyAll(ops[..k], nil, zeroReallocFails) == ListState(l.Contents(), l.cap, returned)
    {
      OneMore(ops, k, nil, zeroReallocFails);
      var more;
      more, ok := RunOp(l, ops[k], returned);
      if !ok {
        ExitIsFinal(ops, k + 1, nil, zeroReallocFails);
        return;
      }
      returned := returned + more;
    }
    assert ops[..|ops|] == ops;
    contents, cap := l.list[..l.len], l.cap;
  }

  method RunOp<T(==)>(l: PointerList<T>, op: ListOp<T>, ghost earlier: seq<T>) returns (returned: seq<T>, ok: bool)
    requires l.Valid()
    modifies l, l.list
    ensures ok ==> l.Valid() && (l.list == old(l.list) || fresh(l.list))
    ensures Apply(ListState(old(l.Contents()), old(l.cap), earlier), op, l.nil, l.zeroReallocFails)
            == if ok then ListState(l.Contents(), l.cap, earlier + returned) else Exited
  {
    hide CapAfterRemove, Grow, Shrink;
    returned, ok := [], true;
    match op
    case Append(x) =>
      ok := RunAppend(l, x, earlier);
    case Insert(x, pos) =>
      ok := RunInsert(l, x, pos, earlier);
    case Remove(i) =>
      ok := RunRemove(l, i, earlier);
    case Pop =>
      returned, ok := RunPop(l, earlier);
    case Set(i, x) => l.Set(i, x);
    case Get(i) =>
      var x := l.Get(i);
      returned := [x];
  }

  method RunAppend<T(==)>(l: PointerList<T>, x: T, ghost earlier: seq<T>) returns (ok: bool)
    requires l.Valid()
    modifies l, l.list
    ensures ok ==> l.Valid() && (l.list == old(l.list) || fresh(l.list))
    ensures Grow(ListState(old(l.Contents()), old(l.cap), earlier), old(l.Contents()) + [x])
            == if ok then ListState(l.Contents(), l.cap, earlier) else Exited
  {
    ok := l.Append(x);
  }

  method RunInsert<T(==)>(l: PointerList<T>, x: T, pos: Word32, ghost earlier: seq<T>) returns (ok: bool)
    requires l.Valid()
    modifies l, l.list
    ensures ok ==> l.Valid() && (l.list == old(l.list) || fresh(l.list))
    ensures var s := old(l.Contents());
            (if ok then ListState(l.Contents(), l.cap, earlier) else Exited) ==
            if pos <= |s| then Grow(ListState(s, old(l.cap), earlier), s[..pos] + [x] + s[pos..])
            else ListState(s, old(l.cap), earlier)
  {
    ok := l.Insert(x, pos);
  }

  method RunRemove<T(==)>(l: PointerList<T>, i: Word32, ghost earlier: seq<T>) returns (ok: bool)
    requires l.Valid()
    modifies l, l.list
    ensures ok ==> l.Valid() && (l.list == old(l.list) || fresh(l.list))
    ensures var s := old(l.Contents());
            (if ok then ListState(l.Contents(), l.cap, earlier) else Exited) ==
            if i < |s| then Shrink(ListState(s, old(l.cap), earlier), s[..i] + s[i + 1..], l.zeroReallocFails)
            else ListState(s, old(l.cap), earlier)
  {
    hide CapAfterRemove;
    ok := l.Remove(i);
  }

  method RunPop<T(==)>(l: PointerList<T>, ghost earlier: seq<T>) returns (returned: seq<T>, ok: bool)
    requires l.Valid()
    modifies l, l.list
    ensures ok ==> l.Valid() && (l.list == old(l.list) || fresh(l.list))
    ensures Apply(ListState(old(l.Contents()), old(l.cap), earlier), Pop, l.nil, l.zeroReallocFails)
            == if ok then ListState(l.Contents(), l.cap, earlier + returned) else Exited
  {
    hide CapAfterRemove;
    ghost var s := l.Contents();
    var last;
    last, ok := l.Pop();
    assert ok && s != [] ==> last == s[|s| - 1] && l.Contents() == s[..|s| - 1];
    returned := [last];
  }
}
