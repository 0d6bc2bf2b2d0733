/** The reference-counted `ByteCounter` and the counting allocator
    `MyAllocator` of nsd/07mem/code/alloc.cpp.

    The heap is explicit: impls (`ByteCounterImpl`) live at pointers, and
    every `ByteCounter` object, named by an identity, holds a possibly null
    pointer to one. The totals are `size_t` counters and wrap modulo 2^64;
    the reference count is a plain natural number. */
module ByteCounting {
  import opened Errors

  /** 2^64: `size_t` is 64 bits wide. */
  const WORD: nat := 0x1_0000_0000_0000_0000
  /** `std::numeric_limits<std::size_t>::max()`. */
  const SIZE_MAX: nat := WORD - 1

  type Word = x: int | 0 <= x < WORD

  /** Reduction modulo 2^64, as `size_t` arithmetic does. */
  function Wrap(x: int): Word {
    x % WORD
  }

  /** `ByteCounterImpl`. */
  datatype Impl = Impl(totalAllocated: Word, totalDeallocated: Word, refcount: nat)

  /** Address of an impl. */
  type Ptr = nat
  /** Identity of a `ByteCounter` object. */
  type Obj = nat

  /** All impls by address (`next` is the next fresh address `new` hands
      out) and every live counter's `m_impl`, `None` being `nullptr`. */
  datatype Heap = Heap(impls: map<Ptr, Impl>, next: Ptr, counters: map<Obj, Option<Ptr>>)

  /** The counters whose `m_impl` is `p`. */
  function Holders(counters: map<Obj, Option<Ptr>>, p: Ptr): set<Obj> {
    set o | o in counters && counters[o] == Some(p)
  }

  function RefsTo(h: Heap, p: Ptr): set<Obj> {
    Holders(h.counters, p)
  }

  lemma HoldersSet(c: map<Obj, Option<Ptr>>, o: Obj, v: Option<Ptr>, x: Ptr)
    ensures Holders(c[o := v], x) == (Holders(c, x) - {o}) + (if v == Some(x) then {o} else {})
  {
  }

  lemma HoldersRemove(c: map<Obj, Option<Ptr>>, o: Obj, x: Ptr)
    ensures Holders(c - {o}, x) == Holders(c, x) - {o}
  {
  }

  /** A count of 1 held by `o` means `o` is the only holder. */
  lemma OnlyHolder(c: map<Obj, Option<Ptr>>, o: Obj, x: Ptr)
    requires o in Holders(c, x) && |Holders(c, x)| == 1
    ensures Holders(c, x) == {o}
  {
    var rest := Holders(c, x) - {o};
    assert |rest| == 0;
  }

  /** The ownership invariant: every live counter holds a live impl, every
      impl's reference count is the number of counters holding it, and no
      impl is kept alive without a holder. */
  ghost predicate Inv(h: Heap) {
    (forall o :: o in h.counters ==> h.counters[o].Some? && h.counters[o].value in h.impls)
    && (forall p :: p in h.impls ==> p < h.next && h.impls[p].refcount == |RefsTo(h, p)| && h.impls[p].refcount >= 1)
  }

  predicate Live(h: Heap, o: Obj) {
    o in h.counters && h.counters[o].Some? && h.counters[o].value in h.impls
  }

  function ImplOf(h: Heap, o: Obj): Ptr
    requires Live(h, o)
  {
    h.counters[o].value
  }

  /** `operator==(ByteCounter, ByteCounter)`: the two share an impl. */
  predicate Same(h: Heap, a: Obj, b: Obj)
    requires a in h.counters && b in h.counters
  {
    h.counters[a] == h.counters[b]
  }

  /** `incref`. */
  function Incref(h: Heap, p: Ptr): (r: Heap)
    requires p in h.impls
    ensures r.counters == h.counters && r.next == h.next && r.impls.Keys == h.impls.Keys
    ensures r.impls[p].refcount == h.impls[p].refcount + 1
    ensures r.impls[p].totalAllocated == h.impls[p].totalAllocated && r.impls[p].totalDeallocated == h.impls[p].totalDeallocated
    ensures forall q :: q in h.impls && q != p ==> r.impls[q] == h.impls[q]
  {
    h.(impls := h.impls[p := h.impls[p].(refcount := h.impls[p].refcount + 1)])
  }

  /** `decref`: nothing on a null pointer; the last holder deletes the impl
      and nulls its pointer; any other holder decrements the count. */
  function Decref(h: Heap, o: Obj): (r: Heap)
    requires o in h.counters
    requires h.counters[o].Some? ==> h.counters[o].value in h.impls && h.impls[h.counters[o].value].refcount >= 1
    ensures r.next == h.next && r.counters.Keys == h.counters.Keys
    ensures forall o' :: o' in h.counters && o' != o ==> r.counters[o'] == h.counters[o']
    ensures forall q :: q in h.impls && h.counters[o] != Some(q) ==> q in r.impls && r.impls[q] == h.impls[q]
    ensures h.counters[o].Some? && h.impls[h.counters[o].value].refcount == 1 ==>
      var p := h.counters[o].value;
      p !in r.impls && r.counters[o].None? && r.impls.Keys == h.impls.Keys - {p}
    ensures h.counters[o].Some? && h.impls[h.counters[o].value].refcount != 1 ==>
      var p := h.counters[o].value;
      p in r.impls && r.impls[p].refcount == h.impls[p].refcount - 1 && r.counters[o] == h.counters[o]
      && r.impls.Keys == h.impls.Keys
    ensures h.counters[o].None? ==> r == h
  {
    match h.counters[o]
    case None => h
    case Some(p) =>
      if h.impls[p].refcount == 1 then
        h.(impls := h.impls - {p}, counters := h.counters[o := None])
      else
        h.(impls := h.impls[p := h.impls[p].(refcount := h.impls[p].refcount - 1)])
  }

  /** `ByteCounter()`: a fresh zeroed impl, then `incref`. */
  function Construct(h: Heap, o: Obj): (r: Heap)
    requires Inv(h) && o !in h.counters
    ensures Live(r, o) && r.impls[ImplOf(r, o)] == Impl(0, 0, 1)
    ensures ImplOf(r, o) !in h.impls
    ensures forall o' :: o' in h.counters ==> o' in r.counters && r.counters[o'] == h.counters[o'] && !Same(r, o, o')
    ensures forall p :: p in h.impls ==> p in r.impls && r.impls[p] == h.impls[p]
  {
    var p := h.next;
    Incref(Heap(h.impls[p := Impl(0, 0, 0)], h.next + 1, h.counters[o := Some(p)]), p)
  }

  /** `ByteCounter(ByteCounter const &)`, and equally
      `ByteCounter(ByteCounter &&)`, whose body is the same: share the
      other's impl and `incref`. The source keeps its impl. */
  function CopyConstruct(h: Heap, o: Obj, other: Obj): (r: Heap)
    requires Inv(h) && o !in h.counters && other in h.counters
    ensures Live(r, o) && Live(r, other) && Same(r, o, other)
    ensures r.counters[other] == h.counters[other]
    ensures r.impls.Keys == h.impls.Keys
    ensures r.impls[ImplOf(r, o)].refcount == h.impls[ImplOf(h, other)].refcount + 1
    ensures forall o' :: o' in h.counters ==> o' in r.counters && r.counters[o'] == h.counters[o']
  {
    Incref(h.(counters := h.counters[o := h.counters[other]]), ImplOf(h, other))
  }

  /** Two distinct counters holding one impl make its count at least 2. */
  lemma SharedCountAtLeastTwo(h: Heap, a: Obj, b: Obj)
    requires Inv(h) && a in h.counters && b in h.counters && a != b && h.counters[a] == h.counters[b]
    ensures h.impls[h.counters[a].value].refcount >= 2
  {
    var p := h.counters[a].value;
    assert {a, b} <= RefsTo(h, p);
    assert |{a, b}| == 2;
    SubsetCard({a, b}, RefsTo(h, p));
  }

  lemma SubsetCard<T>(s: set<T>, t: set<T>)
    requires s <= t
    ensures |s| <= |t|
  {
    assert t == s + (t - s);
  }

  /** Dropping one counter's reference never deletes the impl another
      counter holds. */
  lemma DecrefSparesOther(h: Heap, o: Obj, other: Obj)
    requires Inv(h) && o in h.counters && other in h.counters && o != other
    ensures ImplOf(h, other) in Decref(h, o).impls
  {
    if h.counters[o] == h.counters[other] {
      SharedCountAtLeastTwo(h, o, other);
    }
  }

  /** `operator=(ByteCounter const &)`, and equally the move assignment:
      unless assigning to itself, drop the own impl and share the other's. */
  function CopyAssign(h: Heap, o: Obj, other: Obj): (r: Heap)
    requires Inv(h) && o in h.counters && other in h.counters
    ensures o == other ==> r == h
    ensures Live(r, o) && Live(r, other) && Same(r, o, other)
    ensures r.counters.Keys == h.counters.Keys
    ensures forall o' :: o' in h.counters && o' != o ==> r.counters[o'] == h.counters[o']
    ensures o != other && |RefsTo(h, ImplOf(h, o))| == 1 ==> r.impls.Keys == h.impls.Keys - {ImplOf(h, o)}
    ensures o != other && |RefsTo(h, ImplOf(h, o))| > 1 ==> r.impls.Keys == h.impls.Keys
  {
    if o == other then h
    else
      DecrefSparesOther(h, o, other);
      var h1 := Decref(h, o);
      var q := ImplOf(h, other);
      Incref(h1.(counters := h1.counters[o := Some(q)]), q)
  }

  /** `~ByteCounter`: `decref`, then the object is gone. */
  function Destroy(h: Heap, o: Obj): (r: Heap)
    requires Inv(h) && o in h.counters
    ensures r.counters.Keys == h.counters.Keys - {o}
    ensures forall o' :: o' in r.counters ==> r.counters[o'] == h.counters[o']
    ensures |RefsTo(h, ImplOf(h, o))| == 1 ==> r.impls.Keys == h.impls.Keys - {ImplOf(h, o)}
    ensures |RefsTo(h, ImplOf(h, o))| > 1 ==> r.impls.Keys == h.impls.Keys
  {
    var h1 := Decref(h, o);
    h1.(counters := h1.counters - {o})
  }

  /** `swap`: exchange the two pointers; the counts are untouched. */
  function Swap(h: Heap, a: Obj, b: Obj): (r: Heap)
    requires a in h.counters && b in h.counters
    ensures r.impls == h.impls && r.counters.Keys == h.counters.Keys
    ensures r.counters[a] == h.counters[b] && r.counters[b] == h.counters[a]
    ensures forall o :: o in h.counters && o != a && o != b ==> r.counters[o] == h.counters[o]
  {
    h.(counters := h.counters[a := h.counters[b]][b := h.counters[a]])
  }

  /** `allocated()`. */
  function Allocated(h: Heap, o: Obj): Word
    requires Live(h, o)
  {
    h.impls[ImplOf(h, o)].totalAllocated
  }

  /** `deallocated()`. */
  function Deallocated(h: Heap, o: Obj): Word
    requires Live(h, o)
  {
    h.impls[ImplOf(h, o)].totalDeallocated
  }

  /** `refcount()`. */
  function Refcount(h: Heap, o: Obj): nat
    requires Live(h, o)
  {
    h.impls[ImplOf(h, o)].refcount
  }

  /** `bytes()`: allocated minus deallocated, in `size_t` arithmetic. */
  function Bytes(h: Heap, o: Obj): Word
    requires Live(h, o)
  {
    Wrap(Allocated(h, o) - Deallocated(h, o))
  }

  /** `increase`: adds to `allocated` of the shared impl, so every counter
      sharing it sees the change and no other counter does. */
  function Increase(h: Heap, o: Obj, amount: Word): (r: Heap)
    requires Live(h, o)
    ensures r.counters == h.counters && r.impls.Keys == h.impls.Keys && r.next == h.next
    ensures forall a :: Live(h, a) ==> Live(r, a) && Deallocated(r, a) == Deallocated(h, a) && Refcount(r, a) == Refcount(h, a)
    ensures forall a :: Live(h, a) ==>
      Allocated(r, a) == if Same(h, a, o) then Wrap(Allocated(h, a) + amount) else Allocated(h, a)
  {
    var p := ImplOf(h, o);
    h.(impls := h.impls[p := h.impls[p].(totalAllocated := Wrap(h.impls[p].totalAllocated + amount))])
  }

  /** `decrease`: adds to `deallocated` of the shared impl. */
  function Decrease(h: Heap, o: Obj, amount: Word): (r: Heap)
    requires Live(h, o)
    ensures r.counters == h.counters && r.impls.Keys == h.impls.Keys && r.next == h.next
    ensures forall a :: Live(h, a) ==> Live(r, a) && Allocated(r, a) == Allocated(h, a) && Refcount(r, a) == Refcount(h, a)
    ensures forall a :: Live(h, a) ==>
      Deallocated(r, a) == if Same(h, a, o) then Wrap(Deallocated(h, a) + amount) else Deallocated(h, a)
  {
    var p := ImplOf(h, o);
    h.(impls := h.impls[p := h.impls[p].(totalDeallocated := Wrap(h.impls[p].totalDeallocated + amount))])
  }

  lemma ConstructKeepsInv(h: Heap, o: Obj)
    requires Inv(h) && o !in h.counters
    ensures Inv(Construct(h, o))
  {
    var r := Construct(h, o);
    var p := h.next;
    assert RefsTo(r, p) == {o};
    forall q | q in h.impls
      ensures RefsTo(r, q) == RefsTo(h, q)
    {
    }
  }

  lemma CopyConstructKeepsInv(h: Heap, o: Obj, other: Obj)
    requires Inv(h) && o !in h.counters && other in h.counters
    ensures Inv(CopyConstruct(h, o, other))
  {
    var r := CopyConstruct(h, o, other);
    var q := ImplOf(h, other);
    assert RefsTo(r, q) == RefsTo(h, q) + {o};
    forall p | p in h.impls && p != q
      ensures RefsTo(r, p) == RefsTo(h, p)
    {
    }
  }

  /** How one impl's holders change when `o` moves from `p` to `q`. */
  lemma MoveHolderCount(c: map<Obj, Option<Ptr>>, o: Obj, p: Ptr, q: Ptr, x: Ptr)
    requires o in c && c[o] == Some(p)
    ensures |Holders(c[o := Some(q)], x)| ==
      if x == p && p != q then |Holders(c, x)| - 1
      else if x == q && p != q then |Holders(c, x)| + 1
      else |Holders(c, x)|
  {
    HoldersSet(c, o, Some(q), x);
    if x == p && p != q {
      assert Holders(c[o := Some(q)], x) == Holders(c, x) - {o};
    } else if x == q && p != q {
      assert Holders(c[o := Some(q)], x) == Holders(c, x) + {o};
    } else {
      assert Holders(c[o := Some(q)], x) == Holders(c, x);
    }
  }

  /** The counts after an assignment: the old impl loses a holder, the new
      one gains one. */
  lemma CopyAssignCounts(h: Heap, o: Obj, other: Obj, x: Ptr)
    requires Inv(h) && o in h.counters && other in h.counters && o != other
    requires x in CopyAssign(h, o, other).impls
    ensures x in h.impls
    ensures var p := ImplOf(h, o);
      var q := ImplOf(h, other);
      CopyAssign(h, o, other).impls[x].refcount ==
        if x == p && p != q then h.impls[x].refcount - 1
        else if x == q && p != q then h.impls[x].refcount + 1
        else h.impls[x].refcount
  {
  }

  lemma CopyAssignKeepsHoldersLive(h: Heap, o: Obj, other: Obj)
    requires Inv(h) && o in h.counters && other in h.counters && o != other
    ensures forall o' :: o' in CopyAssign(h, o, other).counters ==>
      CopyAssign(h, o, other).counters[o'].Some? && CopyAssign(h, o, other).counters[o'].value in CopyAssign(h, o, other).impls
  {
    var r := CopyAssign(h, o, other);
    var p := ImplOf(h, o);
    if |RefsTo(h, p)| == 1 {
      OnlyHolder(h.counters, o, p);
    }
    forall o' | o' in r.counters
      ensures r.counters[o'].Some? && r.counters[o'].value in r.impls
    {
      if o' != o && |RefsTo(h, p)| == 1 {
        assert o' !in RefsTo(h, p);
      }
    }
  }

  lemma CopyAssignKeepsCounts(h: Heap, o: Obj, other: Obj)
    requires Inv(h) && o in h.counters && other in h.counters && o != other
    ensures forall x :: x in CopyAssign(h, o, other).impls ==>
      x < h.next && CopyAssign(h, o, other).impls[x].refcount == |RefsTo(CopyAssign(h, o, other), x)|
      && CopyAssign(h, o, other).impls[x].refcount >= 1
  {
    var r := CopyAssign(h, o, other);
    var p := ImplOf(h, o);
    var q := ImplOf(h, other);
    assert r.counters == h.counters[o := Some(q)];
    forall x | x in r.impls
      ensures x < h.next && r.impls[x].refcount == |RefsTo(r, x)| && r.impls[x].refcount >= 1
    {
      CopyAssignCounts(h, o, other, x);
      MoveHolderCount(h.counters, o, p, q, x);
    }
  }

  lemma CopyAssignKeepsInv(h: Heap, o: Obj, other: Obj)
    requires Inv(h) && o in h.counters && other in h.counters
    ensures Inv(CopyAssign(h, o, other))
  {
    if o != other {
      CopyAssignKeepsHoldersLive(h, o, other);
      CopyAssignKeepsCounts(h, o, other);
    }
  }

  lemma DestroyKeepsInv(h: Heap, o: Obj)
    requires Inv(h) && o in h.counters
    ensures Inv(Destroy(h, o))
  {
    var r := Destroy(h, o);
    var p := ImplOf(h, o);
    assert r.counters == h.counters - {o};
    if |RefsTo(h, p)| == 1 {
      OnlyHolder(h.counters, o, p);
    }
    forall x | x in r.impls
      ensures x < r.next && r.impls[x].refcount == |RefsTo(r, x)| && r.impls[x].refcount >= 1
    {
      HoldersRemove(h.counters, o, x);
    }
  }

  /** Exchanging two counters' pointers leaves every impl's number of
      holders unchanged. */
  lemma SwapHolderCount(c: map<Obj, Option<Ptr>>, a: Obj, b: Obj, x: Ptr)
    requires a in c && b in c
    ensures |Holders(c[a := c[b]][b := c[a]], x)| == |Holders(c, x)|
  {
    var c1 := c[a := c[b]];
    if a == b || c[a] == c[b] {
      assert c1[b := c[a]] == c;
    } else {
      HoldersSet(c, a, c[b], x);
      HoldersSet(c1, b, c[a], x);
      if c[a] == Some(x) {
        assert Holders(c1[b := c[a]], x) == Holders(c, x) - {a} + {b};
      } else if c[b] == Some(x) {
        assert Holders(c1[b := c[a]], x) == Holders(c, x) - {b} + {a};
      } else {
        assert Holders(c1[b := c[a]], x) == Holders(c, x);
      }
    }
  }

  lemma SwapKeepsInv(h: Heap, a: Obj, b: Obj)
    requires Inv(h) && a in h.counters && b in h.counters
    ensures Inv(Swap(h, a, b))
  {
    forall x | x in h.impls
      ensures |RefsTo(Swap(h, a, b), x)| == |RefsTo(h, x)|
    {
      SwapHolderCount(h.counters, a, b, x);
    }
  }

  /** Increasing and then decreasing by the same amount leaves `bytes()`
      as it was, wrap-around included. */
  lemma IncreaseDecreaseRestoresBytes(h: Heap, o: Obj, amount: Word)
    requires Live(h, o)
    ensures Bytes(Decrease(Increase(h, o, amount), o, amount), o) == Bytes(h, o)
  {
    var a := Allocated(h, o);
    var d := Deallocated(h, o);
    var h2 := Decrease(Increase(h, o, amount), o, amount);
    assert Allocated(h2, o) == Wrap(a + amount);
    assert Deallocated(h2, o) == Wrap(d + amount);
    WrapDifference(a, d, amount);
  }

  lemma WrapDifference(a: int, d: int, n: int)
    ensures Wrap(Wrap(a + n) - Wrap(d + n)) == Wrap(a - d)
  {
    var ka := (a + n) / WORD;
    var kd := (d + n) / WORD;
    assert Wrap(a + n) == a + n - ka * WORD;
    assert Wrap(d + n) == d + n - kd * WORD;
    assert Wrap(a + n) - Wrap(d + n) == (a - d) + (kd - ka) * WORD;
    WrapShift(a - d, kd - ka);
  }

  lemma WrapShift(x: int, k: int)
    ensures Wrap(x + k * WORD) == Wrap(x)
  {
    var q := x / WORD;
    assert x == q * WORD + Wrap(x);
    assert x + k * WORD == (q + k) * WORD + Wrap(x);
  }

  /** `MyAllocator<T>`: its `ByteCounter` member, and `sizeof(T)`. */
  datatype Allocator = Allocator(counter: Obj, elementSize: nat)

  /** `MyAllocator()`: a default-constructed counter. */
  function NewAllocator(h: Heap, o: Obj, elementSize: nat): (r: (Heap, Allocator))
    requires Inv(h) && o !in h.counters && elementSize > 0
    ensures Live(r.0, r.1.counter) && Bytes(r.0, r.1.counter) == 0 && Refcount(r.0, r.1.counter) == 1
    ensures forall b: Allocator :: b.counter in h.counters ==> b.counter in r.0.counters && !AllocatorsEqual(r.0, r.1, b)
    ensures Inv(r.0)
  {
    ConstructKeepsInv(h, o);
    (Construct(h, o), Allocator(o, elementSize))
  }

  /** The converting constructor `MyAllocator(const MyAllocator<U> &)`: the
      member counter is first default-constructed, then assigned from the
      other's counter, which deletes the fresh impl again. */
  function ConvertAllocator(h: Heap, o: Obj, other: Allocator, elementSize: nat): (r: (Heap, Allocator))
    requires Inv(h) && o !in h.counters && other.counter in h.counters && elementSize > 0
    ensures Live(r.0, o) && Live(r.0, other.counter) && Same(r.0, o, other.counter) && r.1 == Allocator(o, elementSize)
    ensures r.0.impls.Keys == h.impls.Keys
    ensures Refcount(r.0, o) == h.impls[ImplOf(h, other.counter)].refcount + 1
    ensures AllocatorsEqual(r.0, r.1, other) && AllocatorsEqual(r.0, other, r.1)
  {
    ConstructKeepsInv(h, o);
    var h1 := Construct(h, o);
    assert RefsTo(h1, ImplOf(h1, o)) == {o};
    CopyAssignCounts(h1, o, other.counter, ImplOf(h, other.counter));
    var h2 := CopyAssign(h1, o, other.counter);
    (h2, Allocator(o, elementSize))
  }

  /** The converting constructor keeps the ownership invariant: the fresh
      impl it default-constructs is deleted again by the assignment. */
  lemma ConvertAllocatorKeepsInv(h: Heap, o: Obj, other: Allocator, elementSize: nat)
    requires Inv(h) && o !in h.counters && other.counter in h.counters && elementSize > 0
    ensures Inv(ConvertAllocator(h, o, other, elementSize).0)
  {
    ConstructKeepsInv(h, o);
    CopyAssignKeepsInv(Construct(h, o), o, other.counter);
  }

  /** `operator==(MyAllocator<T>, MyAllocator<U>)`: the counters are equal,
      i.e. share an impl. `operator!=` is its negation. */
  predicate AllocatorsEqual(h: Heap, a: Allocator, b: Allocator)
    requires a.counter in h.counters && b.counter in h.counters
  {
    Same(h, a.counter, b.counter)
  }

  /** `allocate(n)`: `bad_alloc` when `n * sizeof(T)` would overflow or
      when `malloc` fails (`mallocSucceeds`); otherwise the counter grows by
      the byte count. The returned pointer is not part of this model. */
  function Allocate(h: Heap, a: Allocator, n: Word, mallocSucceeds: bool): (r: Result<Heap>)
    requires Live(h, a.counter) && a.elementSize > 0
    ensures n > SIZE_MAX / a.elementSize ==> r == Err(BadAlloc)
    ensures !mallocSucceeds ==> r == Err(BadAlloc)
    ensures r.Ok? <==> n <= SIZE_MAX / a.elementSize && mallocSucceeds
    ensures r.Ok? ==> (n * a.elementSize <= SIZE_MAX && Live(r.value, a.counter)
      && Allocated(r.value, a.counter) == Wrap(Allocated(h, a.counter) + n * a.elementSize)
      && Deallocated(r.value, a.counter) == Deallocated(h, a.counter))
    ensures r.Ok? && Inv(h) ==> Inv(r.value)
  {
    if n > SIZE_MAX / a.elementSize then Err(BadAlloc)
    else
      NoOverflow(n, a.elementSize);
      var bytes := n * a.elementSize;
      if mallocSucceeds then Ok(Increase(h, a.counter, bytes)) else Err(BadAlloc)
  }

  lemma NoOverflow(n: nat, size: nat)
    requires size > 0 && n <= SIZE_MAX / size
    ensures n * size <= SIZE_MAX
  {
    assert n * size <= (SIZE_MAX / size) * size;
  }

  /** `deallocate(p, n)`: the counter's `deallocated` grows by
      `n * sizeof(T)`, computed in `size_t` arithmetic. */
  function Deallocate(h: Heap, a: Allocator, n: Word): (r: Heap)
    requires Live(h, a.counter)
    ensures Live(r, a.counter)
    ensures Deallocated(r, a.counter) == Wrap(Deallocated(h, a.counter) + Wrap(n * a.elementSize))
    ensures Allocated(r, a.counter) == Allocated(h, a.counter)
    ensures Inv(h) ==> Inv(r)
  {
    Decrease(h, a.counter, Wrap(n * a.elementSize))
  }

  /** A successful `allocate(n)` followed by `deallocate(p, n)` leaves
      `bytes()` where it was. */
  lemma AllocateDeallocateRestoresBytes(h: Heap, a: Allocator, n: Word)
    requires Live(h, a.counter) && a.elementSize > 0
    requires Allocate(h, a, n, true).Ok?
    ensures Bytes(Deallocate(Allocate(h, a, n, true).value, a, n), a.counter) == Bytes(h, a.counter)
  {
    var h1 := Allocate(h, a, n, true).value;
    assert Wrap(n * a.elementSize) == n * a.elementSize;
    assert h1 == Increase(h, a.counter, n * a.elementSize);
    IncreaseDecreaseRestoresBytes(h, a.counter, n * a.elementSize);
  }
}
