/**
 * The behaviour the repository's tests pin down, restated against the
 * model (lemmas) and exercised on the class through its contracts alone
 * (client methods).
 */
module Scenarios {

  import opened Options
  import opened LocalStorageModel
  import LocalStorage

  /** `test3`: from inline `[1, 2]` with `N = 4`, two pushes stay inline and the third promotes. */
  lemma PushScenario()
    ensures Push(Push(Stack([1, 2]), 4, 3), 4, 4) == Stack([1, 2, 3, 4])
    ensures Push(Stack([1, 2, 3, 4]), 4, 5) == Heap([1, 2, 3, 4, 5])
  {
  }

  /** `test4` and `test5`: `extend([3, 4])` fills the inline buffer, `extend(5..6)` promotes. */
  lemma ExtendScenario()
    ensures Extend(Stack([1, 2]), 4, [3, 4]) == Stack([1, 2, 3, 4])
    ensures Extend(Stack([1, 2, 3, 4]), 4, [5]) == Heap([1, 2, 3, 4, 5])
  {
    Determined(Extend(Stack([1, 2]), 4, [3, 4]), Stack([1, 2, 3, 4]));
    Determined(Extend(Stack([1, 2, 3, 4]), 4, [5]), Heap([1, 2, 3, 4, 5]));
  }

  /** `it_pushes`: with `N = 128`, 128 pushes onto `new()` stay inline; 256 pushes end on the heap. */
  lemma {:induction false} ItPushes(values: seq<int>)
    requires |values| == 256
    ensures Extend(New(), 128, values[..128]) == Stack(values[..128])
    ensures Extend(New(), 128, values) == Heap(values)
  {
    Determined(Extend(New(), 128, values[..128]), Stack(values[..128]));
    assert Elements(Extend(New(), 128, values)) == values;
  }

  /** `it_pops`, inline part: 128 values into capacity 128 land inline, and after 128 pops the next one returns `None`. */
  lemma ItPopsInline(values: seq<int>)
    requires |values| == 128
    ensures FromArray(values, 128) == Stack(values)
    ensures Pop(PopTimes(FromArray(values, 128), 128)) == (Stack([]), None)
  {
    PopTimesStack(values, 128);
  }

  /**
   * `it_pops`, heap part: 256 values, from an array into capacity 128 or
   * from a Vec, land on the heap, which popping to empty never leaves.
   */
  lemma ItPops(values: seq<int>)
    requires |values| == 256
    ensures FromArray(values, 128).Heap?
    ensures Pop(FromArray(values, 128)) == (Heap(values[..255]), Some(values[255]))
    ensures PopTimes(FromArray(values, 128), 257) == Heap([])
    ensures PopTimes(FromVec(values), 257) == Heap([])
  {
    PopToEmptyStaysHeap(FromArray(values, 128), 257);
  }

  /** Capacity 4: pushing 1 to 4 stays inline, pushing 5 promotes, and popping returns `5` and stays on the heap. */
  lemma PopAfterPromotion()
    ensures Extend(New(), 4, [1, 2, 3, 4]) == Stack([1, 2, 3, 4])
    ensures Push(Stack([1, 2, 3, 4]), 4, 5) == Heap([1, 2, 3, 4, 5])
    ensures Pop(Heap([1, 2, 3, 4, 5])) == (Heap([1, 2, 3, 4]), Some(5))
  {
    var full: seq<int> := [1, 2, 3, 4];
    var e := Extend(New(), 4, full);
    assert Elements(e) == full by {
      assert Elements(New<int>()) + full == full;
    }
    Determined(e, Stack(full));
    assert full + [5] == [1, 2, 3, 4, 5];
    assert [1, 2, 3, 4, 5][..4] == full;
  }

  /** `test2` and `test3` on the class: lengths, capacities and storage variants. */
  method LenCapacityPush()
  {
    var lsv := new LocalStorage.LocalStorageVec.InStack([1, 2, 3, 4], 2);
    assert lsv.Len() == 2 && lsv.Capacity() == 4;

    var heap := new LocalStorage.LocalStorageVec<int>.FromVec(12, [1, 2], 42);
    assert heap.Len() == 2 && heap.Capacity() == 42 && !heap.IsEmpty();

    var grow := new LocalStorage.LocalStorageVec.InStack([1, 2, 0xAA, 0xAA], 2);
    assert grow.AsRef() == [1, 2];
    grow.Push(3);
    assert grow.AsRef() == [1, 2, 3] && grow.storage.Stack?;
    grow.Push(4);
    assert grow.AsRef() == [1, 2, 3, 4] && grow.storage.Stack?;
    assert grow.Len() == 4;
    grow.Push(5);
    assert grow.AsRef() == [1, 2, 3, 4, 5] && grow.storage.Heap?;
    assert grow.Len() == 5;
  }

  /** `test5` and `test_indexing` on the class: the iterator yields the live prefix in order, then `None`. */
  method IterateLivePrefix()
  {
    var sorted := new LocalStorage.LocalStorageVec.InStack([2, 1, 0xAA, 0xAA], 2);
    assert sorted.Index(0) == 2;

    var lsv := new LocalStorage.LocalStorageVec.InStack([1, 2, 0xAA, 0xAA], 2);
    lsv.Extend([3, 4]);
    assert lsv.AsRef() == [1, 2, 3, 4];
    var it := lsv.IntoIter();
    var a := it.Next();
    var b := it.Next();
    assert it.SizeHint() == (2, Some(2));
    var c := it.Next();
    var d := it.Next();
    var e := it.Next();
    assert [a, b, c, d, e] == [Some(1), Some(2), Some(3), Some(4), None];
  }

  /** `collect()`: pulls `next()` until `None`, gathering everything the iterator had left, in order. */
  method Collect(it: LocalStorage.StackVecIter<int>) returns (out: seq<int>)
    requires it.Valid()
    modifies it
    ensures it.Valid() && it.Remaining() == []
    ensures out == old(it.Remaining())
  {
    ghost var view := it.vec.AsRef();
    ghost var start := it.counter;
    out := [];
    while it.counter < it.vec.Len()
      invariant it.Valid() && it.vec.AsRef() == view
      invariant start <= it.counter && out == view[start..it.counter]
      decreases |view| - it.counter
    {
      var next := it.Next();
      out := out + [next.value];
    }
  }

  /** `into_iter().collect()` (and `it_iters`): draining the iterator yields exactly the slice view, in order, and then `None`. */
  method Drain(lsv: LocalStorage.LocalStorageVec<int>) returns (out: seq<int>)
    requires lsv.Valid()
    ensures out == lsv.AsRef()
  {
    var it := lsv.IntoIter();
    out := Collect(it);
    var last := it.Next();
    assert last == None;
  }
}
