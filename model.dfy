/**
 * The abstract behaviour of `LocalStorageVec<T, N>`, stated on values.
 *
 * A vector is either inline ("Stack": up to `n` live elements stored in a
 * fixed array) or heap-backed ("Heap": the elements of a `Vec`).  Only the
 * live elements are recorded here; dead inline slots and heap capacity
 * belong to the concrete representation in module LocalStorage.  The
 * inline capacity `n` is the const generic `N` and is passed explicitly.
 */
module LocalStorageModel {

  import opened Options

  datatype Lsv<T> = Stack(live: seq<T>) | Heap(elems: seq<T>)

  /** The uniform slice view (`as_ref` / `Deref`): the live elements in order. */
  function Elements<T>(s: Lsv<T>): seq<T>
  {
    match s
    case Stack(live) => live
    case Heap(elems) => elems
  }

  /** The inline variant never holds more than its capacity. */
  predicate Valid<T>(s: Lsv<T>, n: nat)
  {
    s.Stack? ==> |s.live| <= n
  }

  /** A vector is determined by its storage variant and its live elements. */
  lemma Determined<T>(a: Lsv<T>, b: Lsv<T>)
    requires a.Stack? == b.Stack?
    requires Elements(a) == Elements(b)
    ensures a == b
  {
  }

  /** `new()`: inline storage with nothing live. */
  function New<T>(): (r: Lsv<T>)
    ensures r.Stack? && Elements(r) == []
  {
    Stack([])
  }

  /**
   * `push`: appends `x`.  Inline storage with room writes slot `len`; full
   * inline storage is promoted to the heap; heap storage appends to its Vec.
   */
  function Push<T>(s: Lsv<T>, n: nat, x: T): (r: Lsv<T>)
    requires Valid(s, n)
    ensures Valid(r, n)
    ensures Elements(r) == Elements(s) + [x]
    ensures r.Stack? <==> s.Stack? && |Elements(s)| < n
  {
    match s
    case Stack(live) => if |live| < n then Stack(live + [x]) else Heap(live + [x])
    case Heap(elems) => Heap(elems + [x])
  }

  /**
   * `pop`: removes and returns the last live element, or returns `None` and
   * changes nothing when there is none.  The storage variant never changes.
   */
  function Pop<T>(s: Lsv<T>): (r: (Lsv<T>, Option<T>))
    ensures r.0.Stack? == s.Stack?
    ensures Elements(s) == [] ==> r == (s, None)
    ensures Elements(s) != [] ==>
              var e := Elements(s);
              r.1 == Some(e[|e| - 1]) && Elements(r.0) == e[..|e| - 1]
  {
    match s
    case Stack(live) =>
      if |live| > 0 then (Stack(live[..|live| - 1]), Some(live[|live| - 1])) else (s, None)
    case Heap(elems) =>
      if |elems| > 0 then (Heap(elems[..|elems| - 1]), Some(elems[|elems| - 1])) else (s, None)
  }

  lemma PopKeepsValid<T>(s: Lsv<T>, n: nat)
    requires Valid(s, n)
    ensures Valid(Pop(s).0, n)
  {
  }

  /**
   * `extend`: pushes every item in turn.  The result holds the old elements
   * followed by the items, and stays inline exactly when everything fits.
   */
  function Extend<T>(s: Lsv<T>, n: nat, items: seq<T>): (r: Lsv<T>)
    requires Valid(s, n)
    ensures Valid(r, n)
    ensures Elements(r) == Elements(s) + items
    ensures r.Stack? <==> s.Stack? && |Elements(s)| + |items| <= n
    decreases |items|
  {
    if items == [] then s
    else
      assert Elements(s) + items == Elements(s) + [items[0]] + items[1..];
      Extend(Push(s, n, items[0]), n, items[1..])
  }

  /**
   * `insert`: places `x` at position `i`, shifting the elements from `i` on
   * one place to the right.  Like `push` it promotes full inline storage.
   */
  function Insert<T>(s: Lsv<T>, n: nat, i: nat, x: T): (r: Lsv<T>)
    requires Valid(s, n) && i <= |Elements(s)|
    ensures Valid(r, n)
    ensures |Elements(r)| == |Elements(s)| + 1
    ensures Elements(r)[i] == x
    ensures forall j :: 0 <= j < i ==> Elements(r)[j] == Elements(s)[j]
    ensures forall j :: i <= j < |Elements(s)| ==> Elements(r)[j + 1] == Elements(s)[j]
    ensures r.Stack? <==> s.Stack? && |Elements(s)| < n
  {
    match s
    case Stack(live) =>
      if |live| < n then Stack(live[..i] + [x] + live[i..]) else Heap(live[..i] + [x] + live[i..])
    case Heap(elems) => Heap(elems[..i] + [x] + elems[i..])
  }

  /**
   * `remove`: takes out the element at position `i`, shifting the elements
   * after it one place to the left.  The storage variant never changes.
   */
  function Remove<T>(s: Lsv<T>, i: nat): (r: (Lsv<T>, T))
    requires i < |Elements(s)|
    ensures r.1 == Elements(s)[i]
    ensures |Elements(r.0)| == |Elements(s)| - 1
    ensures forall j :: 0 <= j < i ==> Elements(r.0)[j] == Elements(s)[j]
    ensures forall j :: i <= j < |Elements(r.0)| ==> Elements(r.0)[j] == Elements(s)[j + 1]
    ensures r.0.Stack? == s.Stack?
  {
    match s
    case Stack(live) => (Stack(live[..i] + live[i + 1..]), live[i])
    case Heap(elems) => (Heap(elems[..i] + elems[i + 1..]), elems[i])
  }

  lemma RemoveKeepsValid<T>(s: Lsv<T>, n: nat, i: nat)
    requires Valid(s, n) && i < |Elements(s)|
    ensures Valid(Remove(s, i).0, n)
  {
  }

  /**
   * `From<[T; N']>` into inline capacity `m`: inline storage holding the
   * array when it fits, heap storage holding it otherwise.
   */
  function FromArray<T>(value: seq<T>, m: nat): (r: Lsv<T>)
    ensures Valid(r, m)
    ensures Elements(r) == value
    ensures r.Stack? <==> |value| <= m
  {
    if |value| <= m then Stack(value) else Heap(value)
  }

  /** `From<Vec<T>>`: always heap storage, whatever the length. */
  function FromVec<T>(v: seq<T>): (r: Lsv<T>)
    ensures r.Heap? && Elements(r) == v
  {
    Heap(v)
  }

  // ---------------------------------------------------------------------
  // Laws relating the operations
  // ---------------------------------------------------------------------

  /** `pop` after `push(x)` returns `x` and restores the elements; with room inline, it restores the whole vector. */
  lemma PushThenPop<T>(s: Lsv<T>, n: nat, x: T)
    requires Valid(s, n)
    ensures Pop(Push(s, n, x)).1 == Some(x)
    ensures Elements(Pop(Push(s, n, x)).0) == Elements(s)
    ensures s.Heap? || |Elements(s)| < n ==> Pop(Push(s, n, x)).0 == s
  {
    var e := Elements(Push(s, n, x));
    assert e[..|e| - 1] == Elements(s);
  }

  /** Promotion is one way: no operation turns heap storage back into inline storage. */
  lemma HeapIsPermanent<T>(s: Lsv<T>, n: nat, x: T, items: seq<T>)
    requires Valid(s, n) && s.Heap?
    ensures Push(s, n, x).Heap?
    ensures Pop(s).0.Heap?
    ensures Extend(s, n, items).Heap?
    ensures forall i :: 0 <= i <= |Elements(s)| ==> Insert(s, n, i, x).Heap?
    ensures forall i :: 0 <= i < |Elements(s)| ==> Remove(s, i).0.Heap?
  {
  }

  /** Popping heap storage down to nothing still leaves heap storage. */
  lemma {:induction false} PopToEmptyStaysHeap<T>(s: Lsv<T>, k: nat)
    requires s.Heap? && k >= |Elements(s)|
    ensures PopTimes(s, k) == Heap([])
    decreases k
  {
    if k > 0 {
      PopToEmptyStaysHeap(Pop(s).0, k - 1);
    }
  }

  /** Popping inline storage `k` times drops its last `k` elements and leaves it inline. */
  lemma {:induction false} PopTimesStack<T>(live: seq<T>, k: nat)
    requires k <= |live|
    ensures PopTimes(Stack(live), k) == Stack(live[..|live| - k])
    decreases k
  {
    if k > 0 {
      assert Pop(Stack(live)).0 == Stack(live[..|live| - 1]);
      PopTimesStack(live[..|live| - 1], k - 1);
      assert live[..|live| - 1][..|live| - k] == live[..|live| - k];
    }
  }

  /** `k` successive pops. */
  function PopTimes<T>(s: Lsv<T>, k: nat): Lsv<T>
    decreases k
  {
    if k == 0 then s else PopTimes(Pop(s).0, k - 1)
  }

  /** `extend` with one more item is `extend` followed by `push`. */
  lemma {:induction false} ExtendSnoc<T>(s: Lsv<T>, n: nat, items: seq<T>, x: T)
    requires Valid(s, n)
    ensures Extend(s, n, items + [x]) == Push(Extend(s, n, items), n, x)
  {
    Determined(Extend(s, n, items + [x]), Push(Extend(s, n, items), n, x));
  }

  /** `extend` by a concatenation is two extends in a row. */
  lemma {:induction false} ExtendAppend<T>(s: Lsv<T>, n: nat, xs: seq<T>, ys: seq<T>)
    requires Valid(s, n)
    ensures Extend(s, n, xs + ys) == Extend(Extend(s, n, xs), n, ys)
  {
    var whole, split := Extend(s, n, xs + ys), Extend(Extend(s, n, xs), n, ys);
    assert Elements(whole) == Elements(s) + xs + ys == Elements(split);
    assert whole.Stack? == split.Stack?;
    Determined(whole, split);
  }

  /** `insert(i, x)` followed by `remove(i)` returns `x` and leaves the elements as they were. */
  lemma InsertThenRemove<T>(s: Lsv<T>, n: nat, i: nat, x: T)
    requires Valid(s, n) && i <= |Elements(s)|
    ensures Remove(Insert(s, n, i, x), i).1 == x
    ensures Elements(Remove(Insert(s, n, i, x), i).0) == Elements(s)
    ensures s.Heap? || |Elements(s)| < n ==> Remove(Insert(s, n, i, x), i).0 == s
  {
    var r := Remove(Insert(s, n, i, x), i).0;
    assert Elements(r) == Elements(s);
  }

  /** From the empty vector, pushing `k <= n` items stays inline; one more promotes. */
  lemma PushesFromNew<T>(n: nat, items: seq<T>)
    ensures Elements(Extend(New(), n, items)) == items
    ensures Extend(New(), n, items).Stack? <==> |items| <= n
  {
  }

  // ---------------------------------------------------------------------
  // `push` as written in src/main.rs, with the guard `*len < 128`
  // ---------------------------------------------------------------------

  /** The inline-fill limit hard-coded into `push` in src/main.rs. */
  const HardCodedLimit: nat := 128

  /**
   * `push` on inline storage `buf` (all `N` slots, live or dead) with `len`
   * live slots, exactly as src/main.rs writes it.  `None` stands for the
   * panic of writing `buf[len]` past the end of the array.  The promotion
   * branch copies all of `buf`, dead slots included.
   */
  function PushAsWritten<T>(buf: seq<T>, len: nat, x: T): (r: Option<Lsv<T>>)
    requires len <= |buf|
    ensures r.None? <==> len < HardCodedLimit && len == |buf|
    ensures r.Some? && len < HardCodedLimit ==> r.value == Stack(buf[..len] + [x])
    ensures r.Some? && len >= HardCodedLimit ==> r.value == Heap(buf + [x])
  {
    if len < HardCodedLimit then
      if len < |buf| then Some(Stack(buf[..len] + [x])) else None
    else
      Some(Heap(buf + [x]))
  }

  /** With `N == 128`, the capacity used by the tests, the hard-coded guard does no harm. */
  lemma PushAsWrittenAgreesAt128<T>(buf: seq<T>, len: nat, x: T)
    requires |buf| == HardCodedLimit && len <= |buf|
    ensures PushAsWritten(buf, len, x) == Some(Push(Stack(buf[..len]), |buf|, x))
  {
    assert len == |buf| ==> buf[..len] == buf;
  }

  /** With `N < 128`, pushing onto full inline storage panics instead of promoting. */
  lemma PushAsWrittenPanicsWhenFull<T>(buf: seq<T>, x: T)
    requires |buf| < HardCodedLimit
    ensures PushAsWritten(buf, |buf|, x) == None
    ensures Push(Stack(buf), |buf|, x) == Heap(buf + [x])
  {
  }

  /** With `N > 128`, the 129th push promotes too early and copies the dead slots as if they were live. */
  lemma PushAsWrittenCopiesDeadSlots<T>(buf: seq<T>, x: T)
    requires |buf| > HardCodedLimit
    ensures PushAsWritten(buf, HardCodedLimit, x).Some?
    ensures |Elements(PushAsWritten(buf, HardCodedLimit, x).value)| == |buf| + 1
    ensures |Elements(Push(Stack(buf[..HardCodedLimit]), |buf|, x))| == HardCodedLimit + 1
    ensures Push(Stack(buf[..HardCodedLimit]), |buf|, x).Stack?
  {
  }
}
