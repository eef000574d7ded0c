/**
 * `LocalStorageVec<T, N>` and its owned iterator `StackVecIter<T, N>`.
 *
 * The Rust enum becomes a class with one field, `storage`, holding the
 * active variant: `Stack(buf, len)` with `buf` a fixed-size array of `N`
 * slots of which the first `len` are live, or `Heap(v, cap)` with `v` the
 * elements of a `Vec` and `cap` its capacity.  Methods update `storage`
 * in place, as the Rust methods update `*self`, and each is proved against
 * the value-level model through `Abstract()`.  `T(0)` plays the part of
 * `T: Default`: a fresh local of type `T` stands for `T::default()`.
 */
module LocalStorage {

  import opened Options
  import M = LocalStorageModel

  datatype Storage<T> = Stack(buf: array<T>, len: nat) | Heap(v: seq<T>, cap: nat)

  /**
   * Capacity of a Vec after making room for `needed` elements: unchanged
   * when they already fit, otherwise at least `needed` (amortised doubling
   * stands in for Vec's own growth policy).
   */
  function GrownCapacity(cap: nat, needed: nat): (c: nat)
    ensures needed <= cap ==> c == cap
    ensures c >= needed && c >= cap
  {
    if needed <= cap then cap else if 2 * cap >= needed then 2 * cap else needed
  }

  /** Inserts `x` at `index` among the first `len` slots of `buf`, moving the slots from `index` on one place right. */
  method InsertInPlace<T>(buf: array<T>, len: nat, index: nat, x: T)
    requires index <= len < buf.Length
    modifies buf
    ensures buf[..len + 1] == old(buf[..index]) + [x] + old(buf[index..len])
  {
    forall j | index < j <= len {
      buf[j] := buf[j - 1];
    }
    buf[index] := x;
  }

  class LocalStorageVec<T(0)> {

    /** The inline capacity, the const generic `N`. */
    const N: nat
    var storage: Storage<T>

    /** The objects the vector owns: itself and, while inline, its array. */
    ghost function Footprint(): set<object>
      reads this
    {
      {this} + if storage.Stack? then {storage.buf} else {}
    }

    /** The representation invariant: the array has exactly `N` slots and `len <= N`; a Vec never holds more than its capacity. */
    ghost predicate Valid()
      reads this
    {
      match storage
      case Stack(buf, len) => buf.Length == N && len <= N
      case Heap(v, cap) => |v| <= cap
    }

    /** The slice view (`as_ref`, `Deref`): the live prefix of the array, or the whole Vec. */
    function AsRef(): (r: seq<T>)
      reads this, Footprint()
      requires Valid()
      ensures storage.Stack? ==> r == storage.buf[..storage.len]
      ensures storage.Heap? ==> r == storage.v
    {
      match storage
      case Stack(buf, len) => buf[..len]
      case Heap(v, _) => v
    }

    /** The abstract value of this vector. */
    ghost function Abstract(): (r: M.Lsv<T>)
      reads this, Footprint()
      requires Valid()
      ensures M.Valid(r, N)
      ensures M.Elements(r) == AsRef()
      ensures r.Stack? <==> storage.Stack?
    {
      match storage
      case Stack(buf, len) => M.Stack(buf[..len])
      case Heap(v, _) => M.Heap(v)
    }

    /** `new()` (and `Default::default()`): inline storage, nothing live. */
    constructor (n: nat)
      ensures Valid() && N == n
      ensures storage.Stack? && storage.len == 0 && fresh(storage.buf)
      ensures Abstract() == M.New()
    {
      var buf := new T[n];
      N := n;
      storage := Stack(buf, 0);
    }

    /**
     * `with_capacity(capacity)`: no elements, but room for `capacity` of them.
     * A request that fits inline stays inline; a larger one goes straight to a Vec.
     */
    constructor WithCapacity(n: nat, capacity: nat)
      ensures Valid() && N == n
      ensures AsRef() == []
      ensures Capacity() >= capacity
      ensures fresh(Footprint() - {this})
    {
      N := n;
      if capacity <= n {
        var buf := new T[n];
        storage := Stack(buf, 0);
      } else {
        storage := Heap([], capacity);
      }
    }

    /** A literal `LocalStorageVec::Stack { buf, len }`: inline capacity `|buf|`. */
    constructor InStack(buf: seq<T>, len: nat)
      requires len <= |buf|
      ensures Valid() && N == |buf|
      ensures storage.Stack? && storage.len == len && storage.buf[..] == buf
      ensures fresh(storage.buf)
      ensures Abstract() == M.Stack(buf[..len])
    {
      var a := new T[|buf|](i requires 0 <= i < |buf| => buf[i]);
      N := |buf|;
      storage := Stack(a, len);
    }

    /** `From<Vec<T>>` (and a literal `LocalStorageVec::Heap(v)`): takes the Vec over as it is. */
    constructor FromVec(n: nat, v: seq<T>, cap: nat)
      requires |v| <= cap
      ensures Valid() && N == n
      ensures storage == Heap(v, cap)
      ensures Abstract() == M.FromVec(v)
    {
      N := n;
      storage := Heap(v, cap);
    }

    /**
     * `From<[T; N']>` for inline capacity `m`: an array of the same length
     * becomes the buffer itself; a shorter one is copied into the leading
     * slots of a default-filled buffer; a longer one becomes a Vec.
     */
    constructor FromArray(m: nat, value: seq<T>)
      ensures Valid() && N == m
      ensures fresh(Footprint() - {this})
      ensures Abstract() == M.FromArray(value, m)
      ensures storage.Heap? ==> storage.cap == |value|
    {
      N := m;
      if |value| <= m {
        if |value| == m {
          var buf := new T[m](i requires 0 <= i < m => value[i]);
          storage := Stack(buf, m);
        } else {
          var buf := new T[m];
          forall i | 0 <= i < |value| {
            buf[i] := value[i];
          }
          storage := Stack(buf, |value|);
        }
      } else {
        storage := Heap(value, |value|);
      }
    }

    /** `len()`: the `len` field inline, the Vec's length on the heap; always the length of the slice view. */
    function Len(): (r: nat)
      reads this, Footprint()
      requires Valid()
      ensures r == |AsRef()|
    {
      match storage
      case Stack(_, len) => len
      case Heap(v, _) => |v|
    }

    /** `capacity()`: `N` inline, the Vec's capacity on the heap; never below the length. */
    function Capacity(): (r: nat)
      reads this, Footprint()
      requires Valid()
      ensures storage.Stack? ==> r == N
      ensures storage.Heap? ==> r == storage.cap
      ensures r >= Len()
    {
      match storage
      case Stack(buf, _) => buf.Length
      case Heap(_, cap) => cap
    }

    /** `is_empty()`: exactly when nothing is live, in both variants. */
    function IsEmpty(): (r: bool)
      reads this, Footprint()
      requires Valid()
      ensures r <==> AsRef() == []
      ensures r <==> Abstract() == (if storage.Stack? then M.Stack([]) else M.Heap([]))
    {
      Len() == 0
    }

    /** `index(i)` through the slice view: slot `i` of the array inline, element `i` of the Vec on the heap. */
    function Index(i: nat): (r: T)
      reads this, Footprint()
      requires Valid() && i < Len()
      ensures storage.Stack? ==> r == storage.buf[i]
      ensures storage.Heap? ==> r == storage.v[i]
    {
      AsRef()[i]
    }

    /** `index(..end)` through the slice view. */
    function IndexTo(end: nat): (r: seq<T>)
      reads this, Footprint()
      requires Valid() && end <= Len()
      ensures |r| == end
      ensures forall j :: 0 <= j < end ==> r[j] == Index(j)
    {
      AsRef()[..end]
    }

    /** `index(start..end)` through the slice view. */
    function IndexRange(start: nat, end: nat): (r: seq<T>)
      reads this, Footprint()
      requires Valid() && start <= end <= Len()
      ensures |r| == end - start
      ensures forall j :: 0 <= j < |r| ==> r[j] == Index(start + j)
    {
      AsRef()[start..end]
    }

    /**
     * `push(value)`.  Inline with room: write slot `len` of the same array.
     * Inline and full: move every slot into a new Vec of capacity `len + 1`
     * (each slot is left holding the default value), append `value`, and
     * switch to heap storage.  Heap: append to the Vec.
     */
    method Push(value: T)
      requires Valid()
      modifies Footprint()
      ensures Valid() && Footprint() <= old(Footprint())
      ensures Abstract() == M.Push(old(Abstract()), N, value)
      ensures old(storage.Stack? && storage.len < N) ==> storage.Stack? && storage.buf == old(storage.buf)
      ensures old(storage.Stack? && storage.len >= N) ==> storage.Heap? && storage.cap == N + 1
      ensures old(storage.Heap? && |storage.v| < storage.cap) ==> storage.Heap? && storage.cap == old(storage.cap)
    {
      match storage {
        case Stack(buf, len) =>
          if len < N {
            buf[len] := value;
            storage := Stack(buf, len + 1);
            assert buf[..len + 1] == old(buf[..len]) + [value];
          } else {
            ghost var moved := buf[..];
            var placeholder: T := *;
            var v: seq<T> := [];
            for i := 0 to buf.Length
              invariant v == moved[..i]
              invariant buf[i..] == moved[i..]
            {
              v := v + [buf[i]];
              buf[i] := placeholder;
            }
            v := v + [value];
            storage := Heap(v, len + 1);
            assert moved == old(buf[..len]);
          }
        case Heap(v, cap) =>
          storage := Heap(v + [value], GrownCapacity(cap, |v| + 1));
      }
    }

    /**
     * `pop()`.  Inline with live elements: take slot `len - 1` (leaving the
     * default value behind) and decrement `len`.  Inline and empty: `None`.
     * Heap: the Vec's `pop`, which keeps the heap storage even when empty.
     */
    method Pop() returns (r: Option<T>)
      requires Valid()
      modifies Footprint()
      ensures Valid() && Footprint() == old(Footprint())
      ensures (Abstract(), r) == M.Pop(old(Abstract()))
      ensures storage.Stack? == old(storage.Stack?)
      ensures storage.Heap? ==> storage.cap == old(storage.cap)
    {
      match storage {
        case Stack(buf, len) =>
          if len > 0 {
            var placeholder: T := *;
            var value := buf[len - 1];
            buf[len - 1] := placeholder;
            storage := Stack(buf, len - 1);
            r := Some(value);
            assert buf[..len - 1] == old(buf[..len])[..len - 1];
          } else {
            r := None;
          }
        case Heap(v, cap) =>
          if |v| > 0 {
            storage := Heap(v[..|v| - 1], cap);
            r := Some(v[|v| - 1]);
          } else {
            r := None;
          }
      }
    }

    /** `extend(items)`: one `push` per item, in order. */
    method Extend(items: seq<T>)
      requires Valid()
      modifies Footprint()
      ensures Valid() && Footprint() <= old(Footprint())
      ensures Abstract() == M.Extend(old(Abstract()), N, items)
    {
      for i := 0 to |items|
        invariant Valid() && Footprint() <= old(Footprint())
        invariant Abstract() == M.Extend(old(Abstract()), N, items[..i])
      {
        M.ExtendSnoc(old(Abstract()), N, items[..i], items[i]);
        assert items[..i + 1] == items[..i] + [items[i]];
        Push(items[i]);
      }
      assert items[..|items|] == items;
    }

    /**
     * `insert(index, element)` with the semantics of `Vec::insert`:
     * elements from `index` on move one place right.  Inline storage with
     * room shifts within its array; full inline storage is promoted first.
     */
    method Insert(index: nat, element: T)
      requires Valid() && index <= Len()
      modifies Footprint()
      ensures Valid() && Footprint() <= old(Footprint())
      ensures Abstract() == M.Insert(old(Abstract()), N, index, element)
    {
      ghost var before := Abstract();
      match storage {
        case Stack(buf, len) =>
          assert before == M.Stack(buf[..len]);
          if len < N {
            InsertInPlace(buf, len, index, element);
            storage := Stack(buf, len + 1);
            assert Abstract() == M.Stack(old(buf[..len])[..index] + [element] + old(buf[..len])[index..]);
          } else {
            var v := buf[..];
            assert v == buf[..len];
            storage := Heap(v[..index] + [element] + v[index..], len + 1);
          }
        case Heap(v, cap) =>
          storage := Heap(v[..index] + [element] + v[index..], GrownCapacity(cap, |v| + 1));
      }
    }

    /**
     * `remove(index)` with the semantics of `Vec::remove`: returns the
     * element at `index`; those after it move one place left.
     */
    method Remove(index: nat) returns (r: T)
      requires Valid() && index < Len()
      modifies Footprint()
      ensures Valid() && Footprint() == old(Footprint())
      ensures (Abstract(), r) == M.Remove(old(Abstract()), index)
      ensures storage.Heap? ==> storage.cap == old(storage.cap)
    {
      match storage {
        case Stack(buf, len) =>
          var placeholder: T := *;
          r := buf[index];
          forall j | index <= j < len - 1 {
            buf[j] := buf[j + 1];
          }
          buf[len - 1] := placeholder;
          storage := Stack(buf, len - 1);
          M.Determined(Abstract(), M.Remove(old(Abstract()), index).0);
        case Heap(v, cap) =>
          r := v[index];
          storage := Heap(v[..index] + v[index + 1..], cap);
      }
    }

    /** A write through the mutable slice view (`as_mut`, `DerefMut`): element `i` changes and nothing else does. */
    method SetAt(i: nat, x: T)
      requires Valid() && i < Len()
      modifies Footprint()
      ensures Valid() && Footprint() == old(Footprint())
      ensures storage.Stack? == old(storage.Stack?)
      ensures AsRef() == old(AsRef())[i := x]
      ensures Capacity() == old(Capacity())
    {
      match storage {
        case Stack(buf, len) =>
          buf[i] := x;
        case Heap(v, cap) =>
          storage := Heap(v[i := x], cap);
      }
    }

    /** `into_iter()`: an iterator positioned before the first element. */
    method IntoIter() returns (it: StackVecIter<T>)
      requires Valid()
      ensures fresh(it) && it.Valid()
      ensures it.vec == this && it.Remaining() == AsRef()
    {
      it := new StackVecIter(this);
    }
  }

  /** The owned iterator: the vector it consumed and how many elements it has yielded. */
  class StackVecIter<T(0)> {

    const vec: LocalStorageVec<T>
    var counter: nat

    ghost predicate Valid()
      reads this, vec, vec.Footprint()
    {
      vec.Valid() && counter <= vec.Len()
    }

    /** The elements still to come, in order. */
    function Remaining(): (r: seq<T>)
      reads this, vec, vec.Footprint()
      requires Valid()
      ensures |r| == vec.Len() - counter
    {
      vec.AsRef()[counter..]
    }

    constructor (v: LocalStorageVec<T>)
      requires v.Valid()
      ensures Valid() && vec == v && counter == 0
    {
      vec := v;
      counter := 0;
    }

    /** `next()`: the element at `counter` from either storage, then `None` for ever. */
    method Next() returns (r: Option<T>)
      requires Valid()
      modifies this
      ensures Valid()
      ensures old(Remaining()) == [] ==> r == None && counter == old(counter)
      ensures old(Remaining()) != [] ==>
                r == Some(old(Remaining())[0]) && Remaining() == old(Remaining())[1..]
      ensures r.Some? ==> r.value == vec.AsRef()[old(counter)] && counter == old(counter) + 1
      ensures vec.AsRef() == old(vec.AsRef())
    {
      if counter >= vec.Len() {
        r := None;
        return;
      }
      var value := match vec.storage
        case Stack(buf, _) => buf[counter]
        case Heap(v, _) => v[counter];
      counter := counter + 1;
      r := Some(value);
    }

    /** `size_hint()`: the exact number of elements still to come, as both bounds. */
    function SizeHint(): (r: (nat, Option<nat>))
      reads this, vec, vec.Footprint()
      requires Valid()
      ensures r.0 == |Remaining()| && r.1 == Some(r.0)
    {
      var remaining := vec.Len() - counter;
      (remaining, Some(remaining))
    }

    /** `ExactSizeIterator::len` as src/main.rs writes it: the length of the whole vector, yielded elements included. */
    function LenAsWritten(): (r: nat)
      reads this, vec, vec.Footprint()
      requires Valid()
      ensures r == counter + |Remaining()|
    {
      vec.Len()
    }

    /** `ExactSizeIterator::len` as the trait requires it: the lower bound of `size_hint`. */
    function Len(): (r: nat)
      reads this, vec, vec.Footprint()
      requires Valid()
      ensures r == |Remaining()|
      ensures r == vec.Len() - counter
    {
      SizeHint().0
    }
  }

  /** Once an element has been yielded, the written `len` overstates what is left. */
  lemma LenAsWrittenOverstates<T(0)>(it: StackVecIter<T>)
    requires it.Valid() && it.counter > 0
    ensures it.LenAsWritten() == it.Len() + it.counter
    ensures it.LenAsWritten() != it.SizeHint().0
  {
  }
}
