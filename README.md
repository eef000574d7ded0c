# LocalStorageVec in Dafny

A model of `LocalStorageVec<T, N>`, a small vector with two storages. Its
elements live either inline, in a fixed array `buf: [T; N]` whose first `len`
slots are live ("Stack"), or in a `Vec<T>` ("Heap"). When a push finds the
inline array full, the vector is promoted: the elements move into a new Vec,
the value is appended, and the vector becomes heap-backed. It never goes back
to inline storage, even after it has been popped to empty.

The project has four modules:

- `LocalStorageModel` (`model.dfy`) is the behaviour stated on values.
  `Lsv<T> = Stack(live) | Heap(elems)` records which storage is active and
  which elements are live. `push`, `pop`, `extend`, `insert`, `remove` and the
  two `From` conversions are functions on it. Lemmas relate them: push/pop
  and insert/remove round trips, promotion is permanent, and extend composes.
  The module also holds `push` exactly as `src/main.rs` writes it, for the
  Findings below.
- `LocalStorage` (`local_storage.dfy`) is the data structure itself. The class
  `LocalStorageVec` has one field, `storage: Storage<T>`, which is
  `Stack(buf: array<T>, len)` or `Heap(v: seq<T>, cap)`. Its methods update
  that field in place, as the Rust methods assign through `&mut self`. Each
  method is proved against the value model through `Abstract()`. The class
  `StackVecIter` is the owned iterator: the vector plus a `counter` that
  `Next` advances.
- `Scenarios` (`scenarios.dfy`) replays what the repository's tests pin down.
  It does this as lemmas on the model, and as client methods that use the
  class only through its contracts.
- `Options` (`options.dfy`) is Rust's `Option`.

`src/main.rs` and `src/lib.rs` are two drafts of the same type. `src/lib.rs`
is a skeleton whose bodies are mostly `todo!()`. The model follows the
intended behaviour of both drafts, with these choices:

- The in-place push is guarded by `len < N`, as `src/lib.rs:91` writes it, not
  by `len < 128` (see Findings).
- `is_empty` is a `bool` meaning `len() == 0`. `src/lib.rs:35` declares it to
  return `usize`.
- Two assertions in the `src/lib.rs` tests contradict the code. The model does
  not encode either of them:
  - `src/lib.rs:76` expects length 4 for a Vec holding two elements. The model
    gives length 2 and capacity 42, as shown in `Scenarios.LenCapacityPush`.
  - `src/lib.rs:278` expects `lsv[0] == 1` when `buf[0]` is 2. The model gives
    2.
- Promotion moves every slot of `buf` into the Vec, exactly as both drafts
  write it. This happens only when `len == N`, so every slot moved is live.
- `std::mem::take` appears in the promotion loop (`src/lib.rs:97-101`) and,
  following its hint, in `pop`. It is modelled as overwriting the slot with an
  arbitrary value of `T`, which stands for `T::default()`. `src/main.rs`'s
  `pop` leaves the slot alone. Either way dead slots are never observed.
- `insert`, `remove` and `with_capacity` are `todo!()` stubs.
  - `insert` and `remove` follow `Vec::insert` and `Vec::remove`: elements
    shift and order is preserved. An index out of range panics in Rust; in the
    model it is a precondition.
  - `with_capacity` promises only what its doc comment says: no elements, and
    room for `capacity` of them. Its body stays inline when the request fits
    and goes to a Vec otherwise.

## Model

| member | source | states |
|---|---|---|
| LocalStorageModel.New | src/main.rs:10-15 | `new()` is inline storage with no live elements |
| LocalStorageModel.Push | src/lib.rs:89-111 | push appends `x` to the elements. The result is inline exactly when the input was inline with `len < N`, and the inline bound `len <= N` is kept |
| LocalStorageModel.Pop | src/main.rs:33-43 | pop on no elements returns `None` and changes nothing. Otherwise it returns the last element and drops it. The storage variant never changes |
| LocalStorageModel.Extend | src/lib.rs:151-157 | extend leaves the old elements followed by the items. It is inline exactly when the input was inline and everything fits in `N` |
| LocalStorageModel.Insert | src/lib.rs:285-287 | insert puts `x` at position `i`. Elements before `i` are unchanged and those from `i` on move one place right. It promotes exactly when inline storage is full |
| LocalStorageModel.Remove | src/lib.rs:289-291 | remove returns element `i`. Elements before it are unchanged and those after it move one place left. The variant is kept |
| LocalStorageModel.FromArray | src/main.rs:59-75 | an array of length `N'` becomes inline storage exactly when `N' <= M`, with the array as its elements |
| LocalStorageModel.FromVec | src/main.rs:53-57 | a Vec always becomes heap storage with the same elements |
| LocalStorageModel.PushThenPop | src/main.rs:17-43 | `pop` after `push(x)` returns `Some(x)` and restores the elements. Without a promotion it restores the whole vector |
| LocalStorageModel.HeapIsPermanent | src/main.rs:17-43 | push, pop, extend, insert and remove on heap storage all leave heap storage |
| LocalStorageModel.PopTimesStack | src/main.rs:33-39 | `k` pops of inline storage with at least `k` elements drop its last `k` elements and keep it inline |
| LocalStorageModel.PopKeepsValid | src/main.rs:33-43 | pop keeps the inline bound `len <= N` |
| LocalStorageModel.RemoveKeepsValid | src/lib.rs:289-291 | remove keeps the inline bound `len <= N` |
| LocalStorageModel.PopToEmptyStaysHeap | src/main.rs:221-231 | popping heap storage any number of times ends in an empty heap, never inline storage |
| LocalStorageModel.ExtendSnoc | src/lib.rs:151-157 | extending by `items + [x]` is extending by `items` and then pushing `x` |
| LocalStorageModel.ExtendAppend | src/lib.rs:151-157 | extending by `xs + ys` is extending by `xs` and then by `ys` |
| LocalStorageModel.InsertThenRemove | src/lib.rs:284-292 | `remove(i)` after `insert(i, x)` returns `x` and restores the elements. Without a promotion it restores the whole vector |
| LocalStorageModel.PushesFromNew | src/main.rs:200-210 | pushing `k` items onto `new()` gives exactly those items. The result is inline exactly when `k <= N` |
| LocalStorageModel.PushAsWritten | src/main.rs:17-28 | push exactly as written with the guard `len < 128`. It panics (`None`) exactly when `len < 128` and `len == N`, and the promotion branch copies all `N` slots |
| LocalStorageModel.PushAsWrittenAgreesAt128 | src/main.rs:200-210 | with `N = 128`, the capacity the tests use, the written push agrees with the corrected one for every `len` |
| LocalStorageModel.PushAsWrittenPanicsWhenFull | src/main.rs:19-21 | with `N < 128`, a push onto full inline storage panics where it should promote |
| LocalStorageModel.PushAsWrittenCopiesDeadSlots | src/main.rs:23-27 | with `N > 128`, the 129th push promotes to `N + 1` elements where the corrected push stays inline with 129 |
| LocalStorage.LocalStorageVec.constructor | src/main.rs:10-15 | `new()` gives a fresh inline array of `N` slots with `len == 0`, so there are no elements |
| LocalStorage.LocalStorageVec.WithCapacity | src/lib.rs:19-23 | `with_capacity(c)` gives no elements and a capacity of at least `c` |
| LocalStorage.LocalStorageVec.InStack | src/lib.rs:5-9 | the literal `Stack { buf, len }` gives inline capacity `|buf|` and elements `buf[..len]` |
| LocalStorage.LocalStorageVec.FromVec | src/main.rs:53-57 | `From<Vec>` takes the Vec over unchanged, length and capacity included, as heap storage |
| LocalStorage.LocalStorageVec.FromArray | src/main.rs:59-75 | `From<[T; N']>` gives inline storage holding the array when `N' <= M`, and heap storage holding it otherwise |
| LocalStorage.LocalStorageVec.AsRef | src/main.rs:77-84 | the slice view is `buf[..len]` inline and the whole Vec on the heap |
| LocalStorage.LocalStorageVec.Len | src/main.rs:45-50 | `len()` is always the length of the slice view |
| LocalStorage.LocalStorageVec.Capacity | src/lib.rs:43-45 | `capacity()` is `N` inline and the Vec's capacity on the heap, and never less than `len()` |
| LocalStorage.LocalStorageVec.IsEmpty | src/lib.rs:35-37 | `is_empty()` holds exactly when the slice view is empty, in both variants |
| LocalStorage.LocalStorageVec.Index | src/main.rs:261-271 | `index(i)` with `i < len()` is `buf[i]` inline and `v[i]` on the heap |
| LocalStorage.LocalStorageVec.IndexTo | src/main.rs:257 | `index(..end)` with `end <= len()` is the first `end` elements |
| LocalStorage.LocalStorageVec.IndexRange | src/main.rs:259 | `index(start..end)` is the elements `start` to `end - 1` |
| LocalStorage.LocalStorageVec.Push | src/main.rs:17-31 | push matches the model's push. With room inline it writes into the same array. A promotion gives a Vec of exactly the requested capacity `N + 1`. On the heap the capacity is kept while there is room |
| LocalStorage.LocalStorageVec.Pop | src/main.rs:33-43 | pop matches the model's pop in both the result and the new state. The variant, and the heap capacity, are kept |
| LocalStorage.LocalStorageVec.Extend | src/lib.rs:151-157 | the loop of pushes matches the model's extend |
| LocalStorage.LocalStorageVec.Insert | src/lib.rs:285-287 | insert matches the model's insert. It shifts within the array when there is room |
| LocalStorage.LocalStorageVec.Remove | src/lib.rs:289-291 | remove matches the model's remove in both the result and the new state |
| LocalStorage.LocalStorageVec.SetAt | src/main.rs:86-93 | a write to element `i` through the mutable slice view changes exactly that element. The variant and the capacity are kept |
| LocalStorage.LocalStorageVec.IntoIter | src/main.rs:143-154 | `into_iter()` gives an iterator whose remaining elements are the whole slice view |
| LocalStorage.StackVecIter.Next | src/main.rs:164-174 | `next()` yields the first remaining element and drops it from what remains. Once nothing remains it returns `None` and changes nothing |
| LocalStorage.StackVecIter.SizeHint | src/main.rs:176-179 | `size_hint()` is `(k, Some(k))` with `k` the number of remaining elements |
| LocalStorage.StackVecIter.LenAsWritten | src/main.rs:183-185 | the written `ExactSizeIterator::len` counts the yielded elements as well as the remaining ones |
| LocalStorage.StackVecIter.Len | src/main.rs:182-186 | the corrected `len` is the number of remaining elements, which is what `size_hint` reports |
| LocalStorage.LenAsWrittenOverstates | src/main.rs:183-185 | after at least one `next()`, the written `len` exceeds `size_hint` by the number of elements yielded |
| Scenarios.PushScenario | src/lib.rs:130-146 | from inline `[1, 2]` with `N = 4`, pushing 3 and 4 stays inline, and pushing 5 promotes to `[1, 2, 3, 4, 5]` |
| Scenarios.ExtendScenario | src/lib.rs:163-179 | `extend([3, 4])` from `[1, 2]` fills the inline array, and `extend(5..6)` then promotes |
| Scenarios.ItPushes | src/main.rs:200-210 | with `N = 128`, 128 pushes onto `new()` stay inline, and 256 give heap storage of length 256 |
| Scenarios.ItPopsInline | src/main.rs:215-219 | 128 values into capacity 128 give inline storage holding them. After 128 pops the storage is inline and empty, and one more pop returns `None` |
| Scenarios.ItPops | src/main.rs:221-231 | 256 values into capacity 128 give heap storage. Popping yields the last value first. From an array or from a Vec, the storage stays on the heap down to empty, and further pops change nothing |
| Scenarios.Collect | src/main.rs:161-174 | draining an iterator with `next()` gathers exactly the elements it had left, in order, and leaves nothing remaining |
| Scenarios.Drain | src/lib.rs:227-229 | `into_iter().collect()` yields exactly the slice view, in order, and a further `next()` returns `None` |
| Scenarios.PopAfterPromotion | src/lib.rs:89-121 | with `N = 4`, pushing 1 to 4 stays inline and pushing 5 promotes. Popping then returns 5 and stays on the heap |

## Left out

- `main` and its `dbg!` output (`src/main.rs:188-192`) are a demonstration entry point.
- The commented-out `Index`/`IndexMut` impls and the `Indexer` marker trait are left out. The generic `Index` impl is modelled as three reads through the slice view: a point, `..end`, and `start..end`.
- `Vec`'s growth policy and allocation failure are left out. The model gives every newly created Vec exactly the capacity the source asks for: `len + 1` from `Vec::with_capacity` on a promotion (`src/main.rs:24`, `src/lib.rs:95`), and the array's length from `to_vec` in `From<[T; N']>` (`src/main.rs:71`). Rust promises only at least that much. When a push onto a full heap Vec reallocates, `GrownCapacity` stands in for the growth policy, and only `cap >= length` is promised. While there is room, `cap` is unchanged.
- LocalStorage.LocalStorageVec.WithCapacity: the contract promises only what the doc comment says, not which storage results.
- Integer widths are left out: `len` and the counter are unbounded `nat`, where Rust uses `usize`, which cannot overflow for an addressable vector.
- The derived `Debug`, `Clone`, `PartialEq` and `Eq` impls are left out, along with `Default` (it is `new`).
- `sort` (`src/lib.rs:263`) is left out, and so is mutable aliasing through `as_mut`/`DerefMut`. The model keeps only one fact about them: a write to slot `i` of the view updates element `i` (`SetAt`).
- `extend` takes a finite sequence of items. An unbounded iterator would never return, and the model states nothing about the source iterator or a size hint.
- The `IntoIter` enum of `src/lib.rs:189-212` is `todo!()`. `StackVecIter` from `src/main.rs` models the owned iterator. Both yield the live elements in order.
- Ownership is left out. `into_iter` moves the vector into the iterator in Rust. In the model the iterator holds a reference, and nothing but the iterator's `Valid()` precondition keeps other code from changing the vector meanwhile.
- `<[T; M]>::try_from` appears in `From<[T; N']>`. It is modelled only as the case split between `N' == M` and `N' < M`.
- `clear` and a conversion from an arbitrary iterable appear in neither source file, so neither is modelled.

## Findings

| source | as written | input that shows it | evidently intended | confidence | as-written member | corrected member |
|---|---|---|---|---|---|---|
| src/main.rs:19 | the in-place push is guarded by `*len < 128` | `N = 4` with `len = 4`: the push writes `buf[4]` and panics (`PushAsWrittenPanicsWhenFull`). `N = 200` with `len = 128`: the push promotes to 201 elements, 72 of them dead slots (`PushAsWrittenCopiesDeadSlots`) | guard `*len < N`, as at src/lib.rs:91 | not executed | LocalStorageModel.PushAsWritten | LocalStorageModel.Push |
| src/main.rs:183-185 | `ExactSizeIterator::len` returns `self.vec.len()` | a vector `[0]` after one `next()`: `len()` is 1 while `size_hint()` is `(0, Some(0))` (`LenAsWrittenOverstates`) | the remaining count `self.vec.len() - self.counter`, matching `size_hint` | not executed | LocalStorage.StackVecIter.LenAsWritten | LocalStorage.StackVecIter.Len |
