# CircBuffer — a verified model of a fixed-capacity ring buffer

This project models `CircBuffer<T, CAP>` from `src/cb.rs`: a FIFO queue of at
most `CAP` elements that, once full, overwrites its oldest element on `push`.
The buffer keeps a backing store that grows up to `CAP` elements and then is
written in place, a read counter `r_idx` and a write counter `w_idx`; logical
position `i` lives in slot `i % CAP`. The model also covers the three ways of
walking the buffer: by value (the buffer is its own iterator, `next` is
`pull`), draining (`CircBufferDrain`) and borrowing (`CircBufferIterator`).

The model is functional. `CircBuf.CircBuffer` is an immutable datatype with
the capacity, the store and the two counters. Each operation is a pure function
returning the new buffer, and `&mut self` becomes "old value in, new value out".
`CircBuf.Valid` is the representation invariant:

- `r_idx <= w_idx <= r_idx + CAP`;
- the store holds `min(w_idx, CAP)` elements.

The ghost function `CircBuf.Contents` maps a valid buffer to the queue it
represents: the elements at logical positions `r_idx .. w_idx - 1`, oldest
first. Every contract is stated against that sequence.

The reference model lives in `windows.dfy`. `Windows.Last(h, n)` is the newest
`n` elements of a history `h`. Any sequence of pushes is proved to leave exactly
`Last(old contents + pushed values, CAP)`. This is the "overwrite the oldest"
promise made in the doc comment of `push`.

Files:

- `windows.dfy` holds the reference model.
- `cb.dfy` holds the buffer and its private `read`, `read_at` and `write`.
- `iterators.dfy` holds the three iterators, including the borrowing `next`
  modelled as written.
- `scenarios.dfy` holds the behaviours the populated tests in `src/lib.rs`
  check (`push` and `pull`), generalised to every capacity of at least 2. It
  also holds the model's own scenarios, derived from `push`, `pull` and
  `drain` (`src/cb.rs:42-67`, `src/cb.rs:92-95`): overwrite on full, draining
  after any number of pushes, and interleaved pushes and pulls.

## Model

| member | source | states |
|---|---|---|
| CircBuf.New | src/cb.rs:14-20 | A new buffer is valid, has the requested capacity, an empty store and both counters at zero |
| CircBuf.NewIsEmpty | src/cb.rs:14-35 | A new buffer holds no elements: its contents are empty, `len` is 0, `is_empty` holds, and `capacity` is the requested `CAP` |
| CircBuf.Capacity | src/cb.rs:23-25 | `capacity` is the fixed `CAP` the buffer was created with; no operation changes it (`Push`, `Pull`, `PushAll` and `Clear` keep `cap`) |
| CircBuf.Len | src/cb.rs:28-30 | The number of queued elements never exceeds the capacity |
| CircBuf.LenCountsContents | src/cb.rs:27-30 | `len` equals the number of elements queued and ready to be read |
| CircBuf.IsEmpty | src/cb.rs:33-35 | `is_empty` holds exactly when no element is queued |
| CircBuf.IsFull | src/cb.rs:38-40 | `is_full` holds exactly when the number of queued elements equals the capacity |
| CircBuf.ContentsAt | src/cb.rs:112-114 | Logical position `p`, with `r_idx <= p < w_idx`, is stored in slot `p % CAP`. That slot lies inside the filled part of the store and holds the `(p - r_idx)`-th queued element |
| CircBuf.Read | src/cb.rs:107-109 | The private `read` on a non-empty buffer returns the oldest queued element |
| CircBuf.ReadAt | src/cb.rs:112-114 | The private `read_at(offset)`, for `offset < len`, returns the queued element `offset` places after the head |
| CircBuf.Write | src/cb.rs:117-123 | The private `write` appends while the store is growing and overwrites in place once it holds `CAP` elements. Either way the new value lands in slot `w_idx % CAP`, the store grows to `min(w_idx + 1, CAP)`, and every other slot is unchanged |
| CircBuf.Push | src/cb.rs:42-53 | `push` keeps the buffer valid with the same capacity. With room, it appends the value and `len` grows by one. When full, it drops the oldest element, appends the value, and `len` stays at the capacity |
| CircBuf.PushContents | src/cb.rs:46-53 | Moving the read counter only when full, writing the slot and then moving the write counter yields a valid buffer. Its contents are the old contents, minus the oldest element if the buffer was full, followed by the new value |
| CircBuf.PushContentsFull | src/cb.rs:47-52 | A push onto a full buffer drops the oldest element and appends the new value |
| CircBuf.PushContentsRoom | src/cb.rs:47-52 | A push onto a buffer with room keeps every element and appends the new value |
| CircBuf.PushKeepsPosition | src/cb.rs:117-123 | After a push, every logical position still queued holds the element it held before. Position `w_idx` holds the pushed value |
| CircBuf.Pull | src/cb.rs:59-67 | `pull` on an empty buffer returns `None` and leaves the buffer unchanged. Otherwise it returns the oldest element and removes it. The store and the write counter are never modified and the buffer stays valid |
| CircBuf.Get | src/cb.rs:70-76 | `get(idx)` is `Some` exactly when `idx < len`, and then holds the element `idx` places after the head |
| CircBuf.Peek | src/cb.rs:79-85 | `peek` is the same as `get(0)`: `None` on an empty buffer, otherwise the oldest element |
| CircBuf.Clear | src/cb.rs:98-102 | `clear` returns the buffer to the state of a new buffer of the same capacity |
| CircBuf.ClearEmpties | src/cb.rs:97-102 | After `clear`, from any state, the buffer is valid and empty, `len` is 0, the capacity is unchanged and the store is empty |
| CircBuf.PushAfterClear | src/cb.rs:98-123 | After `clear`, a push appends to an empty store again rather than overwriting a stale slot. The buffer then holds exactly the pushed value |
| CircBuf.PushAll | src/cb.rs:46-53 | Any sequence of pushes keeps the buffer valid with its capacity unchanged |
| CircBuf.PushIsWindow | src/cb.rs:42-53 | One push leaves the newest `CAP` elements of the old contents followed by the pushed value |
| CircBuf.PushAllIsWindow | src/cb.rs:42-53 | Any sequence of pushes leaves the newest `CAP` elements of the old contents followed by the pushed values: overwrite-oldest, for any number of pushes |
| CircBuf.PushAllFromNew | src/cb.rs:42-53 | After `k` pushes from new, the buffer holds the last `min(k, CAP)` values pushed, in order. `len` is `min(k, CAP)`, and the buffer is full exactly when `k >= CAP` |
| CircIter.Next | src/cb.rs:127-133 | By-value `next` steps exactly as `pull`: `Some` exactly when the buffer is non-empty, yielding and removing the oldest element; on an empty buffer `None` with the buffer unchanged. The store and write counter are never modified |
| CircIter.Consume | src/cb.rs:127-133 | Running the by-value iterator to exhaustion yields exactly the queued elements in FIFO order. It leaves an empty buffer whose next `next` is `None` |
| CircIter.DrainNew | src/cb.rs:92-95 | `drain` produces a drain over the same queued elements |
| CircIter.DrainNext | src/cb.rs:183-185 | One drain step yields `None` on an empty buffer and changes nothing. Otherwise it yields the oldest element and removes it from the buffer |
| CircIter.DrainSizeHint | src/cb.rs:187-189 | The drain's size hint is exact: both bounds equal the number of elements still to come |
| CircIter.DrainSizeHintShrinks | src/cb.rs:183-189 | Each element the drain yields lowers its size hint by one |
| CircIter.DrainAll | src/cb.rs:180-190 | Draining to exhaustion, as a loop of `next` calls, yields exactly the queued elements in FIFO order. It leaves the buffer valid, empty and of the same capacity, and agrees with `DrainCollect` on both the items and the final buffer: the read counter has caught up with the write counter, and the store and write counter are untouched |
| CircIter.DrainCollect | src/cb.rs:180-190 | The drain's complete output is the queued elements in FIFO order, and the buffer ends empty with its read counter at the write counter and its store untouched |
| CircIter.GetAgreesWithDrain | src/cb.rs:69-76 | `get(i)`, for `i < len`, is the element the `i`-th removal would yield |
| CircIter.IterNew | src/cb.rs:143-149 | A new borrowing iterator starts at offset 0, with `len` equal to the number of queued elements |
| CircIter.IterNext | src/cb.rs:155-162 | Corrected borrowing `next`: while `idx < len` it yields the element at offset `idx` and advances by one. At the end it yields `None` and stays put |
| CircIter.IterCollect | src/cb.rs:152-162 | The elements a borrowing iterator still yields are the queued elements from its current offset on, in order |
| CircIter.IterYieldsContents | src/cb.rs:87-90 | `iter()` yields `get(0), …, get(len - 1)`: every queued element, oldest first, without consuming any |
| CircIter.IterSizeHint | src/cb.rs:164-166 | The borrowing iterator's size hint, as written, reports the buffer's whole length in both bounds |
| CircIter.IterSizeHintIsConstant | src/cb.rs:164-166 | The as-written size hint does not change when the iterator advances |
| CircIter.IterSizeHintOverstates | src/cb.rs:164-166 | After at least one `next`, the as-written size hint exceeds the number of elements still to come |
| CircIter.IterRemainingHint | src/cb.rs:164-166 | Corrected size hint: both bounds equal the number of elements the iterator still yields |
| CircIter.IterNextAsWritten | src/cb.rs:155-162 | Borrowing `next` as written ends exactly when `idx >= len`. Before the last step it yields the element at offset `idx + 1`, one past the intended one. On the last step, if the store has not reached capacity, it indexes past the store's fill and panics. If the store has reached capacity, it reads slot `(r_idx + len) % CAP` and yields whatever is there |
| CircIter.AsWrittenSlot | src/cb.rs:155-162 | The slot the as-written `next` reads is the slot of offset `idx + 1`. On the last step of a store that is not yet at capacity, it is the first unfilled slot |
| CircIter.AsWrittenCounterexample | src/cb.rs:155-162 | With elements `[x, y]` in a store below capacity, the as-written iterator first yields `y`, then panics. The corrected iterator yields `[x, y]` |
| CircIter.AsWrittenWrapsAround | src/cb.rs:155-162 | On a full buffer the as-written iterator's last step does not end or panic: it wraps to the head's slot and yields the oldest element a second time |
| CircIter.TwoPushesReachCounterexample | src/cb.rs:46-53 | Two pushes onto a new buffer of capacity above 2 reach that state: contents `[x, y]` in a two-element store |
| CbScenarios.PushScenario | src/lib.rs:16-26 | From new with capacity at least 2: two pushes give `len` 2. Pushing `CAP` values gives `len` equal to `CAP`, a full buffer, and the values in order |
| CbScenarios.PullScenario | src/lib.rs:29-40 | Push `t`, `f`; `len` is 2. The first `pull` yields `t`, after which `len` is 1. The second yields `f`, the third `None`, and the buffer is then empty |
| CbScenarios.OverwriteScenario | src/cb.rs:42-53 | After `CAP` pushes the buffer is full. One more push keeps it full, drops the first value, and makes the second value the head, returned by `get(0)` and by the next `pull` |
| CbScenarios.PushOntoFull | src/cb.rs:46-53 | A push onto a full buffer of capacity at least 2 keeps it full at `len == CAP`, drops the oldest element, and makes the second-oldest the head for both `get(0)` and `pull` |
| CbScenarios.PushDrainRoundTrip | src/cb.rs:92-95 | Pushing at most `CAP` values and then draining returns them in order and leaves the buffer empty |
| CbScenarios.PushDrainKeepsNewest | src/cb.rs:92-95 | After any number of pushes from new, draining returns the newest `min(k, CAP)` values pushed, in order |
| CbScenarios.DrainNewestScenario | src/cb.rs:42-53 | Pushing `0 .. n-1` into a buffer of capacity `CAP <= n` and draining yields exactly `n-CAP .. n-1`, in order |
| CbScenarios.InterleavedScenario | src/cb.rs:46-67 | On capacity `CAP >= 6`, push `1..CAP`, pull twice, push two, pull twice, push three. `len` is `CAP - 2` after each pair of pulls and `CAP` after the pushes, and the next `pull` yields 6 |

## Left out

- `src/unsafe_cb.rs` is an unfinished alternative without a working implementation; it is not part of this model.
- The `ArrayVec` backing store is modelled as a sequence with its length (`len`, `is_full`, `push`, indexing, `clear`). Its inline fixed-size array representation is left out.
- Counter wrap-around: `r_idx` and `w_idx` are unbounded naturals. The source's `usize` counters would wrap after `usize::MAX` pushes or pulls, which the source itself flags as unhandled. That overflow is not modelled.
- CircBuf.Push: requires `CAP > 0`. With `CAP = 0` the source computes `w_idx % 0` and panics. `new`, `capacity`, `len`, `is_empty`, `is_full`, `pull`, `get`, `peek` and `clear` are modelled for every capacity.
- CircBuf.ReadAt: requires `offset < len`. The source's private `read_at` indexes the store unchecked, and `get` only passes such offsets. The as-written borrowing iterator, which passes `offset == len`, is modelled separately by `CircIter.IterNextAsWritten`, which indexes the store directly.
- The borrowing iterator keeps a snapshot of the buffer, because Rust's borrow rules forbid mutating the buffer while the iterator lives. Lifetimes themselves are not modelled.
- `Clone` of elements is identity: `pull` returns the element's value.
- The by-value iterator is modelled through `next` (src/cb.rs:127-133 defines nothing else); the draining iterator through `next` and `size_hint`. The by-value iterator's default `size_hint` and the other `Iterator` adapters are default library code and are left out.
- `src/lib.rs`: its `push_and_pull`, `get_and_peek` and `iter` tests are empty. `CbScenarios.InterleavedScenario`, `CircIter.GetAgreesWithDrain` and `CircIter.IterYieldsContents` state what those names suggest.
- CbScenarios.PushScenario and CbScenarios.PullScenario are stated for every capacity of at least 2, with symbolic element values, not at the tests' literal capacity 4. The tests' cases are instances of them. The `new` test (capacity 8) is an instance of `CircBuf.NewIsEmpty`.

## Findings

| source | as written | input that shows it | evidently intended | confidence | as-written member | corrected member |
|---|---|---|---|---|---|---|
| src/cb.rs:155-162 | `CircBufferIterator::next` increments `idx` before calling `read_at(idx)`, so it reads offsets `1..len` instead of `0..len-1` | Capacity 4, push `a` then `b`, call `iter()`. The first `next` yields `b`. The second reads `store[2]`, past the store's two elements, and panics. On a full buffer the last `next` instead wraps to the head's slot and yields the oldest element twice (`CircIter.AsWrittenWrapsAround`) | Yield `get(0), …, get(len-1)`: read at `idx`, then increment | high (not executed) | CircIter.AsWrittenCounterexample | CircIter.IterYieldsContents |
| src/cb.rs:164-166 | `CircBufferIterator::size_hint` returns `obj.len()` whatever the iterator's position | Buffer holding 2 elements: after one `next`, the hint is `(2, Some(2))` while 1 element remains | Report the remaining count `len - idx` in both bounds | medium (not executed) | CircIter.IterSizeHintOverstates | CircIter.IterRemainingHint |
