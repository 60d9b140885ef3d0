/**
 A fixed-capacity circular buffer with overwrite-oldest-on-full semantics
 (`CircBuffer<T, CAP>` in src/cb.rs).

 The buffer is a value: every operation is a pure function from the old
 buffer to the new one (and, where the source returns something, a pair).
 The physical store is a sequence that grows until it holds `cap` elements
 and is then overwritten in place; the two logical counters only ever grow,
 and logical position `i` lives in physical slot `i % cap`. Counters are
 unbounded naturals, so the source's `usize` wrap-around is not modelled.
 */
module CircBuf {
  import Windows

  datatype Option<+T> = None | Some(value: T)

  /** `cap` is the source's const generic `CAP`; `store` the backing `ArrayVec`;
      `rIdx`/`wIdx` the logical read and write counters. */
  datatype CircBuffer<T> = CircBuffer(cap: nat, store: seq<T>, rIdx: nat, wIdx: nat)

  function Min(a: nat, b: nat): nat
  {
    if a <= b then a else b
  }

  /** The representation invariant: nothing is read before it is written, at
      most `cap` elements are queued, and the store has grown to exactly
      `min(wIdx, cap)` elements (grow first, then overwrite in place). */
  predicate Valid<T>(b: CircBuffer<T>)
  {
    && b.rIdx <= b.wIdx <= b.rIdx + b.cap
    && |b.store| == Min(b.wIdx, b.cap)
  }

  /** Every logical position between the counters maps to a filled slot. */
  lemma SlotInStore<T>(b: CircBuffer<T>, i: nat)
    requires Valid(b) && b.rIdx <= i < b.wIdx
    ensures b.cap > 0 && i % b.cap < |b.store|
  {
    if |b.store| < b.cap {
      assert i < b.cap;
    }
  }

  lemma MulAtLeast(a: int, c: int)
    requires a >= 1 && c > 0
    ensures a * c >= c
  {
  }

  /** Euclidean division is unique: the remainder is fixed by any split of `n`. */
  lemma ModUnique(n: int, q: int, m: int, cap: int)
    requires cap > 0 && 0 <= m < cap && n == q * cap + m
    ensures n % cap == m
  {
    var q0, m0 := n / cap, n % cap;
    assert n == q0 * cap + m0;
    var d := q - q0;
    assert q * cap == q0 * cap + d * cap;
    assert d * cap == m0 - m;
    if d >= 1 {
      MulAtLeast(d, cap);
    }
  }

  /** Two distinct logical positions less than `cap` apart use distinct slots. */
  lemma DistinctSlots(i: nat, j: nat, cap: nat)
    requires i < j < i + cap
    ensures i % cap != j % cap
  {
    var q, m := i / cap, i % cap;
    if m + (j - i) < cap {
      ModUnique(j, q, m + (j - i), cap);
    } else {
      assert (q + 1) * cap == q * cap + cap;
      ModUnique(j, q + 1, m + (j - i) - cap, cap);
    }
  }

  /** The abstraction function: the queued elements, oldest first — the
      element at each logical position from `rIdx` up to `wIdx`. */
  ghost function Contents<T>(b: CircBuffer<T>): (q: seq<T>)
    requires Valid(b)
    ensures |q| == b.wIdx - b.rIdx
    decreases b.wIdx - b.rIdx
  {
    if b.rIdx == b.wIdx then []
    else
      SlotInStore(b, b.rIdx);
      [b.store[b.rIdx % b.cap]] + Contents(b.(rIdx := b.rIdx + 1))
  }

  /** The queued element of logical position `pos` lives in slot `pos % cap`. */
  lemma {:induction false} ContentsAt<T>(b: CircBuffer<T>, pos: nat)
    requires Valid(b) && b.rIdx <= pos < b.wIdx
    ensures b.cap > 0 && pos % b.cap < |b.store|
    ensures Contents(b)[pos - b.rIdx] == b.store[pos % b.cap]
    decreases pos - b.rIdx
  {
    SlotInStore(b, pos);
    if b.rIdx < pos {
      ContentsAt(b.(rIdx := b.rIdx + 1), pos);
    }
  }

  /** `CircBuffer::new`: an empty buffer of capacity `cap`. */
  function New<T>(cap: nat): (b: CircBuffer<T>)
    ensures Valid(b) && b.cap == cap
    ensures b.store == [] && b.rIdx == b.wIdx == 0
  {
    CircBuffer(cap, [], 0, 0)
  }

  /** `CircBuffer::capacity`: the fixed `CAP` the buffer was created with. */
  function Capacity<T>(b: CircBuffer<T>): (c: nat)
    ensures c == b.cap
  {
    b.cap
  }

  /** `CircBuffer::len`: the number of queued elements, never above capacity. */
  function Len<T>(b: CircBuffer<T>): (n: nat)
    requires Valid(b)
    ensures n <= Capacity(b)
  {
    b.wIdx - b.rIdx
  }

  /** `len` counts exactly the queued elements. */
  lemma LenCountsContents<T>(b: CircBuffer<T>)
    requires Valid(b)
    ensures Len(b) == |Contents(b)|
  {
  }

  /** `CircBuffer::is_empty`. */
  function IsEmpty<T>(b: CircBuffer<T>): (e: bool)
    requires Valid(b)
    ensures e <==> Contents(b) == []
  {
    Len(b) == 0
  }

  /** `CircBuffer::is_full`. */
  function IsFull<T>(b: CircBuffer<T>): (f: bool)
    requires Valid(b)
    ensures f <==> |Contents(b)| == b.cap
  {
    Len(b) == Capacity(b)
  }

  /** The private `read`: the element at the read counter's slot, the head. */
  function Read<T>(b: CircBuffer<T>): (x: T)
    requires Valid(b) && !IsEmpty(b)
    ensures x == Contents(b)[0]
  {
    ContentsAt(b, b.rIdx);
    b.store[b.rIdx % b.cap]
  }

  /** The private `read_at`: the element `offset` places after the head. The
      source indexes the store unchecked; an offset at or beyond `len` reads a
      stale slot or panics, so the model demands `offset < len`. */
  function ReadAt<T>(b: CircBuffer<T>, offset: nat): (x: T)
    requires Valid(b) && offset < Len(b)
    ensures x == Contents(b)[offset]
  {
    ContentsAt(b, b.rIdx + offset);
    b.store[(b.rIdx + offset) % b.cap]
  }

  /** The private `write`: the store after writing `v` for logical position
      `wIdx` — appended while the store is still growing, overwritten in place
      once it holds `cap` elements. Only that one slot changes. */
  function Write<T>(b: CircBuffer<T>, v: T): (s: seq<T>)
    requires b.cap > 0 && |b.store| == Min(b.wIdx, b.cap)
    ensures |s| == Min(b.wIdx + 1, b.cap)
    ensures b.wIdx % b.cap < |s| && s[b.wIdx % b.cap] == v
    ensures forall j :: 0 <= j < |b.store| && j != b.wIdx % b.cap ==> s[j] == b.store[j]
  {
    if |b.store| == b.cap then
      b.store[b.wIdx % b.cap := v]
    else
      ModUnique(b.wIdx, 0, b.wIdx, b.cap);
      b.store + [v]
  }

  /** `CircBuffer::push`: append `v`; when full, first drop the oldest element.
      `push` on a zero-capacity buffer divides by zero in the source, hence
      `cap > 0`. */
  function Push<T>(b: CircBuffer<T>, v: T): (b': CircBuffer<T>)
    requires Valid(b) && b.cap > 0
    ensures Valid(b') && b'.cap == b.cap
    ensures !IsFull(b) ==> Contents(b') == Contents(b) + [v] && Len(b') == Len(b) + 1
    ensures IsFull(b) ==> Contents(b') == Contents(b)[1..] + [v] && Len(b') == Capacity(b)
  {
    var r := if IsFull(b) then b.rIdx + 1 else b.rIdx;
    var b' := CircBuffer(b.cap, Write(b, v), r, b.wIdx + 1);
    PushContents(b, v, b');
    b'
  }

  /** The slot-level argument behind `Push`'s contract. */
  lemma PushContents<T>(b: CircBuffer<T>, v: T, b': CircBuffer<T>)
    requires Valid(b) && b.cap > 0
    requires b'.cap == b.cap && b'.store == Write(b, v) && b'.wIdx == b.wIdx + 1
    requires b'.rIdx == if IsFull(b) then b.rIdx + 1 else b.rIdx
    ensures Valid(b')
    ensures Contents(b') == (if IsFull(b) then Contents(b)[1..] else Contents(b)) + [v]
  {
    if IsFull(b) {
      PushContentsFull(b, v, b');
    } else {
      PushContentsRoom(b, v, b');
    }
  }

  /** `PushContents` when the buffer was full: the oldest element is gone. */
  lemma PushContentsFull<T>(b: CircBuffer<T>, v: T, b': CircBuffer<T>)
    requires Valid(b) && b.cap > 0 && Valid(b') && IsFull(b)
    requires b'.cap == b.cap && b'.store == Write(b, v) && b'.wIdx == b.wIdx + 1
    requires b'.rIdx == b.rIdx + 1
    ensures Contents(b') == Contents(b)[1..] + [v]
  {
    var prev := Contents(b);
    var c := Contents(b');
    forall k | 0 <= k < |c|
      ensures c[k] == (prev[1..] + [v])[k]
    {
      PushKeepsPosition(b, v, b', b'.rIdx + k);
    }
  }

  /** `PushContents` when the buffer had room: nothing is dropped. */
  lemma PushContentsRoom<T>(b: CircBuffer<T>, v: T, b': CircBuffer<T>)
    requires Valid(b) && b.cap > 0 && Valid(b') && !IsFull(b)
    requires b'.cap == b.cap && b'.store == Write(b, v) && b'.wIdx == b.wIdx + 1
    requires b'.rIdx == b.rIdx
    ensures Contents(b') == Contents(b) + [v]
  {
    var prev := Contents(b);
    var c := Contents(b');
    forall k | 0 <= k < |c|
      ensures c[k] == (prev + [v])[k]
    {
      PushKeepsPosition(b, v, b', b'.rIdx + k);
    }
  }

  /** After a push, each logical position still queued holds what it held
      before, and position `wIdx` holds the new element. */
  lemma PushKeepsPosition<T>(b: CircBuffer<T>, v: T, b': CircBuffer<T>, pos: nat)
    requires Valid(b) && b.cap > 0 && Valid(b')
    requires b'.cap == b.cap && b'.store == Write(b, v) && b'.wIdx == b.wIdx + 1
    requires b.rIdx <= b'.rIdx <= pos < b'.wIdx
    ensures pos < b.wIdx ==> Contents(b')[pos - b'.rIdx] == Contents(b)[pos - b.rIdx]
    ensures pos == b.wIdx ==> Contents(b')[pos - b'.rIdx] == v
  {
    ContentsAt(b', pos);
    if pos < b.wIdx {
      DistinctSlots(pos, b.wIdx, b.cap);
      ContentsAt(b, pos);
    }
  }

  /** `CircBuffer::pull`: remove and return the head, or `None` on an empty
      buffer, which is then returned unchanged. The store is never touched. */
  function Pull<T>(b: CircBuffer<T>): (res: (CircBuffer<T>, Option<T>))
    requires Valid(b)
    ensures Valid(res.0) && res.0.cap == b.cap && res.0.store == b.store && res.0.wIdx == b.wIdx
    ensures Contents(b) == [] ==> res == (b, None)
    ensures Contents(b) != [] ==> res.1 == Some(Contents(b)[0]) && Contents(res.0) == Contents(b)[1..]
  {
    if !IsEmpty(b) then
      var x := Read(b);
      var b' := b.(rIdx := b.rIdx + 1);
      assert Contents(b') == Contents(b)[1..];
      (b', Some(x))
    else
      (b, None)
  }

  /** `CircBuffer::get`: the element `idx` places after the head, if there is one. */
  function Get<T>(b: CircBuffer<T>, idx: nat): (r: Option<T>)
    requires Valid(b)
    ensures r.Some? <==> idx < |Contents(b)|
    ensures r.Some? ==> r.value == Contents(b)[idx]
  {
    if !IsEmpty(b) && idx < Len(b) then Some(ReadAt(b, idx)) else None
  }

  /** `CircBuffer::peek`: the head, if any; the same as `get(0)`. */
  function Peek<T>(b: CircBuffer<T>): (r: Option<T>)
    requires Valid(b)
    ensures r == Get(b, 0)
    ensures r == if Contents(b) == [] then None else Some(Contents(b)[0])
  {
    if !IsEmpty(b) then Some(Read(b)) else None
  }

  /** `CircBuffer::clear`: back to the initial state of the same capacity. */
  function Clear<T>(b: CircBuffer<T>): (b': CircBuffer<T>)
    ensures b' == New(b.cap)
  {
    b.(store := [], rIdx := 0, wIdx := 0)
  }

  /** A sequence of pushes, first to last. */
  function PushAll<T>(b: CircBuffer<T>, xs: seq<T>): (b': CircBuffer<T>)
    requires Valid(b) && b.cap > 0
    ensures Valid(b') && b'.cap == b.cap
    decreases |xs|
  {
    if xs == [] then b else PushAll(Push(b, xs[0]), xs[1..])
  }

  /** A single push keeps the newest `cap` elements of the old contents plus `v`. */
  lemma PushIsWindow<T>(b: CircBuffer<T>, v: T)
    requires Valid(b) && b.cap > 0
    ensures Contents(Push(b, v)) == Windows.Last(Contents(b) + [v], b.cap)
  {
    if IsFull(b) {
      Windows.LastAppendFull(Contents(b), v, b.cap);
    } else {
      Windows.LastFits(Contents(b) + [v], b.cap);
    }
  }

  /** Pushes keep exactly the newest `cap` elements of the history. */
  lemma {:induction false} PushAllIsWindow<T>(b: CircBuffer<T>, xs: seq<T>)
    requires Valid(b) && b.cap > 0
    ensures Contents(PushAll(b, xs)) == Windows.Last(Contents(b) + xs, b.cap)
    decreases |xs|
  {
    if xs == [] {
        assert Contents(b) + xs == Contents(b);
    } else {
      var b1 := Push(b, xs[0]);
      PushIsWindow(b, xs[0]);
      PushAllIsWindow(b1, xs[1..]);
      Windows.LastStep(Contents(b), xs, b.cap);
    }
  }

  /** From empty, `k` pushes leave the last `min(k, cap)` pushed values in
      order; `len` is `min(k, cap)` and the buffer is full exactly when
      `k >= cap`. */
  lemma PushAllFromNew<T>(cap: nat, xs: seq<T>)
    requires cap > 0
    ensures Contents(PushAll(New(cap), xs)) == Windows.Last(xs, cap)
    ensures Len(PushAll(New(cap), xs)) == Min(|xs|, cap)
    ensures IsFull(PushAll(New(cap), xs)) <==> |xs| >= cap
    ensures |xs| <= cap ==> Contents(PushAll(New(cap), xs)) == xs
  {
    PushAllIsWindow(New<T>(cap), xs);
    assert Contents(New<T>(cap)) + xs == xs;
    Windows.LastIsSuffix(xs, cap);
  }

  /** A new buffer is empty and has the requested capacity. */
  lemma NewIsEmpty<T>(cap: nat)
    ensures Contents(New<T>(cap)) == [] && Len(New<T>(cap)) == 0
    ensures IsEmpty(New<T>(cap)) && Capacity(New<T>(cap)) == cap
  {
  }

  /** `clear` empties the buffer from any state and keeps its capacity. */
  lemma ClearEmpties<T>(b: CircBuffer<T>)
    ensures Valid(Clear(b)) && Contents(Clear(b)) == [] && Len(Clear(b)) == 0
    ensures Capacity(Clear(b)) == Capacity(b) && Clear(b).store == []
  {
  }

  /** After `clear`, pushes append to the store again before any overwrite. */
  lemma PushAfterClear<T>(b: CircBuffer<T>, v: T)
    requires b.cap > 0
    ensures Push(Clear(b), v).store == [v]
    ensures Contents(Push(Clear(b), v)) == [v]
  {
  }
}
