/**
 The three ways of walking a `CircBuffer` (src/cb.rs): by value (the buffer is
 its own iterator), draining, and borrowing. Each `next` is a pure function
 returning the advanced cursor and the item it yields.
 */
module CircIter {
  import opened CircBuf

  // ---------------------------------------------------------------------------
  // By-value iteration: `impl Iterator for CircBuffer`

  /** `next` on the buffer itself is `pull`. */
  function Next<T>(b: CircBuffer<T>): (res: (CircBuffer<T>, Option<T>))
    requires Valid(b)
    ensures Valid(res.0) && res.0.cap == b.cap && res.0.store == b.store && res.0.wIdx == b.wIdx
    ensures res.1.Some? <==> Contents(b) != []
    ensures Contents(b) == [] ==> res == (b, None)
    ensures res.1.Some? ==> res.1.value == Contents(b)[0] && Contents(res.0) == Contents(b)[1..]
  {
    Pull(b)
  }

  /** Running the by-value iterator to exhaustion (`collect`): the queued
      elements in FIFO order, leaving an empty buffer whose next `next` is `None`. */
  function Consume<T>(b: CircBuffer<T>): (res: (CircBuffer<T>, seq<T>))
    requires Valid(b)
    ensures Valid(res.0) && res.0.cap == b.cap
    ensures res.1 == Contents(b)
    ensures Contents(res.0) == [] && Next(res.0).1 == None
    decreases |Contents(b)|
  {
    var (b', x) := Next(b);
    match x
    case None => (b', [])
    case Some(v) =>
      var (b'', rest) := Consume(b');
      (b'', [v] + rest)
  }

  // ---------------------------------------------------------------------------
  // Draining iteration: `CircBufferDrain`

  /** The drain holds the (mutably borrowed) buffer itself. */
  datatype Drain<T> = Drain(obj: CircBuffer<T>)

  /** `CircBuffer::drain` / `CircBufferDrain::new`. */
  function DrainNew<T>(b: CircBuffer<T>): (d: Drain<T>)
    requires Valid(b)
    ensures Valid(d.obj) && Contents(d.obj) == Contents(b)
  {
    Drain(b)
  }

  /** `CircBufferDrain::next`: one `pull` on the underlying buffer. */
  function DrainNext<T>(d: Drain<T>): (res: (Drain<T>, Option<T>))
    requires Valid(d.obj)
    ensures Valid(res.0.obj) && res.0.obj.cap == d.obj.cap
    ensures Contents(d.obj) == [] ==> res == (d, None)
    ensures Contents(d.obj) != [] ==>
              res.1 == Some(Contents(d.obj)[0]) && Contents(res.0.obj) == Contents(d.obj)[1..]
  {
    var (b', x) := Pull(d.obj);
    (Drain(b'), x)
  }

  /** `CircBufferDrain::size_hint`: exactly the number of elements still to come. */
  function DrainSizeHint<T>(d: Drain<T>): (h: (nat, Option<nat>))
    requires Valid(d.obj)
    ensures h.0 == |Contents(d.obj)| && h.1 == Some(h.0)
  {
    (Len(d.obj), Some(Len(d.obj)))
  }

  /** Each item the drain yields lowers its size hint by one. */
  lemma DrainSizeHintShrinks<T>(d: Drain<T>)
    requires Valid(d.obj) && Contents(d.obj) != []
    ensures DrainSizeHint(DrainNext(d).0).0 == DrainSizeHint(d).0 - 1
  {
  }

  /** Draining to exhaustion (`drain().collect()`): the queued elements in FIFO
      order. The read counter catches up with the write counter; the store,
      the write counter and the capacity are untouched. */
  method DrainAll<T>(b: CircBuffer<T>) returns (items: seq<T>, rest: CircBuffer<T>)
    requires Valid(b)
    ensures items == Contents(b)
    ensures Valid(rest) && rest == b.(rIdx := b.wIdx) && Contents(rest) == []
    ensures items == DrainCollect(DrainNew(b)).1 && rest == DrainCollect(DrainNew(b)).0.obj
  {
    var d := DrainNew(b);
    items := [];
    while true
      invariant Valid(d.obj) && d.obj == b.(rIdx := d.obj.rIdx)
      invariant items + Contents(d.obj) == Contents(b)
      decreases |Contents(d.obj)|
    {
      var step := DrainNext(d);
      if step.1.None? {
        break;
      }
      items := items + [step.1.value];
      d := step.0;
    }
    rest := d.obj;
  }

  /** The drain's output as a recursive function, for stating scenarios;
      `DrainAll` computes the same items and final buffer with a loop. */
  function DrainCollect<T>(d: Drain<T>): (res: (Drain<T>, seq<T>))
    requires Valid(d.obj)
    ensures Valid(res.0.obj) && res.0.obj.cap == d.obj.cap
    ensures res.1 == Contents(d.obj) && Contents(res.0.obj) == []
    ensures res.0.obj == d.obj.(rIdx := d.obj.wIdx)
    decreases |Contents(d.obj)|
  {
    var (d', x) := DrainNext(d);
    if x.None? then (d', [])
    else
      var (d'', rest) := DrainCollect(d');
      (d'', [x.value] + rest)
  }

  /** `get(i)` is the value the `i`-th removal would yield. */
  lemma GetAgreesWithDrain<T>(b: CircBuffer<T>, i: nat)
    requires Valid(b) && i < Len(b)
    ensures Get(b, i) == Some(DrainCollect(DrainNew(b)).1[i])
  {
  }

  // ---------------------------------------------------------------------------
  // Borrowing iteration: `CircBufferIterator`

  /** The iterator holds a shared borrow of the buffer, the next offset `idx`,
      and the length `len` snapshotted at creation. While the borrow lives the
      buffer cannot change, so the snapshot stays equal to the buffer's length. */
  datatype Iter<T> = Iter(obj: CircBuffer<T>, idx: nat, len: nat)

  predicate IterValid<T>(it: Iter<T>)
  {
    Valid(it.obj) && it.len == Len(it.obj) && it.idx <= it.len
  }

  /** `CircBuffer::iter` / `CircBufferIterator::new`. */
  function IterNew<T>(b: CircBuffer<T>): (it: Iter<T>)
    requires Valid(b)
    ensures IterValid(it) && it.obj == b && it.idx == 0 && it.len == |Contents(b)|
  {
    Iter(b, 0, Len(b))
  }

  /** `CircBufferIterator::next` as its doc comment intends (src/cb.rs:87):
      read the element at `idx`, then advance. The source increments `idx`
      first and reads at the new offset; see `IterNextAsWritten`. */
  function IterNext<T>(it: Iter<T>): (res: (Iter<T>, Option<T>))
    requires IterValid(it)
    ensures IterValid(res.0) && res.0.obj == it.obj && res.0.len == it.len
    ensures it.idx < it.len ==> res.0.idx == it.idx + 1 && res.1 == Some(Contents(it.obj)[it.idx])
    ensures it.idx >= it.len ==> res == (it, None)
  {
    if it.idx < it.len then
      (it.(idx := it.idx + 1), Some(ReadAt(it.obj, it.idx)))
    else
      (it, None)
  }

  /** The items still to come from a borrowing iterator, then `None`. */
  function IterCollect<T>(it: Iter<T>): (items: seq<T>)
    requires IterValid(it)
    ensures items == Contents(it.obj)[it.idx..]
    decreases it.len - it.idx
  {
    var (it', x) := IterNext(it);
    if x.None? then [] else [x.value] + IterCollect(it')
  }

  /** A fresh borrowing iterator yields `get(0), …, get(len - 1)` and leaves
      the buffer as it was. */
  lemma IterYieldsContents<T>(b: CircBuffer<T>)
    requires Valid(b)
    ensures IterCollect(IterNew(b)) == Contents(b)
    ensures forall i :: 0 <= i < Len(b) ==> Get(b, i) == Some(IterCollect(IterNew(b))[i])
  {
  }

  /** `CircBufferIterator::size_hint`: the buffer's whole length, not the
      number of items still to come. */
  function IterSizeHint<T>(it: Iter<T>): (h: (nat, Option<nat>))
    requires IterValid(it)
    ensures h.0 == |Contents(it.obj)| && h.1 == Some(h.0)
  {
    (Len(it.obj), Some(Len(it.obj)))
  }

  /** The borrowing iterator's size hint does not shrink as it advances. */
  lemma IterSizeHintIsConstant<T>(it: Iter<T>)
    requires IterValid(it)
    ensures IterSizeHint(IterNext(it).0) == IterSizeHint(it)
  {
  }

  /** Once the iterator has advanced, the source's size hint claims more items
      than are left. */
  lemma IterSizeHintOverstates<T>(it: Iter<T>)
    requires IterValid(it) && it.idx > 0
    ensures IterSizeHint(it).0 > |IterCollect(it)|
  {
  }

  /** The size hint the `Iterator` protocol asks for: the number of items
      still to come, exactly. */
  function IterRemainingHint<T>(it: Iter<T>): (h: (nat, Option<nat>))
    requires IterValid(it)
    ensures h.0 == |IterCollect(it)| && h.1 == Some(h.0)
  {
    (it.len - it.idx, Some(it.len - it.idx))
  }

  // ---------------------------------------------------------------------------
  // The source's borrowing `next`, as written

  /** The outcome of one step of the as-written `next`: an item, the end, or
      the panic of indexing the `ArrayVec` past its fill. */
  datatype Step<T> = Yielded(next: Iter<T>, item: T) | Exhausted | IndexPanic

  /** `CircBufferIterator::next` as the source writes it: `idx` is incremented
      before `read_at(idx)`, so it reads offsets `1..len` instead of `0..len-1`.
      It cannot call `ReadAt` (offset `len` breaks its precondition); it
      indexes the store directly, as the source's `read_at` does. */
  function IterNextAsWritten<T>(it: Iter<T>): (s: Step<T>)
    requires IterValid(it)
    ensures it.idx >= it.len <==> s.Exhausted?
    ensures it.idx + 1 < it.len ==> s == Yielded(it.(idx := it.idx + 1), Contents(it.obj)[it.idx + 1])
    ensures it.idx + 1 == it.len && |it.obj.store| < it.obj.cap ==> s == IndexPanic
    ensures it.idx + 1 == it.len && |it.obj.store| == it.obj.cap ==>
              s == Yielded(it.(idx := it.len), it.obj.store[(it.obj.rIdx + it.len) % it.obj.cap])
  {
    if it.idx < it.len then
      var idx := it.idx + 1;
      var slot := (it.obj.rIdx + idx) % it.obj.cap;
      AsWrittenSlot(it);
      if slot < |it.obj.store| then
        Yielded(it.(idx := idx), it.obj.store[slot])
      else
        IndexPanic
    else
      Exhausted
  }

  /** Where the as-written `next` reads: the element after the intended one
      while that exists, and the unfilled slot `len` of a store that has not
      yet grown to capacity on the last step. */
  lemma AsWrittenSlot<T>(it: Iter<T>)
    requires IterValid(it) && it.idx < it.len
    ensures it.obj.cap > 0
    ensures var slot := (it.obj.rIdx + it.idx + 1) % it.obj.cap;
            && (it.idx + 1 < it.len ==> slot < |it.obj.store| && it.obj.store[slot] == Contents(it.obj)[it.idx + 1])
            && (it.idx + 1 == it.len && |it.obj.store| < it.obj.cap ==> slot == |it.obj.store|)
  {
    var b := it.obj;
    var pos := b.rIdx + it.idx + 1;
    if it.idx + 1 < it.len {
      ContentsAt(b, pos);
    } else if |b.store| < b.cap {
      assert pos == b.wIdx;
      ModUnique(pos, 0, pos, b.cap);
    }
  }

  /** Two elements in a store that has not grown to capacity — as after two
      pushes onto a new buffer of capacity 4: the as-written iterator yields
      the second element first and then panics indexing `store[2]`, where the
      intended iterator yields both elements in order. */
  lemma AsWrittenCounterexample<T>(b: CircBuffer<T>, x: T, y: T)
    requires Valid(b) && Contents(b) == [x, y] && |b.store| < b.cap
    ensures IterNextAsWritten(IterNew(b)) == Yielded(IterNew(b).(idx := 1), y)
    ensures IterNextAsWritten(IterNew(b).(idx := 1)) == IndexPanic
    ensures IterCollect(IterNew(b)) == [x, y]
  {
  }

  /** On a full buffer the as-written iterator does not panic: its last step
      reads slot `(r_idx + CAP) % CAP`, the head's slot, and yields the oldest
      element a second time instead of ending. */
  lemma AsWrittenWrapsAround<T>(b: CircBuffer<T>)
    requires Valid(b) && b.cap > 0 && Len(b) == b.cap
    ensures IterNextAsWritten(IterNew(b).(idx := b.cap - 1))
            == Yielded(IterNew(b).(idx := b.cap), Contents(b)[0])
  {
    ContentsAt(b, b.rIdx);
    ModUnique(b.rIdx + b.cap, b.rIdx / b.cap + 1, b.rIdx % b.cap, b.cap);
  }

  /** Two pushes onto a new buffer of capacity 3 or more (4 say) reach the state above. */
  lemma TwoPushesReachCounterexample<T>(cap: nat, x: T, y: T)
    requires cap > 2
    ensures var b := Push(Push(New<T>(cap), x), y);
            Valid(b) && Contents(b) == [x, y] && |b.store| == 2 < b.cap
  {
    var b0 := New<T>(cap);
    NewIsEmpty<T>(cap);
    var b1 := Push(b0, x);
    assert Contents(b1) == [] + [x];
    var b := Push(b1, y);
    assert Contents(b) == [x] + [y];
    assert b.wIdx == 2;
  }
}
