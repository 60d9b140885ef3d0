/**
 Scenarios over the model: the two populated tests of src/lib.rs (`push` and
 `pull`), generalised to every capacity, and the model's own scenarios for
 overwrite-on-full, draining and interleaved `push`/`pull` (src/cb.rs:42-67,
 92-95). Element values are parameters, so each scenario holds for every
 choice of them.
 */
module CbScenarios {
  import opened CircBuf
  import opened CircIter
  import Windows

  /** The `push` test (capacity 4 there): two pushes give length 2; `cap`
      pushes give length `cap` and a full buffer holding them in order. */
  lemma PushScenario<T>(cap: nat, xs: seq<T>)
    requires 2 <= cap && |xs| == cap
    ensures Len(PushAll(New<T>(cap), xs[..2])) == 2
    ensures Len(PushAll(New<T>(cap), xs)) == cap
    ensures IsFull(PushAll(New<T>(cap), xs))
    ensures Contents(PushAll(New<T>(cap), xs)) == xs
  {
    PushAllFromNew(cap, xs[..2]);
    PushAllFromNew(cap, xs);
  }

  /** The `pull` test (capacity 4 there): push two values, pull them back in
      order, then `None`, leaving the buffer empty. */
  lemma PullScenario<T>(cap: nat, t: T, f: T)
    requires cap >= 2
    ensures var b := PushAll(New<T>(cap), [t, f]);
            var (b1, x1) := Pull(b);
            var (b2, x2) := Pull(b1);
            var (b3, x3) := Pull(b2);
            && Len(b) == 2 && x1 == Some(t) && Len(b1) == 1 && x2 == Some(f)
            && x3 == None && IsEmpty(b3)
  {
    PushAllFromNew(cap, [t, f]);
  }

  /** Overwrite on full, for any capacity of at least 2: after `cap` pushes the
      buffer is full; after one more push it is still full, the oldest value is
      gone, the head is the second value pushed, and the next `pull` yields it. */
  lemma OverwriteScenario<T>(xs: seq<T>, e: T)
    requires |xs| >= 2
    ensures var full := PushAll(New<T>(|xs|), xs);
            var over := Push(full, e);
            && IsFull(full) && Len(over) == |xs| && IsFull(over)
            && Contents(over) == xs[1..] + [e]
            && Get(over, 0) == Some(xs[1]) && Pull(over).1 == Some(xs[1])
  {
    PushAllFromNew(|xs|, xs);
    PushOntoFull(PushAll(New<T>(|xs|), xs), e);
  }

  /** A push onto a full buffer of capacity at least 2 keeps it full and makes
      the second-oldest element the head. */
  lemma PushOntoFull<T>(b: CircBuffer<T>, e: T)
    requires Valid(b) && b.cap >= 2 && IsFull(b)
    ensures var over := Push(b, e);
            && Len(over) == b.cap && IsFull(over)
            && Contents(over) == Contents(b)[1..] + [e]
            && Get(over, 0) == Some(Contents(b)[1]) && Pull(over).1 == Some(Contents(b)[1])
  {
  }

  /** Pushing at most `cap` values and draining gives them back in order and
      leaves the buffer empty. */
  lemma PushDrainRoundTrip<T>(cap: nat, xs: seq<T>)
    requires 0 < cap && |xs| <= cap
    ensures DrainCollect(DrainNew(PushAll(New<T>(cap), xs))).1 == xs
    ensures Contents(DrainCollect(DrainNew(PushAll(New<T>(cap), xs))).0.obj) == []
  {
    PushAllFromNew(cap, xs);
  }

  /** Draining after any number of pushes yields exactly the newest
      `min(k, cap)` values pushed, in order. */
  lemma PushDrainKeepsNewest<T>(cap: nat, xs: seq<T>)
    requires 0 < cap
    ensures DrainCollect(DrainNew(PushAll(New<T>(cap), xs))).1 == Windows.Last(xs, cap)
  {
    PushAllFromNew(cap, xs);
  }

  /** Push `0..n-1` into a buffer of capacity `cap <= n` and drain it: exactly
      `n-cap..n-1`, in order. */
  lemma DrainNewestScenario(cap: nat, n: nat)
    requires 0 < cap <= n
    ensures DrainCollect(DrainNew(PushAll(New<int>(cap), seq(n, i => i)))).1 == seq(cap, i => n - cap + i)
  {
    var xs := seq(n, i => i);
    PushDrainKeepsNewest(cap, xs);
    LastOfRange(cap, n);
  }

  /** The newest `cap` of `0..n-1` are `n-cap..n-1`. */
  lemma LastOfRange(cap: nat, n: nat)
    requires 0 < cap <= n
    ensures Windows.Last(seq(n, i => i), cap) == seq(cap, i => n - cap + i)
  {
    Windows.LastIsSuffix(seq(n, i => i), cap);
  }

  /** Capacity `cap >= 6`: push `1..cap`, pull twice, push two values, pull
      twice, push three values. The length is `cap - 2` after each pair of
      pulls and `cap` after the pushes; the values `1..5` are gone and the next
      `pull` yields 6. */
  lemma InterleavedScenario(cap: nat, p: int, q: int, r: int, s: int, t: int)
    requires cap >= 6
    ensures var b0 := PushAll(New<int>(cap), seq(cap, i => i + 1));
            var b1 := Pull(Pull(b0).0).0;
            var b2 := PushAll(b1, [p, q]);
            var b3 := Pull(Pull(b2).0).0;
            var b4 := PushAll(b3, [r, s, t]);
            && Len(b0) == cap && Len(b1) == cap - 2 && Len(b2) == cap
            && Len(b3) == cap - 2 && Len(b4) == cap && Pull(b4).1 == Some(6)
  {
    var xs := seq(cap, i => i + 1);
    PushAllFromNew(cap, xs);
    var b0 := PushAll(New<int>(cap), xs);
    var b1 := Pull(Pull(b0).0).0;
    PullTwice(b0);
    var b2 := PushAll(b1, [p, q]);
    PushWithinRoom(b1, [p, q]);
    var b3 := Pull(Pull(b2).0).0;
    PullTwice(b2);
    var b4 := PushAll(b3, [r, s, t]);
    PushOneTooMany(b3, [r, s, t]);
    assert Contents(b4)[0] == xs[5];
  }

  /** Two pulls remove the two oldest elements. */
  lemma PullTwice<T>(b: CircBuffer<T>)
    requires Valid(b) && |Contents(b)| >= 2
    ensures Valid(Pull(Pull(b).0).0) && Pull(Pull(b).0).0.cap == b.cap
    ensures Contents(Pull(Pull(b).0).0) == Contents(b)[2..]
  {
    assert Contents(b)[1..][1..] == Contents(b)[2..];
  }

  /** Pushes that fit append. */
  lemma PushWithinRoom<T>(b: CircBuffer<T>, ys: seq<T>)
    requires Valid(b) && b.cap > 0 && |Contents(b)| + |ys| <= b.cap
    ensures Contents(PushAll(b, ys)) == Contents(b) + ys
  {
    PushAllIsWindow(b, ys);
    Windows.LastFits(Contents(b) + ys, b.cap);
  }

  /** Pushes that overflow by one drop exactly the oldest element. */
  lemma PushOneTooMany<T>(b: CircBuffer<T>, ys: seq<T>)
    requires Valid(b) && b.cap > 0 && |Contents(b)| + |ys| == b.cap + 1 && Contents(b) != []
    ensures Contents(PushAll(b, ys)) == Contents(b)[1..] + ys
  {
    PushAllIsWindow(b, ys);
    Windows.LastOverByOne(Contents(b), ys, b.cap);
  }
}
