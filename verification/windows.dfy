/**
 The reference model of a bounded FIFO that keeps the newest elements: a window
 of at most `n` elements over a history of values. The ring buffer's contents
 are proved to be exactly such a window over everything ever pushed.
 */
module Windows {

  /** The newest `n` elements of `s`, oldest first (all of `s` when it is shorter). */
  function Last<T>(s: seq<T>, n: nat): seq<T>
  {
    if |s| <= n then s else s[|s| - n..]
  }

  /** The window is a suffix of the history, of length `min(|s|, n)`. */
  lemma LastIsSuffix<T>(s: seq<T>, n: nat)
    ensures |Last(s, n)| == (if |s| <= n then |s| else n)
    ensures forall i :: 0 <= i < |Last(s, n)| ==> Last(s, n)[i] == s[|s| - |Last(s, n)| + i]
  {
  }

  /** Taking the window early and then appending more history does not change
      the final window: older elements fall out either way. */
  lemma {:induction false} LastAbsorbs<T>(s: seq<T>, t: seq<T>, n: nat)
    ensures Last(Last(s, n) + t, n) == Last(s + t, n)
  {
    if |s| > n {
      var u := s[|s| - n..];
      assert u + t == (s + t)[|s| - n..];
      if |u + t| > n {
        assert (u + t)[|u + t| - n..] == (s + t)[|s + t| - n..];
      }
    }
  }

  /** One value taken into the window, then the rest of the history: the same
      window as taking the whole history at once. */
  lemma LastStep<T>(s: seq<T>, xs: seq<T>, n: nat)
    requires xs != []
    ensures Last(Last(s + [xs[0]], n) + xs[1..], n) == Last(s + xs, n)
  {
    LastAbsorbs(s + [xs[0]], xs[1..], n);
    assert s + [xs[0]] + xs[1..] == s + xs;
  }

  /** A history that fits in the window is kept whole. */
  lemma LastFits<T>(s: seq<T>, n: nat)
    requires |s| <= n
    ensures Last(s, n) == s
  {
  }

  /** A history one longer than the window loses exactly its first element. */
  lemma LastOverByOne<T>(s: seq<T>, t: seq<T>, n: nat)
    requires s != [] && |s| + |t| == n + 1
    ensures Last(s + t, n) == s[1..] + t
  {
    assert (s + t)[1..] == s[1..] + t;
  }

  /** Appending to a full window drops its oldest element. */
  lemma LastAppendFull<T>(q: seq<T>, v: T, n: nat)
    requires |q| == n > 0
    ensures Last(q + [v], n) == q[1..] + [v]
  {
    assert (q + [v])[1..] == q[1..] + [v];
  }
}
