/** Optional values and the "keep what is present, in order" filter.
    The screen uses the filter three times: for the URIs of picked clip
    items (some may be null), for the images that compressed, and for the
    uploads that returned a download URL. */
module Collections {

  /** Kotlin's nullable `T?`. */
  datatype Option<+T> = None | Some(value: T)

  /** The values `f` yields for the elements of `s`, in the order of `s`;
      an element for which `f` yields None is skipped. */
  function Keep<T, U>(s: seq<T>, f: T -> Option<U>): (r: seq<U>)
    ensures |r| <= |s|
  {
    if s == [] then []
    else
      var last := f(s[|s| - 1]);
      Keep(s[..|s| - 1], f) + (if last.Some? then [last.value] else [])
  }

  /** The positions of `s` that `Keep` keeps, in increasing order, and the
      witness that `Keep(s, f)` is the in-order subsequence of the present
      values: the j-th kept value comes from position idx[j], the positions
      strictly increase, and every present position is among them. */
  function KeptIndices<T, U>(s: seq<T>, f: T -> Option<U>): (idx: seq<nat>)
    ensures |idx| == |Keep(s, f)|
    ensures forall j :: 0 <= j < |idx| ==> idx[j] < |s| && f(s[idx[j]]) == Some(Keep(s, f)[j])
    ensures forall j, k :: 0 <= j < k < |idx| ==> idx[j] < idx[k]
    ensures forall i :: 0 <= i < |s| && f(s[i]).Some? ==> i in idx
  {
    if s == [] then []
    else
      var n := |s| - 1;
      var front := KeptIndices(s[..n], f);
      assert forall j :: 0 <= j < |front| ==> s[..n][front[j]] == s[front[j]];
      assert forall i :: 0 <= i < n ==> s[..n][i] == s[i];
      front + (if f(s[n]).Some? then [n] else [])
  }

  /** Filtering a concatenation filters each part: a skipped element never
      disturbs what is kept before or after it. */
  lemma {:induction false} KeepAppend<T, U>(a: seq<T>, b: seq<T>, f: T -> Option<U>)
    ensures Keep(a + b, f) == Keep(a, f) + Keep(b, f)
    decreases |b|
  {
    if b == [] {
      assert a + b == a;
    } else {
      var b' := b[..|b| - 1];
      assert (a + b)[..|a + b| - 1] == a + b';
      assert (a + b)[|a + b| - 1] == b[|b| - 1];
      KeepAppend(a, b', f);
    }
  }

  /** Nothing is dropped exactly when every element is present. */
  lemma {:induction false} KeepAllPresent<T, U>(s: seq<T>, f: T -> Option<U>)
    ensures |Keep(s, f)| == |s| <==> forall i :: 0 <= i < |s| ==> f(s[i]).Some?
  {
    if s != [] {
      var n := |s| - 1;
      KeepAllPresent(s[..n], f);
      assert forall i :: 0 <= i < n ==> s[..n][i] == s[i];
    }
  }

  /** An element that yields nothing only removes itself from the result. */
  lemma SkipOnlyThat<T, U>(front: seq<T>, x: T, rest: seq<T>, f: T -> Option<U>)
    requires f(x).None?
    ensures Keep(front + [x] + rest, f) == Keep(front, f) + Keep(rest, f)
  {
    var tail := [x] + rest;
    assert Keep(tail, f) == Keep(rest, f) by {
      assert Keep([x], f) == [] by {
        assert [x][..0] == [];
      }
      KeepAppend([x], rest, f);
    }
    assert Keep(front + tail, f) == Keep(front, f) + Keep(tail, f) by {
      KeepAppend(front, tail, f);
    }
    assert front + [x] + rest == front + tail;
  }
}
