/** Small facts about lists and sets that several components use. */
module Collections {
  import opened Results

  /** What a reader has done so far, followed by what the rest yields. */
  function Continue<T>(done: seq<T>, rest: Option<seq<T>>): Option<seq<T>> {
    match rest case None => None case Some(more) => Some(done + more)
  }

  /** One item, followed by what the rest yields. */
  function Then<T>(item: T, rest: Option<seq<T>>): Option<seq<T>> {
    match rest case None => None case Some(more) => Some([item] + more)
  }

  lemma ContinueNone<T>(rest: Option<seq<T>>)
    ensures Continue([], rest) == rest
  {
    if rest.Some? {
      assert [] + rest.value == rest.value;
    }
  }

  lemma ContinueOne<T>(done: seq<T>, item: T, rest: Option<seq<T>>)
    ensures Continue(done, Then(item, rest)) == Continue(done + [item], rest)
  {
    if rest.Some? {
      assert done + ([item] + rest.value) == done + [item] + rest.value;
    }
  }

  lemma SubsetSize<T>(a: set<T>, b: set<T>)
    requires a <= b
    ensures |a| <= |b|
  {
    assert b == a + (b - a);
    assert |a + (b - a)| == |a| + |b - a|;
  }

  lemma SliceOfSlice<T>(s: seq<T>, p: nat, e: nat, i: nat, j: nat)
    requires p <= e <= |s| && i <= j <= e - p
    ensures s[p..e][i..j] == s[p + i..p + j]
  {
    var x, y := s[p..e][i..j], s[p + i..p + j];
    assert forall k :: 0 <= k < j - i ==> x[k] == s[p + i + k] && y[k] == s[p + i + k];
  }
}
