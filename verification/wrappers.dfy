/** Optional values, and the "first hit wins" search that the extraction code
    performs in four places: the leftmost match of a regular expression, the
    first position candidate whose text parses, and the first navigation
    attempt that is accepted. */
module Wrappers {

  /** None stands for JavaScript's null result of a search that found
      nothing, or for a page element that is not there. */
  datatype Option<+T> = None | Some(value: T)

  /** The first present value of xs, in order; None when every entry is None. */
  function FirstSome<T>(xs: seq<Option<T>>): Option<T> {
    if xs == [] then None
    else if xs[0].Some? then xs[0]
    else FirstSome(xs[1..])
  }

  /** The search returns a present entry of xs that only absent entries
      precede, and it returns None exactly when every entry is absent. */
  lemma {:induction false} FirstSomeSpec<T>(xs: seq<Option<T>>)
    ensures FirstSome(xs).Some? ==>
      exists k :: 0 <= k < |xs| && xs[k] == FirstSome(xs) && (forall j :: 0 <= j < k ==> xs[j].None?)
    ensures FirstSome(xs).None? <==> (forall j :: 0 <= j < |xs| ==> xs[j].None?)
  {
    if xs != [] && xs[0].None? {
      FirstSomeSpec(xs[1..]);
      assert forall j :: 1 <= j < |xs| ==> xs[j] == xs[1..][j - 1];
      if FirstSome(xs).Some? {
        var k :| 0 <= k < |xs[1..]| && xs[1..][k] == FirstSome(xs) && (forall j :: 0 <= j < k ==> xs[1..][j].None?);
        assert xs[k + 1] == FirstSome(xs);
      }
    }
  }

  /** The first present entry is the result: when xs[..k] holds only None and
      xs[k] is present, the search returns xs[k]. */
  lemma {:induction false} FirstSomeAt<T>(xs: seq<Option<T>>, k: nat)
    requires k < |xs|
    requires forall j :: 0 <= j < k ==> xs[j].None?
    requires xs[k].Some?
    ensures FirstSome(xs) == xs[k]
  {
    if k > 0 {
      assert forall j :: 0 <= j < k - 1 ==> xs[1..][j] == xs[j + 1];
      FirstSomeAt(xs[1..], k - 1);
    }
  }
}
