/** Turning a Python `set` back into a `list`. */
module Collections {

  /** No element occurs twice. */
  predicate NoDuplicates(s: seq<string>)
  {
    forall i, j :: 0 <= i < j < |s| ==> s[i] != s[j]
  }

  /** Python's `list(s)` for a set `s`: every element exactly once, in an
      order the language leaves unspecified. The order here is an arbitrary
      choice that nothing else in the model may depend on, so every property
      proved about it holds for every order. */
  ghost function SetToSeq(s: set<string>): (r: seq<string>)
    ensures |r| == |s|
    ensures NoDuplicates(r)
    ensures forall x :: x in r <==> x in s
    decreases |s|
  {
    if s == {} then []
    else
      var x :| x in s;
      [x] + SetToSeq(s - {x})
  }

  /** The elements of a list, as a set (Python's `set(l)`). */
  function Elements(s: seq<string>): (r: set<string>)
    ensures forall x :: x in r <==> x in s
  {
    set x | x in s
  }
}
