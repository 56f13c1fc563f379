/** The list operations the inventory relies on, over plain sequences:
    `indexOf` and `remove(Object)` of a Java list whose elements are compared
    by identity. An element's identity is given by a `key` function. */
module Lists {

  /** `contains`: some element has identity `k`. */
  predicate HasKey<T>(xs: seq<T>, key: T -> nat, k: nat) {
    exists j :: 0 <= j < |xs| && key(xs[j]) == k
  }

  /** `indexOf`: the first position whose element has identity `k`, or -1. */
  function IndexOfKey<T>(xs: seq<T>, key: T -> nat, k: nat): (r: int)
    ensures -1 <= r < |xs|
    ensures r == -1 <==> !HasKey(xs, key, k)
    ensures r >= 0 ==> key(xs[r]) == k && forall i :: 0 <= i < r ==> key(xs[i]) != k
  {
    if |xs| == 0 then -1
    else if key(xs[0]) == k then 0
    else
      var i := IndexOfKey(xs[1..], key, k);
      if i == -1 then -1 else i + 1
  }

  /** `remove(Object)`: drops the first element with identity `k`; the list
      is unchanged when there is none. Everything before the dropped element
      stays in place and everything after it moves up by one. */
  function RemoveKey<T>(xs: seq<T>, key: T -> nat, k: nat): (r: seq<T>)
    ensures IndexOfKey(xs, key, k) == -1 ==> r == xs
    ensures IndexOfKey(xs, key, k) >= 0 ==>
      var i := IndexOfKey(xs, key, k);
      |r| == |xs| - 1 &&
      (forall j :: 0 <= j < i ==> r[j] == xs[j]) &&
      (forall j :: i <= j < |r| ==> r[j] == xs[j + 1])
  {
    var i := IndexOfKey(xs, key, k);
    if i == -1 then xs else xs[..i] + xs[i + 1..]
  }
}
