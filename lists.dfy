/** Array.prototype.indexOf over sequences, and distinctness. */
module Lists {

  /** No element occurs twice. */
  ghost predicate Distinct<T>(s: seq<T>) {
    forall i, j :: 0 <= i < j < |s| ==> s[i] != s[j]
  }

  /** The position of the first occurrence of `x` in `s`, or -1 when there is none. */
  function IndexOf<T(==)>(s: seq<T>, x: T): (i: int)
    ensures -1 <= i < |s|
    ensures i == -1 <==> x !in s
    ensures 0 <= i ==> s[i] == x && x !in s[..i]
  {
    if |s| == 0 then -1
    else if s[0] == x then 0
    else
      var j := IndexOf(s[1..], x);
      if j == -1 then -1
      else
        assert s[..j + 1] == [s[0]] + s[1..][..j];
        j + 1
  }

  /** In a sequence without repetitions, the position of an element is its only position. */
  lemma IndexOfDistinct<T>(s: seq<T>, k: int)
    requires Distinct(s) && 0 <= k < |s|
    ensures IndexOf(s, s[k]) == k
  {
  }

  /** Appending an element other than `x` does not move the first occurrence of `x`. */
  lemma IndexOfAppend<T>(s: seq<T>, y: T, x: T)
    requires x != y
    ensures IndexOf(s + [y], x) == IndexOf(s, x)
  {
    var j := IndexOf(s, x);
    if j == -1 {
      assert x !in s + [y];
    } else {
      assert (s + [y])[j] == x && (s + [y])[..j] == s[..j];
    }
  }
}
