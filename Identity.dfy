/** Queries shared by the collections that keep their elements unique under an
    identity predicate (`isSameDay`, `isSameTask`) that is narrower than full
    equality. The predicate is a parameter: `same(x, y)` reads `x.isSameX(y)`. */
module Identity {

  /** `same(toCheck, x)` for some element `x` of `s`, as a stream's `anyMatch`
      over `toCheck::isSameX`. */
  function AnyMatch<T>(same: (T, T) -> bool, s: seq<T>, toCheck: T): (b: bool)
    ensures b <==> exists i :: 0 <= i < |s| && same(toCheck, s[i])
  {
    if |s| == 0 then false
    else same(toCheck, s[0]) || AnyMatch(same, s[1..], toCheck)
  }

  /** No element is identity-equal to a later one. */
  predicate Unique<T>(same: (T, T) -> bool, s: seq<T>)
  {
    forall i, j :: 0 <= i < j < |s| ==> !same(s[i], s[j])
  }

  ghost predicate Symmetric<T(!new)>(same: (T, T) -> bool)
  {
    forall x, y :: same(x, y) ==> same(y, x)
  }

  ghost predicate Transitive<T(!new)>(same: (T, T) -> bool)
  {
    forall x, y, z :: same(x, y) && same(y, z) ==> same(x, z)
  }

  /** Position of the first element equal to `x` (full equality), as `indexOf`. */
  function IndexOf<T(==)>(s: seq<T>, x: T): (r: int)
    ensures -1 <= r < |s|
    ensures r == -1 <==> x !in s
    ensures r >= 0 ==> s[r] == x && forall j :: 0 <= j < r ==> s[j] != x
  {
    if |s| == 0 then -1
    else if s[0] == x then 0
    else
      var k := IndexOf(s[1..], x);
      if k == -1 then -1 else k + 1
  }
}
