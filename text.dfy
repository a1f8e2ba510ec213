/**
 * The few string searches of Rust's `str` that the pool code relies on
 * (`find`, `rfind`, `ends_with`, and `position` on a slice), stated over
 * sequences. Indices count elements (characters), not bytes.
 */
module Text {
  import opened Wrappers

  /** `s.ends_with(suffix)` */
  predicate EndsWith<T(==)>(s: seq<T>, suffix: seq<T>) {
    |suffix| <= |s| && s[|s| - |suffix|..] == suffix
  }

  /** `s.find(x)` / `s.iter().position(|y| y == x)`: the first index holding `x`. */
  function Find<T(==)>(s: seq<T>, x: T): (r: Option<nat>)
    ensures r.None? <==> x !in s
    ensures r.Some? ==> r.value < |s| && s[r.value] == x && x !in s[..r.value]
  {
    if |s| == 0 then None
    else if s[0] == x then Some(0)
    else
      match Find(s[1..], x)
      case None => None
      case Some(i) =>
        assert s[..i + 1] == [s[0]] + s[1..][..i];
        Some(i + 1)
  }

  /** `s.rfind(x)`: the last index holding `x`. */
  function RFind<T(==)>(s: seq<T>, x: T): (r: Option<nat>)
    ensures r.None? <==> x !in s
    ensures r.Some? ==> r.value < |s| && s[r.value] == x && x !in s[r.value + 1..]
  {
    if |s| == 0 then None
    else if s[|s| - 1] == x then Some(|s| - 1)
    else
      assert s == s[..|s| - 1] + [s[|s| - 1]];
      match RFind(s[..|s| - 1], x)
      case None => None
      case Some(i) =>
        assert s[i + 1..] == s[..|s| - 1][i + 1..] + [s[|s| - 1]];
        Some(i)
  }

  /**
   * `s.rfind(x).unwrap_or(0) + 1`: the index just after the last `x`, or 1
   * when `s` holds no `x` (so that slicing from it drops the first element).
   */
  function AfterLast<T(==)>(s: seq<T>, x: T): (start: nat)
    ensures x in s ==> 0 < start <= |s| && s[start - 1] == x && x !in s[start..]
    ensures x !in s ==> start == 1
  {
    match RFind(s, x)
    case Some(i) => i + 1
    case None => 1
  }

  /** `s.find(x).map_or(s, |p| &s[..p])`: `s` cut before its first `x`. */
  function UpTo<T(==)>(s: seq<T>, x: T): (r: seq<T>)
    ensures |r| <= |s| && x !in r && r == s[..|r|]
    ensures |r| == |s| || s[|r|] == x
  {
    match Find(s, x)
    case Some(p) => s[..p]
    case None => s
  }

  /** `AfterLast` is the only position its contract allows. */
  lemma AfterLastUnique<T>(s: seq<T>, x: T, start: nat)
    requires start <= |s|
    requires (0 < start && s[start - 1] == x && x !in s[start..]) || (start == 1 && x !in s)
    ensures AfterLast(s, x) == start
  {
  }

  /** `RFind` is the only index its contract allows. */
  lemma RFindAt<T>(s: seq<T>, x: T, i: nat)
    requires i < |s| && s[i] == x && x !in s[i + 1..]
    ensures RFind(s, x) == Some(i)
  {
  }

  /** A suffix of a suffix is a suffix. */
  lemma EndsWithTail<T>(s: seq<T>, a: seq<T>, b: seq<T>)
    requires EndsWith(s, a + b)
    ensures EndsWith(s, b)
  {
    assert s[|s| - |b|..] == s[|s| - |a + b|..][|a|..];
  }
}
