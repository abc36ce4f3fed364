/** The JavaScript array operations the route handlers rely on (`findIndex`, `find`,
    `filter`), on immutable sequences, with the properties the handlers need. */
module JsArray {
  import opened Wrappers

  /** `Array.prototype.findIndex`: the index of the first element satisfying `p`,
      or -1 when no element does. */
  function FindIndex<T>(s: seq<T>, p: T -> bool): (r: int)
    ensures -1 <= r < |s|
    ensures r == -1 <==> forall j :: 0 <= j < |s| ==> !p(s[j])
    ensures 0 <= r ==> p(s[r]) && forall j :: 0 <= j < r ==> !p(s[j])
  {
    if |s| == 0 then -1
    else if p(s[0]) then 0
    else
      var k := FindIndex(s[1..], p);
      if k == -1 then -1 else k + 1
  }

  /** `Array.prototype.find`: the first element satisfying `p`, or None (`undefined`). */
  function Find<T>(s: seq<T>, p: T -> bool): (r: Option<T>)
    ensures r.None? <==> forall j :: 0 <= j < |s| ==> !p(s[j])
    ensures r.Some? ==>
      exists i :: 0 <= i < |s| && s[i] == r.value && p(s[i]) && forall j :: 0 <= j < i ==> !p(s[j])
  {
    var i := FindIndex(s, p);
    if i == -1 then None else Some(s[i])
  }

  /** `Array.prototype.filter`: the elements satisfying `p`, each as often as in `s`. */
  function Filter<T(!new)>(s: seq<T>, p: T -> bool): (r: seq<T>)
    ensures |r| <= |s|
    ensures forall x :: x in r <==> x in s && p(x)
    ensures forall x :: multiset(r)[x] == if p(x) then multiset(s)[x] else 0
  {
    if |s| == 0 then []
    else
      assert s == [s[0]] + s[1..];
      (if p(s[0]) then [s[0]] else []) + Filter(s[1..], p)
  }

  /** `filter` keeps the relative order of what it keeps: it distributes over concatenation. */
  lemma {:induction false} FilterConcat<T(!new)>(a: seq<T>, b: seq<T>, p: T -> bool)
    ensures Filter(a + b, p) == Filter(a, p) + Filter(b, p)
  {
    if |a| == 0 {
      assert a + b == b;
    } else {
      assert (a + b)[1..] == a[1..] + b;
      FilterConcat(a[1..], b, p);
    }
  }

  /** No two elements of `s` share a key. */
  ghost predicate UniqueBy<T, K>(s: seq<T>, key: T -> K) {
    forall i, j :: 0 <= i < j < |s| ==> key(s[i]) != key(s[j])
  }

  /** Appending an element whose key is new keeps the keys unique. */
  lemma AppendKeepsUnique<T, K>(s: seq<T>, x: T, key: T -> K)
    requires UniqueBy(s, key)
    requires forall j :: 0 <= j < |s| ==> key(s[j]) != key(x)
    ensures UniqueBy(s + [x], key)
  {
  }

  /** Removing one element (`splice(i, 1)`) keeps the keys unique. */
  lemma RemoveKeepsUnique<T, K>(s: seq<T>, i: nat, key: T -> K)
    requires i < |s|
    requires UniqueBy(s, key)
    ensures UniqueBy(s[..i] + s[i + 1..], key)
  {
  }

  /** Replacing one element by one with the same key keeps the keys unique. */
  lemma ReplaceKeepsUnique<T, K>(s: seq<T>, i: nat, x: T, key: T -> K)
    requires i < |s|
    requires UniqueBy(s, key)
    requires key(x) == key(s[i])
    ensures UniqueBy(s[i := x], key)
  {
  }

  /** `findIndex` on `s + [x]`: a match in `s` is found first; otherwise `x` is
      found at the end when it matches. */
  lemma FindIndexAppend<T>(s: seq<T>, x: T, p: T -> bool)
    ensures FindIndex(s + [x], p) ==
      if FindIndex(s, p) != -1 then FindIndex(s, p)
      else if p(x) then |s| else -1
  {
    assert forall j :: 0 <= j < |s| ==> (s + [x])[j] == s[j];
    assert (s + [x])[|s|] == x;
  }

  /** With unique keys, after removing the element at the first index with key `k`,
      no element with key `k` remains. */
  lemma RemoveFirstMatchLeavesNone<T, K>(s: seq<T>, key: T -> K, k: K, p: T -> bool)
    requires UniqueBy(s, key)
    requires forall x :: p(x) <==> key(x) == k
    requires FindIndex(s, p) != -1
    ensures var i := FindIndex(s, p);
      FindIndex(s[..i] + s[i + 1..], p) == -1
  {
  }
}
