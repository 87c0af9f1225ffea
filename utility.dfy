/** The array helpers of `Utility` (src/generator/utility.ts). */
module Utility {

  /** A JavaScript array: a mutable object whose element list `elements`
      can grow and shrink in place (`splice`). */
  class MutableList<T> {
    var elements: seq<T>

    constructor Of(s: seq<T>)
      ensures elements == s
    {
      elements := s;
    }
  }

  /** Index of the first occurrence of `v` in `s`, or -1 (`indexOf`). */
  function IndexOf<T(==)>(s: seq<T>, v: T): (i: int)
    ensures -1 <= i < |s|
    ensures i == -1 <==> v !in s
    ensures 0 <= i ==> s[i] == v
    ensures forall j :: 0 <= j < i ==> s[j] != v
  {
    if |s| == 0 then -1
    else if s[0] == v then 0
    else
      var j := IndexOf(s[1..], v);
      if j == -1 then -1 else j + 1
  }

  /** `s` without its first occurrence of `v`; `s` itself when `v` is absent. */
  function RemoveFirst<T(==)>(s: seq<T>, v: T): (r: seq<T>)
  {
    var i := IndexOf(s, v);
    if i == -1 then s else s[..i] + s[i + 1..]
  }

  /** What removing the first occurrence means: nothing changes when the value
      is absent; otherwise exactly one element goes, the first `v`, and the
      others keep their order. */
  lemma RemoveFirstSpec<T>(s: seq<T>, v: T)
    ensures v !in s ==> RemoveFirst(s, v) == s
    ensures v in s ==>
              |RemoveFirst(s, v)| == |s| - 1 &&
              exists i :: 0 <= i < |s| && s[i] == v && v !in s[..i] &&
                          RemoveFirst(s, v) == s[..i] + s[i + 1..]
  {
    if v in s {
      var i := IndexOf(s, v);
      assert v !in s[..i];
    }
  }

  /** Removing `v` from `a + [v] + b` when `a` holds no `v` takes out exactly
      the displayed `v`. */
  lemma {:induction false} RemoveFirstAt<T>(a: seq<T>, v: T, b: seq<T>)
    requires v !in a
    ensures RemoveFirst(a + [v] + b, v) == a + b
  {
    var s := a + [v] + b;
    var i := IndexOf(s, v);
    assert s[|a|] == v;
    assert forall j :: 0 <= j < |a| ==> s[j] == a[j];
    assert i == |a|;
    assert s[..i] == a;
    assert s[i + 1..] == b;
  }

  /** `removeFromArray`: removes the first occurrence of `value` from `list`
      in place and returns the same list object. */
  method RemoveFromArray<T(==)>(list: MutableList<T>, value: T) returns (r: MutableList<T>)
    modifies list
    ensures r == list
    ensures list.elements == RemoveFirst(old(list.elements), value)
  {
    var index := IndexOf(list.elements, value);
    if index != -1 {
      list.elements := list.elements[..index] + list.elements[index + 1..];
    }
    r := list;
  }

  /** `getZeroFilledArray`: `length` zeros. */
  function ZeroFilled(length: nat): (r: seq<int>)
    ensures |r| == length
    ensures forall i :: 0 <= i < |r| ==> r[i] == 0
  {
    seq(length, _ => 0)
  }

  /** `cloneArray`: a new array object holding the same elements. */
  method CloneArray<T>(list: MutableList<T>) returns (r: MutableList<T>)
    ensures fresh(r)
    ensures r.elements == list.elements
  {
    r := new MutableList.Of(list.elements);
  }

  /** `getRandomIntBetween` for whole-number bounds, with the `Math.random()`
      value passed in as `draw`: `floor(draw * (max - min + 1)) + min`, which
      lies between the bounds. */
  function RandomIntBetween(min: int, max: int, draw: real): (r: int)
    requires 0.0 <= draw < 1.0
    ensures min <= max ==> min <= r <= max
  {
    (draw * (max - min + 1) as real).Floor + min
  }

  /** A removal applied to a clone leaves the original untouched. */
  method RemoveFromClone<T(==)>(list: MutableList<T>, value: T) returns (clone: MutableList<T>)
    ensures fresh(clone)
    ensures list.elements == old(list.elements)
    ensures clone.elements == RemoveFirst(list.elements, value)
  {
    clone := CloneArray(list);
    clone := RemoveFromArray(clone, value);
  }
}
