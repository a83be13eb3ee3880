/**
 The two list operations the catalog relies on: the first-match linear
 scan used to look records up by id, and removal of the first occurrence
 of a value (the behaviour of a list's `remove`).
 */
module Lists {

  datatype Option<T> = None | Some(value: T)

  /** `i` is the position of the first occurrence of `key` in `keys`. */
  predicate IsFirst(keys: seq<int>, i: int, key: int)
  {
    && 0 <= i < |keys|
    && keys[i] == key
    && forall j | 0 <= j < i :: keys[j] != key
  }

  /** There is at most one first occurrence. */
  lemma FirstIsOnlyFirst(keys: seq<int>, i: int, key: int)
    requires IsFirst(keys, i, key)
    ensures forall j | IsFirst(keys, j, key) :: j == i
  {
  }

  /** Linear scan from the front, stopping at the first match. */
  function Find(keys: seq<int>, key: int): (r: Option<nat>)
    ensures r.Some? ==> IsFirst(keys, r.value, key)
    ensures r.None? <==> key !in keys
  {
    if |keys| == 0 then None
    else if keys[0] == key then Some(0)
    else
      match Find(keys[1..], key)
      case None => None
      case Some(k) => Some(k + 1)
  }

  /** The scan answers exactly the first occurrence, and nothing else. */
  lemma FindIsFirstMatch(keys: seq<int>, key: int, i: int)
    ensures Find(keys, key) == Some(i) <==> IsFirst(keys, i, key)
  {
    if IsFirst(keys, i, key) {
      assert key in keys;
      FirstIsOnlyFirst(keys, i, key);
    }
  }

  /** Deletes the first occurrence of `x`; the caller has checked that there is one. */
  function RemoveFirst(s: seq<int>, x: int): (r: seq<int>)
    requires x in s
    ensures |r| == |s| - 1
    ensures forall p | IsFirst(s, p, x) :: r == s[..p] + s[p + 1..]
    ensures multiset(r) == multiset(s) - multiset{x}
  {
    var p := Find(s, x).value;
    assert s == s[..p] + [x] + s[p + 1..];
    FirstIsOnlyFirst(s, p, x);
    s[..p] + s[p + 1..]
  }

  /** Once `x` occurs in `s`, every later element is `x` too (vacuous when `x` is absent). */
  predicate UniformFromFirst(s: seq<int>, x: int)
  {
    forall i, j | 0 <= i <= j < |s| && s[i] == x :: s[j] == x
  }

  /** A sequence equal to itself shifted left by one, refilled with `x`, is all `x` when it starts with `x`. */
  lemma {:induction false} ShiftFixedIsConstant(u: seq<int>, x: int, k: nat)
    requires |u| > 0 && u[0] == x && u[1..] + [x] == u
    requires k < |u|
    ensures u[k] == x
  {
    if k > 0 {
      ShiftFixedIsConstant(u, x, k - 1);
      assert (u[1..] + [x])[k - 1] == u[k];
    }
  }

  /** Where the first `x` of `s` sits at `q`, appending `x` and removing the first `x` rotates `s[q..]` left by one. */
  lemma AppendThenRemoveAt(s: seq<int>, x: int, q: int)
    requires IsFirst(s, q, x)
    ensures RemoveFirst(s + [x], x) == s[..q] + (s[q + 1..] + [x])
  {
    var t := s + [x];
    assert IsFirst(t, q, x);
    assert t[..q] == s[..q];
    assert t[q + 1..] == s[q + 1..] + [x];
  }

  lemma RotationFixedIsUniform(s: seq<int>, x: int, q: int)
    requires IsFirst(s, q, x) && s[q + 1..] + [x] == s[q..]
    ensures UniformFromFirst(s, x)
  {
    forall i, j | 0 <= i <= j < |s| && s[i] == x
      ensures s[j] == x
    {
      ShiftFixedIsConstant(s[q..], x, j - q);
    }
  }

  lemma UniformIsRotationFixed(s: seq<int>, x: int, q: int)
    requires IsFirst(s, q, x) && UniformFromFirst(s, x)
    ensures s[q + 1..] + [x] == s[q..]
  {
    assert forall k | q <= k < |s| :: s[k] == x;
  }

  /**
   Appending `x` and then removing the first `x` gives back exactly the
   original sequence if and only if, once `x` occurs, only `x` follows.
   */
  lemma AppendThenRemoveFirst(s: seq<int>, x: int)
    ensures x in s + [x]
    ensures RemoveFirst(s + [x], x) == s <==> UniformFromFirst(s, x)
  {
    var t := s + [x];
    assert t[|s|] == x;
    if x !in s {
      assert IsFirst(t, |s|, x);
      assert t[..|s|] == s;
    } else {
      var q := Find(s, x).value;
      AppendThenRemoveAt(s, x, q);
      var r := RemoveFirst(t, x);
      assert s == s[..q] + s[q..];
      if r == s {
        assert r[q..] == s[q + 1..] + [x];
        RotationFixedIsUniform(s, x, q);
      }
      if UniformFromFirst(s, x) {
        UniformIsRotationFixed(s, x, q);
      }
    }
  }
}
