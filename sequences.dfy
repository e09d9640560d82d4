/** Operations on the id lists kept under the index keys. */
module Sequences {

  ghost predicate NoDup<T>(s: seq<T>)
  {
    forall i, j :: 0 <= i < j < |s| ==> s[i] != s[j]
  }

  /** `Array.prototype.indexOf`: the first position of `x` in `s`, or -1 when absent. */
  function IndexOf<T(==)>(s: seq<T>, x: T): (i: int)
    ensures -1 <= i < |s|
    ensures i == -1 <==> x !in s
    ensures 0 <= i ==> s[i] == x && x !in s[..i]
  {
    if s == [] then -1
    else if s[0] == x then 0
    else
      var j := IndexOf(s[1..], x);
      if j == -1 then -1
      else
        assert s[..j + 1] == [s[0]] + s[1..][..j];
        j + 1
  }

  /** Reference definition: `s` without the first occurrence of `x` (unchanged if none). */
  function RemoveFirst<T(==)>(s: seq<T>, x: T): seq<T>
  {
    if s == [] then []
    else if s[0] == x then s[1..]
    else [s[0]] + RemoveFirst(s[1..], x)
  }

  /** Splicing out the element at `IndexOf(s, x)` (when it is not -1) is `RemoveFirst`. */
  lemma {:induction false} SpliceIsRemoveFirst<T>(s: seq<T>, x: T)
    ensures var i := IndexOf(s, x);
            RemoveFirst(s, x) == if i == -1 then s else s[..i] + s[i + 1..]
  {
    if s != [] && s[0] != x {
      var t := s[1..];
      SpliceIsRemoveFirst(t, x);
      var j := IndexOf(t, x);
      assert IndexOf(s, x) == if j == -1 then -1 else j + 1;
      if j == -1 {
        assert RemoveFirst(s, x) == [s[0]] + t == s;
      } else {
        assert RemoveFirst(t, x) == t[..j] + t[j + 1..];
        assert s[..j + 1] == [s[0]] + t[..j];
        assert s[j + 2..] == t[j + 1..];
      }
    }
  }

  /** Exactly one copy of `x` disappears when `x` occurs; nothing else changes in number. */
  lemma {:induction false} RemoveFirstCounts<T>(s: seq<T>, x: T)
    ensures multiset(RemoveFirst(s, x)) == multiset(s) - multiset{x}
    ensures x in s ==> |RemoveFirst(s, x)| == |s| - 1
    ensures x !in s ==> RemoveFirst(s, x) == s
  {
    if s != [] {
      assert s == [s[0]] + s[1..];
      if s[0] != x {
        RemoveFirstCounts(s[1..], x);
      }
    }
  }

  /** Removing an element never introduces a new one. */
  lemma {:induction false} RemoveFirstSubset<T>(s: seq<T>, x: T)
    ensures forall y :: y in RemoveFirst(s, x) ==> y in s
  {
    if s != [] && s[0] != x {
      RemoveFirstSubset(s[1..], x);
    }
  }

  /** On a duplicate-free list, removing the first occurrence removes every occurrence. */
  lemma {:induction false} RemoveFirstDistinct<T>(s: seq<T>, x: T)
    requires NoDup(s)
    ensures NoDup(RemoveFirst(s, x))
    ensures x !in RemoveFirst(s, x)
    ensures forall y :: y in RemoveFirst(s, x) ==> y in s
  {
    RemoveFirstSubset(s, x);
    if s != [] {
      var t := s[1..];
      assert forall i :: 0 <= i < |t| ==> t[i] == s[i + 1];
      assert s[0] !in t;
      if s[0] != x {
        RemoveFirstDistinct(t, x);
        RemoveFirstSubset(t, x);
        var r := RemoveFirst(t, x);
        assert RemoveFirst(s, x) == [s[0]] + r;
        assert s[0] !in r;
      }
    }
  }
}
