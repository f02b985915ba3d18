/** Python's `sorted` and `bisect_left` on exact numbers. */
module Sorting {

  predicate IsSorted(s: seq<real>) {
    forall i, j :: 0 <= i < j < |s| ==> s[i] <= s[j]
  }

  function Insert(x: real, s: seq<real>): (r: seq<real>)
    requires IsSorted(s)
    ensures IsSorted(r) && |r| == |s| + 1
    ensures forall i :: 0 <= i < |r| ==> r[i] >= if s == [] || x <= s[0] then x else s[0]
  {
    if s == [] || x <= s[0] then [x] + s else [s[0]] + Insert(x, s[1..])
  }

  function Sorted(s: seq<real>): (r: seq<real>)
    ensures IsSorted(r) && |r| == |s|
  {
    if s == [] then [] else Insert(s[0], Sorted(s[1..]))
  }

  lemma {:induction false} InsertAdds(x: real, s: seq<real>)
    requires IsSorted(s)
    ensures multiset(Insert(x, s)) == multiset(s) + multiset{x}
  {
    if s != [] && x > s[0] {
      InsertAdds(x, s[1..]);
      assert s == [s[0]] + s[1..];
    }
  }

  lemma {:induction false} SortedPermutes(s: seq<real>)
    ensures multiset(Sorted(s)) == multiset(s)
  {
    hide Insert;
    if s != [] {
      SortedPermutes(s[1..]);
      InsertAdds(s[0], Sorted(s[1..]));
      assert s == [s[0]] + s[1..];
      assert multiset(s) == multiset{s[0]} + multiset(s[1..]);
    }
  }

  lemma SortedMembers(s: seq<real>, x: real)
    ensures x in Sorted(s) <==> x in s
  {
    SortedPermutes(s);
    assert x in Sorted(s) <==> x in multiset(Sorted(s));
    assert x in s <==> x in multiset(s);
  }

  /** How many elements are at most `b`. */
  function CountAtMost(s: seq<real>, b: real): (c: nat)
    ensures c <= |s|
  {
    if s == [] then 0 else (if s[0] <= b then 1 else 0) + CountAtMost(s[1..], b)
  }

  lemma {:induction false} CountAppend(s: seq<real>, t: seq<real>, b: real)
    ensures CountAtMost(s + t, b) == CountAtMost(s, b) + CountAtMost(t, b)
  {
    if s == [] {
      assert s + t == t;
    } else {
      assert (s + t)[1..] == s[1..] + t;
      CountAppend(s[1..], t, b);
    }
  }

  lemma {:induction false} CountInsert(x: real, s: seq<real>, b: real)
    requires IsSorted(s)
    ensures CountAtMost(Insert(x, s), b) == CountAtMost(s, b) + if x <= b then 1 else 0
  {
    if s == [] || x <= s[0] {
      assert ([x] + s)[1..] == s;
    } else {
      CountInsert(x, s[1..], b);
      assert ([s[0]] + Insert(x, s[1..]))[1..] == Insert(x, s[1..]);
    }
  }

  lemma {:induction false} CountSorted(s: seq<real>, b: real)
    ensures CountAtMost(Sorted(s), b) == CountAtMost(s, b)
  {
    if s != [] {
      CountSorted(s[1..], b);
      CountInsert(s[0], Sorted(s[1..]), b);
    }
  }

  /** In sorted order the elements at most `b` are the first ones. */
  lemma {:induction false} SortedPrefix(s: seq<real>, b: real, k: nat)
    requires IsSorted(s) && k < |s|
    ensures s[k] <= b <==> k < CountAtMost(s, b)
  {
    if s[0] > b {
      NoneAtMost(s, b);
    } else if k > 0 {
      SortedPrefix(s[1..], b, k - 1);
    }
  }

  lemma {:induction false} NoneAtMost(s: seq<real>, b: real)
    requires forall i :: 0 <= i < |s| ==> s[i] > b
    ensures CountAtMost(s, b) == 0
  {
    if s != [] {
      NoneAtMost(s[1..], b);
    }
  }

  /** `bisect.bisect_left`. */
  method BisectLeft(s: seq<real>, x: real) returns (index: nat)
    requires IsSorted(s)
    ensures index <= |s|
    ensures forall i :: 0 <= i < index ==> s[i] < x
    ensures forall i :: index <= i < |s| ==> s[i] >= x
  {
    var lo, hi := 0, |s|;
    while lo < hi
      invariant 0 <= lo <= hi <= |s|
      invariant forall i :: 0 <= i < lo ==> s[i] < x
      invariant forall i :: hi <= i < |s| ==> s[i] >= x
    {
      var mid := (lo + hi) / 2;
      if s[mid] < x {
        lo := mid + 1;
      } else {
        hi := mid;
      }
    }
    index := lo;
  }
}
