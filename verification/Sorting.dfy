/** The unstable sorts the program calls. Callers learn that the result is some
    ordered rearrangement, never which one. */
module Sorting {

  ghost predicate TotalPreorder<T(!new)>(le: (T, T) -> bool) {
    && (forall a, b :: le(a, b) || le(b, a))
    && (forall a, b, c :: le(a, b) && le(b, c) ==> le(a, c))
  }

  ghost predicate Sorted<T>(s: seq<T>, le: (T, T) -> bool) {
    forall i, j :: 0 <= i < j < |s| ==> le(s[i], s[j])
  }

  lemma InsertedAt<T(!new)>(x: T, s: seq<T>, i: nat, le: (T, T) -> bool)
    requires TotalPreorder(le) && Sorted(s, le) && i <= |s|
    requires forall j :: 0 <= j < i ==> le(s[j], x)
    requires i < |s| ==> le(x, s[i])
    ensures Sorted(s[..i] + [x] + s[i..], le)
    ensures multiset(s[..i] + [x] + s[i..]) == multiset(s) + multiset{x}
  {
    assert s == s[..i] + s[i..];
    forall j | i <= j < |s|
      ensures le(x, s[j])
    {
      assert le(s[i], s[j]) || i == j;
    }
  }

  method Insert<T(!new)>(x: T, s: seq<T>, le: (T, T) -> bool) returns (t: seq<T>)
    requires TotalPreorder(le) && Sorted(s, le)
    ensures Sorted(t, le)
    ensures multiset(t) == multiset(s) + multiset{x}
  {
    var i := 0;
    while i < |s| && le(s[i], x)
      invariant 0 <= i <= |s|
      invariant forall j :: 0 <= j < i ==> le(s[j], x)
    {
      i := i + 1;
    }
    InsertedAt(x, s, i, le);
    t := s[..i] + [x] + s[i..];
  }

  method SortUnstable<T(!new)>(s: seq<T>, le: (T, T) -> bool) returns (t: seq<T>)
    requires TotalPreorder(le)
    ensures Sorted(t, le)
    ensures multiset(t) == multiset(s)
  {
    t := [];
    for i := 0 to |s|
      invariant Sorted(t, le)
      invariant multiset(t) == multiset(s[..i])
    {
      assert s[..i + 1] == s[..i] + [s[i]];
      t := Insert(s[i], t, le);
    }
    assert s[..|s|] == s;
  }

  lemma TailsSame<T>(s: seq<T>, t: seq<T>)
    requires s != [] && t != [] && s[0] == t[0] && multiset(s) == multiset(t)
    ensures multiset(s[1..]) == multiset(t[1..])
  {
    assert s == [s[0]] + s[1..] && t == [t[0]] + t[1..];
    assert multiset(s[1..]) == multiset(s) - multiset{s[0]} && multiset(t[1..]) == multiset(t) - multiset{t[0]};
  }

  ghost predicate Ranked<T(!new)>(s: seq<T>, le: (T, T) -> bool) {
    Sorted(s, le) && forall a, b :: a in s && b in s && le(a, b) && le(b, a) ==> a == b
  }

  lemma TailRanked<T(!new)>(s: seq<T>, le: (T, T) -> bool)
    requires s != [] && Ranked(s, le)
    ensures Ranked(s[1..], le)
  {
    assert forall a :: a in s[1..] ==> a in s;
  }

  lemma FirstSame<T(!new)>(s: seq<T>, t: seq<T>, le: (T, T) -> bool)
    requires TotalPreorder(le) && Ranked(s, le) && Sorted(t, le) && s != [] && t != []
    requires forall a :: a in s <==> a in t
    ensures s[0] == t[0]
  {
    assert s[0] in t && t[0] in s;
    assert le(s[0], t[0]) && le(t[0], s[0]);
  }

  /** Where only equals are of one rank, there is one ordered rearrangement. */
  lemma {:induction false} SortedSame<T(!new)>(s: seq<T>, t: seq<T>, le: (T, T) -> bool)
    requires TotalPreorder(le) && Ranked(s, le) && Ranked(t, le) && multiset(s) == multiset(t)
    ensures s == t
    decreases |s|
  {
    SameElements(s, t);
    if s == [] {
      assert t == [];
    } else {
      FirstSame(s, t, le);
      TailsSame(s, t);
      TailRanked(s, le);
      TailRanked(t, le);
      SortedSame(s[1..], t[1..], le);
    }
  }

  /** A rearrangement has the same elements. */
  lemma SameElements<T>(s: seq<T>, t: seq<T>)
    requires multiset(s) == multiset(t)
    ensures |s| == |t|
    ensures forall x :: x in s <==> x in t
  {
    assert |multiset(s)| == |multiset(t)|;
    forall x
      ensures x in s <==> x in t
    {
      assert x in s <==> x in multiset(s);
      assert x in t <==> x in multiset(t);
    }
  }
}
