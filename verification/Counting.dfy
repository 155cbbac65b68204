/** Counting through one-to-one maps. */
module Counting {

  ghost predicate Injective<A(!new), B(!new)>(f: map<A, B>) {
    forall a, b :: a in f && b in f && f[a] == f[b] ==> a == b
  }

  function Image<A, B>(f: map<A, B>): set<B> {
    set a | a in f :: f[a]
  }

  lemma ImageHas<A, B>(f: map<A, B>, b: B) returns (a: A)
    requires b in Image(f)
    ensures a in f && f[a] == b
  {
    a :| a in f && f[a] == b;
  }

  lemma ImageWithout<A, B>(f: map<A, B>, a: A)
    requires a in f
    ensures |f - {a}| == |f| - 1
    ensures Image(f) == Image(f - {a}) + {f[a]}
  {
    var rest := f - {a};
    assert rest.Keys == f.Keys - {a};
    forall b | b in Image(f)
      ensures b in Image(rest) + {f[a]}
    {
      var x :| x in f && f[x] == b;
      assert x != a ==> x in rest && rest[x] == b;
    }
    forall b | b in Image(rest)
      ensures b in Image(f)
    {
      var x :| x in rest && rest[x] == b;
      assert x in f && f[x] == b;
    }
  }

  lemma {:induction false} ImageSmaller<A(!new), B(!new)>(f: map<A, B>)
    ensures |Image(f)| <= |f|
    ensures Injective(f) ==> |Image(f)| == |f|
    decreases |f|
  {
    if f == map[] {
      assert Image(f) == {};
    } else {
      var a :| a in f;
      var rest := f - {a};
      ImageSmaller(rest);
      ImageWithout(f, a);
      if Injective(f) {
        assert Injective(rest) by {
          assert forall x :: x in rest ==> x in f && rest[x] == f[x];
        }
        assert f[a] !in Image(rest);
      }
    }
  }

  /** What two maps come to, together: no more than both have, and as many if they are
      one-to-one and come to different things. */
  lemma BothImages<A(!new), B(!new), D(!new)>(f: map<A, B>, g: map<D, B>)
    ensures |Image(f) + Image(g)| <= |f| + |g|
    ensures Injective(f) && Injective(g) && Image(f) !! Image(g) ==> |Image(f) + Image(g)| == |f| + |g|
  {
    ImageSmaller(f);
    ImageSmaller(g);
    assert Image(f) + Image(g) == Image(f) + (Image(g) - Image(f));
  }

  /** The pigeonhole: a map into a set of its own size is one-to-one exactly if
      it is onto. */
  lemma {:induction false} OneToOneIsOnto<A(!new), B(!new)>(f: map<A, B>, onto: set<B>)
    requires Image(f) <= onto && |f| == |onto|
    ensures Injective(f) <==> Image(f) == onto
  {
    ImageSmaller(f);
    if Injective(f) {
      Fills(Image(f), onto);
    }
    if Image(f) == onto {
      if a, b :| a in f && b in f && f[a] == f[b] && a != b {
        RepeatedShrinks(f, a, b);
      }
    }
  }

  lemma RepeatedShrinks<A(!new), B(!new)>(f: map<A, B>, a: A, b: A)
    requires a in f && b in f && f[a] == f[b] && a != b
    ensures |Image(f)| < |f|
  {
    ImageWithout(f, a);
    ImageSmaller(f - {a});
    assert b in f - {a} && (f - {a})[b] == f[a];
  }

  lemma Fills<B>(s: set<B>, t: set<B>)
    requires s <= t && |s| == |t|
    ensures s == t
  {
    assert |t - s| == |t| - |s|;
  }
}
