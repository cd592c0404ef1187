/** Sets of rows: their sizes, their images, and the pigeonhole principle. */
module Sets {
  function Elements<T>(s: seq<T>): set<T> {
    set x | x in s
  }

  predicate Distinct<T(==)>(s: seq<T>) {
    forall i, j :: 0 <= i < j < |s| ==> s[i] != s[j]
  }

  lemma {:induction false} SizeOfElements<T>(s: seq<T>)
    ensures |Elements(s)| <= |s|
    ensures |Elements(s)| == |s| <==> Distinct(s)
  {
    if s != [] {
      var head, tail := s[0], s[1..];
      SizeOfElements(tail);
      assert s == [head] + tail;
      assert Elements(s) == {head} + Elements(tail);
      if head in tail {
        assert Elements(s) == Elements(tail);
        var i :| 0 <= i < |tail| && tail[i] == head;
        assert s[i + 1] == s[0];
      } else {
        forall i, j | 0 <= i < j < |s| && Distinct(tail)
          ensures s[i] != s[j]
        {
          assert s[j] == tail[j - 1];
          assert i > 0 ==> s[i] == tail[i - 1];
        }
        if Distinct(s) {
          forall i, j | 0 <= i < j < |tail|
            ensures tail[i] != tail[j]
          {
            assert s[i + 1] == tail[i] && s[j + 1] == tail[j];
          }
        }
      }
    }
  }

  lemma SubsetIsSmaller<T>(a: set<T>, b: set<T>)
    requires a <= b
    ensures |a| <= |b|
    decreases |a|
  {
    if x :| x in a {
      SubsetIsSmaller(a - {x}, b - {x});
    }
  }

  /** Pigeonholes: a subset as large as the whole is the whole. */
  lemma {:induction false} FullSubset<T>(a: set<T>, b: set<T>)
    requires a <= b && |a| == |b|
    ensures a == b
  {
    if a != {} {
      var x :| x in a;
      FullSubset(a - {x}, b - {x});
      assert a == (a - {x}) + {x} && b == (b - {x}) + {x};
    }
  }

  lemma FewerLeft<T>(todo: set<T>, x: T)
    requires x in todo
    ensures |todo - {x}| < |todo|
  {
  }

  /** The rows after each has been rewritten. */
  ghost function Image<A(!new), B(!new)>(rows: set<A>, f: A -> B): set<B> {
    set a | a in rows :: f(a)
  }

  /** An injective change of rows loses none and makes none. */
  lemma {:induction false} SameSize<A(!new), B(!new)>(rows: set<A>, f: A -> B)
    requires forall a, b :: a in rows && b in rows && f(a) == f(b) ==> a == b
    ensures |Image(rows, f)| == |rows|
    decreases |rows|
  {
    if rows != {} {
      var x :| x in rows;
      var rest := rows - {x};
      SameSize(rest, f);
      assert Image(rows, f) == Image(rest, f) + {f(x)};
    }
  }
}
