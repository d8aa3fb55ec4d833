/** Failure-carrying types shared by every module of the project. */
module Wrappers {

  datatype Option<+T> = None | Some(value: T)

  datatype Result<+T, +E> = Ok(value: T) | Err(error: E)
}

/** Facts about finite sets that several modules need. */
module Sets {

  lemma NoMembers<T(!new)>(s: set<T>)
    requires forall x :: x !in s
    ensures s == {}
  {
  }

  lemma SomeMember(s: set<int>)
    requires s != {}
    ensures exists x :: x in s
  {
    if forall x :: x !in s {
      NoMembers(s);
    }
  }

  lemma {:induction false} SmallestExists(s: set<int>)
    requires s != {}
    ensures exists t :: t in s && forall u <- s :: t <= u
  {
    SomeMember(s);
    var x :| x in s;
    if s != {x} {
      SmallestExists(s - {x});
      var t :| t in s - {x} && forall u <- s - {x} :: t <= u;
      assert forall u <- s :: u == x || u in s - {x};
      assert if x <= t then x in s && forall u <- s :: x <= u else t in s && forall u <- s :: t <= u;
    }
  }

  lemma UnionSize<T>(a: set<T>, b: set<T>)
    requires a !! b
    ensures |a + b| == |a| + |b|
  {
  }

  /** A union is as large as its parts together exactly when they have nothing in common. */
  lemma UnionSizeExactly<T>(a: set<T>, b: set<T>)
    ensures |a + b| <= |a| + |b|
    ensures |a + b| == |a| + |b| <==> a !! b
  {
    UnionSize(a - b, b);
    UnionSize(a - b, a * b);
    assert (a - b) + b == a + b && (a - b) + (a * b) == a;
  }

  lemma SubsetSize<T>(a: set<T>, b: set<T>)
    requires a <= b
    ensures |a| <= |b|
  {
    assert b == a + (b - a);
    UnionSize(a, b - a);
  }
}
