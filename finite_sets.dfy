/**
 * Helper facts about finite sets that the proofs lean on: a non-empty set has an element, a
 * one-element set is that element, an injective image is as large as its source, and the number of keys a walk has left to visit shrinks
 * as it visits more of them. None of them models the engine.
 */
module FiniteSets {
  /** A non-empty set has an element. */
  lemma SomeElement<T>(s: set<T>) returns (x: T)
    requires s != {}
    ensures x in s
  {
    x :| x in s;
  }

  /** A set of one element that holds `x` is `{x}`. */
  lemma SingletonIs<T>(s: set<T>, x: T)
    requires |s| == 1 && x in s
    ensures s == {x}
  {
    var rest := s - {x};
    assert |rest| == 0;
  }

  /** A set of one element has no two different members. */
  lemma SingletonUnique<T>(s: set<T>)
    requires |s| == 1
    ensures forall a, b :: a in s && b in s ==> a == b
  {
    forall a, b | a in s && b in s ensures a == b {
      SingletonIs(s, a);
    }
  }

  /** No more keys are left to visit once more are visited. */
  lemma NoMoreLeft<T>(keys: set<T>, visited: set<T>, done: set<T>)
    requires visited <= done
    ensures |keys - done| <= |keys - visited|
  {
    var left, rest := keys - visited, keys - done;
    assert left == rest + (left - rest) && rest * (left - rest) == {};
  }

  /** Taking a member out of a set makes it smaller. */
  lemma OneFewer<T>(s: set<T>, c: T)
    requires c in s
    ensures |s - {c}| < |s|
  {
  }

  /** Fewer keys are left to visit once `c` is visited too. */
  lemma FewerLeft<T>(keys: set<T>, visited: set<T>, done: set<T>, c: T)
    requires visited <= done && c in keys && c !in done
    ensures |keys - (done + {c})| < |keys - visited|
  {
    var left, rest := keys - visited, keys - (done + {c});
    var gone := left - rest;
    assert c in gone;
    assert left == rest + gone && rest * gone == {};
  }

  /** An injective image of a finite set has as many elements as the set. */
  lemma {:induction false} ImageSize<A, B>(s: set<A>, img: set<B>, f: A -> B)
    requires forall i, j :: i in s && j in s && i != j ==> f(i) != f(j)
    requires forall i :: i in s ==> f(i) in img
    requires forall y :: y in img ==> exists i :: i in s && f(i) == y
    ensures |img| == |s|
    decreases |s|
  {
    if s != {} {
      var x := SomeElement(s);
      var rest := s - {x};
      var imgRest := img - {f(x)};
      forall y | y in imgRest ensures exists i :: i in rest && f(i) == y {
        var i :| i in s && f(i) == y;
        assert i != x;
      }
      ImageSize(rest, imgRest, f);
    } else if img != {} {
      var y := SomeElement(img);
      assert false;
    }
  }
}
