/** Counting facts about finite sets, shared by the two rank computations. */
module Sets {

  /** An injective image of a finite set has as many elements as the set. */
  lemma {:induction false} InjectiveImageCard<A, B>(s: set<A>, f: A -> B, img: set<B>)
    requires forall x, y :: x in s && y in s && f(x) == f(y) ==> x == y
    requires forall x :: x in s ==> f(x) in img
    requires forall y :: y in img ==> exists x :: x in s && f(x) == y
    ensures |img| == |s|
    decreases |s|
  {
    if s == {} {
      assert forall y :: y !in img;
    } else {
      var a :| a in s;
      forall y | y in img - {f(a)} ensures exists x :: x in s - {a} && f(x) == y {
        var x :| x in s && f(x) == y;
      }
      InjectiveImageCard(s - {a}, f, img - {f(a)});
    }
  }

  /** The set of naturals below `n`. */
  function Below(n: nat): (r: set<nat>)
    ensures |r| == n
    ensures forall j :: j in r <==> 0 <= j < n
  {
    if n == 0 then {} else Below(n - 1) + {n - 1}
  }

  /** Some element of a non-empty set, chosen by the caller's runtime. */
  method Pick<T>(s: set<T>) returns (x: T)
    requires s != {}
    ensures x in s
  {
    x :| x in s;
  }
}
