/**
 * The Cartesian product of lists, in the order `itertools.product` yields
 * it: the first list varies slowest.
 */
module Products {

  import opened Seqs
  import opened Combinations

  /** Every `[x] + p` for `x` in `xs` (outer) and `p` in `ps` (inner). */
  function ProductWith<T>(xs: seq<T>, ps: seq<seq<T>>): seq<seq<T>> {
    if xs == [] then [] else PrependAll(xs[0], ps) + ProductWith(xs[1..], ps)
  }

  /** The product has as many tuples as the product of the lists' lengths. */
  function Product<T>(ls: seq<seq<T>>): (r: seq<seq<T>>)
    ensures |r| == ProductSize(ls)
  {
    if ls == [] then [[]]
    else
      ProductWithLength(ls[0], Product(ls[1..]));
      ProductWith(ls[0], Product(ls[1..]))
  }

  /** The product of the lists' lengths. */
  function ProductSize<T>(ls: seq<seq<T>>): nat {
    if ls == [] then 1 else |ls[0]| * ProductSize(ls[1..])
  }

  /** Entry `a * |ps| + b` is the a-th outer value before the b-th inner tuple. */
  lemma {:induction false} ProductWithAt<T>(xs: seq<T>, ps: seq<seq<T>>, a: nat, b: nat)
    requires a < |xs| && b < |ps|
    ensures |ProductWith(xs, ps)| == |xs| * |ps|
    ensures a * |ps| + b < |xs| * |ps|
    ensures ProductWith(xs, ps)[a * |ps| + b] == [xs[a]] + ps[b]
  {
    ProductWithLength(xs, ps);
    if a > 0 {
      ProductWithAt(xs[1..], ps, a - 1, b);
      assert (a - 1) * |ps| + b + |ps| == a * |ps| + b;
    }
  }

  lemma {:induction false} ProductWithLength<T>(xs: seq<T>, ps: seq<seq<T>>)
    ensures |ProductWith(xs, ps)| == |xs| * |ps|
  {
    if xs != [] {
      ProductWithLength(xs[1..], ps);
      assert |xs| * |ps| == (|xs| - 1) * |ps| + |ps|;
    }
  }

  /** Every tuple has one entry per list, the i-th taken from the i-th list. */
  lemma {:induction false} ProductShape<T>(ls: seq<seq<T>>)
    ensures forall t :: t in Product(ls) ==>
      |t| == |ls| && forall i :: 0 <= i < |ls| ==> t[i] in ls[i]
  {
    if ls != [] {
      ProductShape(ls[1..]);
      ProductWithShape(ls[0], Product(ls[1..]));
      forall t | t in Product(ls) ensures |t| == |ls| && forall i :: 0 <= i < |ls| ==> t[i] in ls[i] {
        assert t[1..] in Product(ls[1..]);
        forall i | 1 <= i < |ls| ensures t[i] in ls[i] {
          assert t[i] == t[1..][i - 1];
        }
      }
    }
  }

  lemma {:induction false} ProductWithShape<T>(xs: seq<T>, ps: seq<seq<T>>)
    ensures forall t :: t in ProductWith(xs, ps) ==> |t| >= 1 && t[0] in xs && t[1..] in ps
  {
    if xs != [] {
      ProductWithShape(xs[1..], ps);
      forall t | t in ProductWith(xs, ps) ensures |t| >= 1 && t[0] in xs && t[1..] in ps {
        if t in PrependAll(xs[0], ps) {
          var i :| 0 <= i < |ps| && t == [xs[0]] + ps[i];
          assert t[1..] == ps[i];
        } else {
          assert t in ProductWith(xs[1..], ps);
        }
      }
    }
  }

  /** Conversely, every such tuple occurs in the product. */
  lemma {:induction false} ProductComplete<T>(ls: seq<seq<T>>, t: seq<T>)
    requires |t| == |ls| && forall i :: 0 <= i < |ls| ==> t[i] in ls[i]
    ensures t in Product(ls)
  {
    if ls != [] {
      assert forall i :: 0 <= i < |ls| - 1 ==> t[1..][i] == t[i + 1] && ls[1..][i] == ls[i + 1];
      ProductComplete(ls[1..], t[1..]);
      var p := Product(ls[1..]);
      var a :| 0 <= a < |ls[0]| && ls[0][a] == t[0];
      var b :| 0 <= b < |p| && p[b] == t[1..];
      ProductWithAt(ls[0], p, a, b);
      assert t == [t[0]] + t[1..];
    }
  }

  lemma {:induction false} ProductWithDistinct<T>(xs: seq<T>, ps: seq<seq<T>>)
    requires Distinct(xs) && Distinct(ps)
    ensures Distinct(ProductWith(xs, ps))
  {
    if xs != [] {
      ProductWithDistinct(xs[1..], ps);
      ProductWithShape(xs[1..], ps);
      PrependAllDistinct(xs[0], ps);
      var head := PrependAll(xs[0], ps);
      var tail := ProductWith(xs[1..], ps);
      forall i, j | 0 <= i < |head| && 0 <= j < |tail| ensures head[i] != tail[j] {
        assert tail[j] in tail;
        assert xs[0] !in xs[1..];
      }
      DistinctConcat(head, tail);
    }
  }

  /** Lists without repetitions give a product without repetitions. */
  lemma {:induction false} ProductDistinct<T>(ls: seq<seq<T>>)
    requires forall i :: 0 <= i < |ls| ==> Distinct(ls[i])
    ensures Distinct(Product(ls))
  {
    if ls != [] {
      ProductDistinct(ls[1..]);
      ProductWithDistinct(ls[0], Product(ls[1..]));
    }
  }
}
