/** Sequence combinators used to describe, in order, the rows a loop appends. */
module Seqs {

  /** The concatenation of f(x) for every x of xs, in order.  Defined from the
      right end so that it unfolds the way a loop over xs extends its output. */
  function FlatMap<A, B>(xs: seq<A>, f: A -> seq<B>): seq<B>
  {
    if xs == [] then [] else FlatMap(xs[..|xs| - 1], f) + f(xs[|xs| - 1])
  }

  /** The blocks of xss joined end to end, in order. */
  function Flatten<A>(xss: seq<seq<A>>): seq<A>
  {
    if xss == [] then [] else Flatten(xss[..|xss| - 1]) + xss[|xss| - 1]
  }

  /** g applied to every element of xs, in order. */
  function Map<A, B>(xs: seq<A>, g: A -> B): (r: seq<B>)
    ensures |r| == |xs|
    ensures forall j :: 0 <= j < |xs| ==> r[j] == g(xs[j])
  {
    if xs == [] then [] else Map(xs[..|xs| - 1], g) + [g(xs[|xs| - 1])]
  }

  /** One more element of input extends Map by that element's image. */
  lemma MapSnoc<A, B>(xs: seq<A>, x: A, g: A -> B)
    ensures Map(xs + [x], g) == Map(xs, g) + [g(x)]
  {
    assert (xs + [x])[..|xs|] == xs;
  }

  /** One more element of input extends FlatMap by that element's image. */
  lemma FlatMapSnoc<A, B>(xs: seq<A>, x: A, f: A -> seq<B>)
    ensures FlatMap(xs + [x], f) == FlatMap(xs, f) + f(x)
  {
    assert (xs + [x])[..|xs|] == xs;
  }

  /** FlatMap distributes over concatenation of its input. */
  lemma {:induction false} FlatMapConcat<A, B>(xs: seq<A>, ys: seq<A>, f: A -> seq<B>)
    ensures FlatMap(xs + ys, f) == FlatMap(xs, f) + FlatMap(ys, f)
    decreases |ys|
  {
    if ys == [] {
      assert xs + ys == xs;
    } else {
      var ys' := ys[..|ys| - 1];
      var y := ys[|ys| - 1];
      assert ys == ys' + [y];
      assert xs + ys == (xs + ys') + [y];
      FlatMapSnoc(xs + ys', y, f);
      FlatMapSnoc(ys', y, f);
      FlatMapConcat(xs, ys', f);
    }
  }

  /** Every element of a FlatMap satisfies P when every element of every
      image does. */
  lemma {:induction false} FlatMapAll<A, B>(xs: seq<A>, f: A -> seq<B>, P: B -> bool)
    requires forall x, j :: 0 <= j < |f(x)| ==> P(f(x)[j])
    ensures forall j :: 0 <= j < |FlatMap(xs, f)| ==> P(FlatMap(xs, f)[j])
    decreases |xs|
  {
    if xs != [] {
      var init := xs[..|xs| - 1];
      FlatMapAll(init, f, P);
      var a, b := FlatMap(init, f), f(xs[|xs| - 1]);
      assert forall j :: |a| <= j < |a + b| ==> (a + b)[j] == b[j - |a|];
    }
  }
}
