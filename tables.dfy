/** Rows addressed to tables.  A schema numbers its tables in the order of
    its list of pending buffers and gives a `tableOf` function from each row
    to the number of the table it belongs to. */
module Tables {
  import opened Seqs
  import opened Xml

  /** The rows of `rows` that belong to table t, in order. */
  function Filter<R>(rows: seq<R>, t: nat, tableOf: R -> nat): seq<R>
  {
    if rows == [] then []
    else Filter(rows[..|rows| - 1], t, tableOf) + (if tableOf(rows[|rows| - 1]) == t then [rows[|rows| - 1]] else [])
  }

  /** A single row is kept exactly when it belongs to the table. */
  lemma FilterSingleton<R>(r: R, t: nat, tableOf: R -> nat)
    ensures Filter([r], t, tableOf) == if tableOf(r) == t then [r] else []
  {
    assert [r][..0] == [];
  }

  /** One more row is kept exactly when it belongs to the table. */
  lemma FilterSnoc<R>(rows: seq<R>, r: R, t: nat, tableOf: R -> nat)
    ensures Filter(rows + [r], t, tableOf) == Filter(rows, t, tableOf) + (if tableOf(r) == t then [r] else [])
  {
    assert (rows + [r])[..|rows|] == rows;
  }

  /** Filtering distributes over concatenation. */
  lemma {:induction false} FilterConcat<R>(a: seq<R>, b: seq<R>, t: nat, tableOf: R -> nat)
    ensures Filter(a + b, t, tableOf) == Filter(a, t, tableOf) + Filter(b, t, tableOf)
    decreases |b|
  {
    if b == [] {
      assert a + b == a;
    } else {
      var b' := b[..|b| - 1];
      assert b == b' + [b[|b| - 1]];
      assert (a + b)[..|a + b| - 1] == a + b';
      FilterConcat(a, b', t, tableOf);
    }
  }

  /** Every row kept by Filter belongs to the table, and Filter keeps them all. */
  lemma {:induction false} FilterBelongs<R>(rows: seq<R>, t: nat, tableOf: R -> nat)
    ensures forall j :: 0 <= j < |Filter(rows, t, tableOf)| ==> tableOf(Filter(rows, t, tableOf)[j]) == t
    ensures (forall j :: 0 <= j < |rows| ==> tableOf(rows[j]) != t) ==> Filter(rows, t, tableOf) == []
  {
    if rows != [] {
      var init := rows[..|rows| - 1];
      FilterBelongs(init, t, tableOf);
      if forall j :: 0 <= j < |rows| ==> tableOf(rows[j]) != t {
        assert forall j :: 0 <= j < |init| ==> init[j] == rows[j];
      }
    }
  }

  /** A loop over children that appends to table t one row g(c) for each child
      c with the given tag, and nothing to t for any other child, leaves in t
      one row per such child, in document order. */
  lemma {:induction false} FilterByTag<R>(cs: seq<Node>, h: Node -> seq<R>, tableOf: R -> nat, t: nat,
                                          tag: string, g: Node -> R)
    requires forall c :: Filter(h(c), t, tableOf) == if c.tag == tag then [g(c)] else []
    ensures Filter(FlatMap(cs, h), t, tableOf) == Map(Select(cs, tag), g)
    decreases |cs|
  {
    if cs != [] {
      var init := cs[..|cs| - 1];
      var c := cs[|cs| - 1];
      FilterByTag(init, h, tableOf, t, tag, g);
      FilterConcat(FlatMap(init, h), h(c), t, tableOf);
      if c.tag == tag {
        assert Select(cs, tag) == Select(init, tag) + [c];
        assert Select(cs, tag)[..|Select(cs, tag)| - 1] == Select(init, tag);
      } else {
        assert Select(cs, tag) == Select(init, tag);
      }
    }
  }

  /** A loop over children that appends to table t the rows k(c) for each
      child c with the given tag, and nothing to t for any other child,
      leaves in t those rows, child after child, in document order. */
  lemma {:induction false} FilterByTagFlat<R>(cs: seq<Node>, h: Node -> seq<R>, tableOf: R -> nat, t: nat,
                                              tag: string, k: Node -> seq<R>)
    requires forall c :: Filter(h(c), t, tableOf) == if c.tag == tag then k(c) else []
    ensures Filter(FlatMap(cs, h), t, tableOf) == FlatMap(Select(cs, tag), k)
    decreases |cs|
  {
    if cs != [] {
      var init := cs[..|cs| - 1];
      var c := cs[|cs| - 1];
      FilterByTagFlat(init, h, tableOf, t, tag, k);
      FilterConcat(FlatMap(init, h), h(c), t, tableOf);
      if c.tag == tag {
        assert Select(cs, tag) == Select(init, tag) + [c];
        FlatMapSnoc(Select(init, tag), c, k);
      } else {
        assert Select(cs, tag) == Select(init, tag);
      }
    }
  }

  /** A loop that appends to table t one row g(c) for every child, whatever
      its tag, leaves in t one row per child, in document order. */
  lemma {:induction false} FilterEach<R>(cs: seq<Node>, h: Node -> seq<R>, tableOf: R -> nat, t: nat, g: Node -> R)
    requires forall c :: Filter(h(c), t, tableOf) == [g(c)]
    ensures Filter(FlatMap(cs, h), t, tableOf) == Map(cs, g)
    decreases |cs|
  {
    if cs != [] {
      var init := cs[..|cs| - 1];
      FilterEach(init, h, tableOf, t, g);
      FilterConcat(FlatMap(init, h), h(cs[|cs| - 1]), t, tableOf);
      assert Map(cs, g)[..|cs| - 1] == Map(init, g);
    }
  }

  /** A loop none of whose children appends to table t leaves t untouched. */
  lemma {:induction false} FilterNone<A, R>(cs: seq<A>, h: A -> seq<R>, tableOf: R -> nat, t: nat)
    requires forall c :: Filter(h(c), t, tableOf) == []
    ensures Filter(FlatMap(cs, h), t, tableOf) == []
    decreases |cs|
  {
    if cs != [] {
      var init := cs[..|cs| - 1];
      FilterNone(init, h, tableOf, t);
      FilterConcat(FlatMap(init, h), h(cs[|cs| - 1]), t, tableOf);
    }
  }

  /** A dispatcher that sends the row of each child to the table its tag
      selects through `tagTable`, distinct tags to distinct tables, leaves in
      the table of one tag one row g(c) per child c with that tag, in
      document order. */
  lemma FilterByTagTable<R>(cs: seq<Node>, h: Node -> seq<R>, tableOf: R -> nat, tagTable: string -> nat,
                            tag: string, g: Node -> R)
    requires forall c: Node, j :: 0 <= j < |h(c)| ==> tableOf(h(c)[j]) == tagTable(c.tag)
    requires forall x :: tagTable(x) == tagTable(tag) ==> x == tag
    requires forall c: Node :: c.tag == tag ==> h(c) == [g(c)]
    ensures Filter(FlatMap(cs, h), tagTable(tag), tableOf) == Map(Select(cs, tag), g)
  {
    var t := tagTable(tag);
    forall c: Node
      ensures Filter(h(c), t, tableOf) == if c.tag == tag then [g(c)] else []
    {
      if c.tag == tag {
        FilterSingleton(g(c), t, tableOf);
      } else {
        FilterBelongs(h(c), t, tableOf);
      }
    }
    FilterByTag(cs, h, tableOf, t, tag, g);
  }

  /** A loop none of whose children appends a row of table t leaves t untouched. */
  lemma FilterOff<A, R>(cs: seq<A>, h: A -> seq<R>, tableOf: R -> nat, t: nat)
    requires forall c: A, j :: 0 <= j < |h(c)| ==> tableOf(h(c)[j]) != t
    ensures Filter(FlatMap(cs, h), t, tableOf) == []
  {
    forall c: A
      ensures Filter(h(c), t, tableOf) == []
    {
      FilterBelongs(h(c), t, tableOf);
    }
    FilterNone(cs, h, tableOf, t);
  }

  /** Filtering the output of a loop is the loop of the filtered outputs. */
  lemma {:induction false} FilterFlatMap<A, R>(xs: seq<A>, h: A -> seq<R>, tableOf: R -> nat, t: nat)
    ensures Filter(FlatMap(xs, h), t, tableOf) == FlatMap(xs, x => Filter(h(x), t, tableOf))
    decreases |xs|
  {
    if xs != [] {
      var init := xs[..|xs| - 1];
      FilterFlatMap(init, h, tableOf, t);
      FilterConcat(FlatMap(init, h), h(xs[|xs| - 1]), t, tableOf);
    }
  }
}
