/** The surrogate-key discipline of the JMdict driver: every counter ends at
    the number of elements of its family, the rows of a referenced table own
    the keys 1, 2, ..., n in order, and every foreign key names one of them. */
module JmdictKeys {
  import opened Seqs
  import opened Xml
  import opened Tables
  import opened JmdictRows
  import opened JmdictSpec

  // ---- keys over sequences of rows ----

  /** Owned keys distribute over concatenation. */
  lemma {:induction false} OwnKeysConcat(a: seq<JRow>, b: seq<JRow>, f: Family)
    ensures OwnKeys(a + b, f) == OwnKeys(a, f) + OwnKeys(b, f)
    decreases |b|
  {
    if b == [] {
      assert a + b == a;
    } else {
      var b' := b[..|b| - 1];
      assert (a + b)[..|a + b| - 1] == a + b';
      OwnKeysConcat(a, b', f);
    }
  }

  /** Rows none of which owns a key of f own no key of f. */
  lemma {:induction false} OwnKeysNone(rows: seq<JRow>, f: Family)
    requires forall j :: 0 <= j < |rows| ==> OwnKey(rows[j], f) == None
    ensures OwnKeys(rows, f) == []
  {
    if rows != [] {
      var init := rows[..|rows| - 1];
      assert forall j :: 0 <= j < |init| ==> init[j] == rows[j];
      OwnKeysNone(init, f);
    }
  }

  /** As many rows own a key of f as there are rows in f's table. */
  lemma {:induction false} OwnKeysCount(rows: seq<JRow>, f: Family)
    ensures |OwnKeys(rows, f)| == |Filter(rows, FamilyTable(f), TableOf)|
  {
    if rows != [] {
      OwnKeysCount(rows[..|rows| - 1], f);
      OwnKeyTable(rows[|rows| - 1], f);
    }
  }

  /** Every foreign key of family f in `rows` lies in lo + 1 .. hi. */
  ghost predicate ForeignKeysWithin(rows: seq<JRow>, f: Family, lo: nat, hi: nat)
  {
    forall j :: 0 <= j < |rows| && ForeignKey(rows[j], f).Some? ==> lo < ForeignKey(rows[j], f).value <= hi
  }

  lemma ForeignKeysWithinConcat(a: seq<JRow>, b: seq<JRow>, f: Family, lo: nat, hi: nat)
    requires ForeignKeysWithin(a, f, lo, hi) && ForeignKeysWithin(b, f, lo, hi)
    ensures ForeignKeysWithin(a + b, f, lo, hi)
  {
    assert forall j :: |a| <= j < |a + b| ==> (a + b)[j] == b[j - |a|];
  }

  // ---- the dispatchers ----

  /** A row appended for a child of an element of family `fam` with key
      pk: it owns no key and references pk, as a key of `fam` only. */
  ghost predicate ChildRow(r: JRow, fam: Family, pk: nat)
  {
    forall f :: OwnKey(r, f) == None && ForeignKey(r, f) == if f == fam then Some(pk) else None
  }

  lemma KEleChildRows(pk: nat, c: Node)
    ensures forall j :: 0 <= j < |KEleChild(pk, c)| ==> ChildRow(KEleChild(pk, c)[j], KEleKeys, pk)
  {
  }

  lemma REleChildRows(pk: nat, c: Node)
    ensures forall j :: 0 <= j < |REleChild(pk, c)| ==> ChildRow(REleChild(pk, c)[j], REleKeys, pk)
  {
  }

  lemma InfoChildRows(pk: nat, c: Node)
    ensures forall j :: 0 <= j < |InfoChild(pk, c)| ==> ChildRow(InfoChild(pk, c)[j], InfoKeys, pk)
  {
  }

  lemma SenseChildRows(pk: nat, c: Node)
    ensures forall j :: 0 <= j < |SenseChild(pk, c)| ==> ChildRow(SenseChild(pk, c)[j], SenseKeys, pk)
  {
  }

  /** The rows of all children of an element of family g with key pk. */
  function Children(g: Family, pk: nat, cs: seq<Node>): seq<JRow>
  {
    match g
    case KEleKeys => KEleChildren(pk, cs)
    case REleKeys => REleChildren(pk, cs)
    case InfoKeys => InfoChildren(pk, cs)
    case SenseKeys => SenseChildren(pk, cs)
  }

  /** The own row of an element of family g with key pk. */
  function OwnRow(g: Family, entSeq: Option<string>, pk: nat, e: Node): JRow
  {
    match g
    case KEleKeys => KEle(pk, entSeq, LastText(e.children, "keb"))
    case REleKeys => REle(pk, entSeq, Reb(e.children), HasChild(e.children, "re_nokanji"))
    case InfoKeys => Info(pk, entSeq)
    case SenseKeys => Sense(pk, entSeq)
  }

  /** A dispatcher appends its children's rows, then its own row; the own
      row owns pk as a key of its family and references nothing. */
  lemma DispatchSplit(g: Family, entSeq: Option<string>, pk: nat, e: Node)
    ensures Dispatch(g, entSeq, pk, e) == Children(g, pk, e.children) + [OwnRow(g, entSeq, pk, e)]
    ensures forall f :: OwnKey(OwnRow(g, entSeq, pk, e), f) == (if f == g then Some(pk) else None)
    ensures forall f :: ForeignKey(OwnRow(g, entSeq, pk, e), f) == None
  {
  }

  lemma {:induction false} ChildrenRows(g: Family, pk: nat, cs: seq<Node>)
    ensures forall j :: 0 <= j < |Children(g, pk, cs)| ==> ChildRow(Children(g, pk, cs)[j], g, pk)
  {
    var P := (r: JRow) => ChildRow(r, g, pk);
    match g
    case KEleKeys =>
      forall x: Node {
        KEleChildRows(pk, x);
      }
      FlatMapAll(cs, (c: Node) => KEleChild(pk, c), P);
    case REleKeys =>
      forall x: Node {
        REleChildRows(pk, x);
      }
      FlatMapAll(cs, (c: Node) => REleChild(pk, c), P);
    case InfoKeys =>
      forall x: Node {
        InfoChildRows(pk, x);
      }
      FlatMapAll(cs, (c: Node) => InfoChild(pk, c), P);
    case SenseKeys =>
      forall x: Node {
        SenseChildRows(pk, x);
      }
      FlatMapAll(cs, (c: Node) => SenseChild(pk, c), P);
  }

  /** A dispatcher of family g called with key pk appends, for family f, one
      row owning pk if f is g and none otherwise, and rows referencing only
      pk, only if f is g. */
  lemma DispatchKeys(g: Family, entSeq: Option<string>, pk: nat, e: Node, f: Family)
    ensures OwnKeys(Dispatch(g, entSeq, pk, e), f) == if f == g then [pk] else []
    ensures forall j :: 0 <= j < |Dispatch(g, entSeq, pk, e)| ==>
              ForeignKey(Dispatch(g, entSeq, pk, e)[j], f) == None || (f == g && ForeignKey(Dispatch(g, entSeq, pk, e)[j], f) == Some(pk))
  {
    var cs, own, d := Children(g, pk, e.children), OwnRow(g, entSeq, pk, e), Dispatch(g, entSeq, pk, e);
    DispatchSplit(g, entSeq, pk, e);
    assert OwnKeys(d, f) == if f == g then [pk] else [] by {
      ChildrenRows(g, pk, e.children);
      OwnKeysNone(cs, f);
      OwnKeysConcat(cs, [own], f);
      assert [own][..0] == [];
    }
    assert forall j :: 0 <= j < |d| ==> ForeignKey(d[j], f) == None || (f == g && ForeignKey(d[j], f) == Some(pk)) by {
      ChildrenRows(g, pk, e.children);
      assert forall j :: 0 <= j < |cs| ==> d[j] == cs[j];
      assert d[|cs|] == own;
    }
  }

  // ---- the driver ----

  /** An entry child that is not dispatched appends no row owning or
      referencing a key. */
  lemma EntryRowKeys(text: Option<string>, f: Family)
    ensures OwnKeys([Entry(text)], f) == []
    ensures ForeignKeysWithin([Entry(text)], f, 0, 0)
  {
    assert [Entry(text)][..0] == [];
  }

  /** Walking the children of an entry bumps the counter of family f once
      per child with f's tag. */
  lemma {:induction false} EntryWalkCounts(k: Keys, cs: seq<Node>, f: Family)
    ensures EntryWalk(k, cs).keys.Get(f) == k.Get(f) + |Select(cs, FamilyTag(f))|
  {
    if cs != [] {
      var init, e := cs[..|cs| - 1], cs[|cs| - 1];
      EntryWalkCounts(k, init, f);
      var s := EntryWalk(k, init);
      assert Select(cs, FamilyTag(f)) == Select(init, FamilyTag(f)) + (if e.tag == FamilyTag(f) then [e] else []);
      if e.tag == "ent_seq" {
        assert FamilyTag(f) != "ent_seq";
      } else {
        match FamilyOf(e.tag)
        case Some(g) =>
          assert e.tag == FamilyTag(f) <==> g == f;
        case None =>
          assert e.tag != FamilyTag(f);
      }
    }
  }

  /** A dispatched child of family g, from counters k: its rows own the
      keys between f's counter before and after the bump, and reference
      only keys in that range. */
  lemma DispatchStepKeys(g: Family, entSeq: Option<string>, k: Keys, e: Node, f: Family)
    ensures var k' := k.Bump(g);
              && OwnKeys(Dispatch(g, entSeq, k'.Get(g), e), f) == Interval(k.Get(f), k'.Get(f))
              && ForeignKeysWithin(Dispatch(g, entSeq, k'.Get(g), e), f, k.Get(f), k'.Get(f))
  {
    var pk := k.Bump(g).Get(g);
    DispatchKeys(g, entSeq, pk, e, f);
    BumpedRowsKeys(Dispatch(g, entSeq, pk, e), g, k, f);
  }

  /** Rows that own the fresh key of family g and reference only it keep,
      for every family f, their keys between f's counter before and after
      the bump. */
  lemma BumpedRowsKeys(d: seq<JRow>, g: Family, k: Keys, f: Family)
    requires OwnKeys(d, f) == if f == g then [k.Bump(g).Get(g)] else []
    requires forall j :: 0 <= j < |d| ==>
               ForeignKey(d[j], f) == None || (f == g && ForeignKey(d[j], f) == Some(k.Bump(g).Get(g)))
    ensures OwnKeys(d, f) == Interval(k.Get(f), k.Bump(g).Get(f))
    ensures ForeignKeysWithin(d, f, k.Get(f), k.Bump(g).Get(f))
  {
    var k' := k.Bump(g);
    if f == g {
      assert Interval(k.Get(f), k'.Get(f)) == [k'.Get(f)];
    } else {
      assert k'.Get(f) == k.Get(f);
    }
  }

  /** One child of an entry, from counters s.keys: it bumps f's counter
      at most once, the rows it appends own the keys between the counter
      before and after, and reference only keys in that range. */
  lemma EntryStepKeys(s: EntryState, e: Node, f: Family)
    ensures var t := EntryStep(EntryState(s.entSeq, s.keys, []), e);
              && s.keys.Get(f) <= t.keys.Get(f) <= s.keys.Get(f) + 1
              && OwnKeys(t.rows, f) == Interval(s.keys.Get(f), t.keys.Get(f))
              && ForeignKeysWithin(t.rows, f, s.keys.Get(f), t.keys.Get(f))
  {
    var s0 := EntryState(s.entSeq, s.keys, []);
    if e.tag == "ent_seq" {
      assert EntryStep(s0, e) == EntryState(e.text, s.keys, [Entry(e.text)]);
      EntryRowKeys(e.text, f);
    } else if FamilyOf(e.tag).Some? {
      var g := FamilyOf(e.tag).value;
      assert EntryStep(s0, e) == EntryState(s.entSeq, s.keys.Bump(g), Dispatch(g, s.entSeq, s.keys.Bump(g).Get(g), e));
      DispatchStepKeys(g, s.entSeq, s.keys, e, f);
    } else {
      assert EntryStep(s0, e) == s0;
    }
  }

  lemma ForeignKeysWithinWiden(rows: seq<JRow>, f: Family, lo: nat, hi: nat, lo': nat, hi': nat)
    requires ForeignKeysWithin(rows, f, lo, hi) && lo' <= lo && hi <= hi'
    ensures ForeignKeysWithin(rows, f, lo', hi')
  {
  }

  /** Walking the children of an entry whose counter of f starts at a, the
      rows appended own the keys a + 1, ..., b of f, in order, where b is
      the counter at the end; every foreign key of f they hold lies in
      a + 1 .. b. */
  lemma {:induction false} EntryWalkKeys(k: Keys, cs: seq<Node>, f: Family)
    ensures k.Get(f) <= EntryWalk(k, cs).keys.Get(f)
    ensures OwnKeys(EntryWalk(k, cs).rows, f) == Interval(k.Get(f), EntryWalk(k, cs).keys.Get(f))
    ensures ForeignKeysWithin(EntryWalk(k, cs).rows, f, k.Get(f), EntryWalk(k, cs).keys.Get(f))
  {
    if cs != [] {
      var init, e := cs[..|cs| - 1], cs[|cs| - 1];
      EntryWalkKeys(k, init, f);
      var s := EntryWalk(k, init);
      var t := EntryStep(EntryState(s.entSeq, s.keys, []), e);
      var lo, w, w' := k.Get(f), s.keys.Get(f), t.keys.Get(f);
      EntryStepRows(s, e);
      EntryStepKeys(s, e, f);
      OwnKeysConcat(s.rows, t.rows, f);
      IntervalConcat(lo, w, w');
      ForeignKeysWithinWiden(s.rows, f, lo, w, lo, w');
      ForeignKeysWithinWiden(t.rows, f, w, w', lo, w');
      ForeignKeysWithinConcat(s.rows, t.rows, f, lo, w');
    }
  }

  /** The counter of family f ends the run at the number of children with
      f's tag in all the entries. */
  lemma {:induction false} RunCounts(events: seq<Node>, f: Family)
    ensures Run(events).keys.Get(f) == TagCount(events, FamilyTag(f))
  {
    if events != [] {
      RunCounts(events[..|events| - 1], f);
      var e := events[|events| - 1];
      if e.tag == "entry" {
        EntryWalkCounts(Run(events[..|events| - 1]).keys, e.children, f);
      }
    }
  }

  /** Over a whole run, the rows of family f's table own the keys 1, 2,
      ..., n in the order they are appended, n being the final counter (so
      keys are distinct and none is skipped), and every foreign key of f
      lies in 1 .. n. */
  lemma {:induction false} RunKeys(events: seq<Node>, f: Family)
    ensures OwnKeys(Run(events).rows, f) == Interval(0, Run(events).keys.Get(f))
    ensures ForeignKeysWithin(Run(events).rows, f, 0, Run(events).keys.Get(f))
  {
    if events != [] {
      var prev := events[..|events| - 1];
      RunKeys(prev, f);
      var r, e := Run(prev), events[|events| - 1];
      if e.tag == "entry" {
        var w := EntryWalk(r.keys, e.children);
        EntryWalkKeys(r.keys, e.children, f);
        EntryWalkCounts(r.keys, e.children, f);
        OwnKeysConcat(r.rows, w.rows, f);
        IntervalConcat(0, r.keys.Get(f), w.keys.Get(f));
        ForeignKeysWithinConcat(r.rows, w.rows, f, 0, w.keys.Get(f));
      }
    }
  }

  lemma {:induction false} IntervalConcat(a: nat, b: nat, c: nat)
    requires a <= b <= c
    ensures Interval(a, c) == Interval(a, b) + Interval(b, c)
    decreases c
  {
    if b < c {
      IntervalConcat(a, b, c - 1);
    }
  }

  /** Referential integrity of a run: every foreign key in the rows names
      a key owned by some row of the referenced table; and that table holds
      exactly one row per element of its family in the entries. */
  lemma RunReferences(events: seq<Node>, f: Family)
    ensures forall j :: 0 <= j < |Run(events).rows| && ForeignKey(Run(events).rows[j], f).Some?
              ==> ForeignKey(Run(events).rows[j], f).value in OwnKeys(Run(events).rows, f)
    ensures |Filter(Run(events).rows, FamilyTable(f), TableOf)| == TagCount(events, FamilyTag(f))
  {
    var rows, n := Run(events).rows, Run(events).keys.Get(f);
    RunKeys(events, f);
    RunCounts(events, f);
    OwnKeysCount(rows, f);
    forall j | 0 <= j < |rows| && ForeignKey(rows[j], f).Some?
      ensures ForeignKey(rows[j], f).value in OwnKeys(rows, f)
    {
      var v := ForeignKey(rows[j], f).value;
      assert Interval(0, n)[v - 1] == v;
    }
  }
}
