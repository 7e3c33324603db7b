/** What the KANJIDIC2 dispatchers and driver promise: the rows each
    dispatcher appends to each table, and how the driver hands the literal
    to them. */
module KanjidicLemmas {
  import opened Seqs
  import opened Xml
  import opened Tables
  import opened KanjidicRows
  import opened KanjidicSpec

  // ---- parse_misc ----

  /** The table into which `parse_misc` puts the row of a child with the
      tag (TableCount: none). */
  function MiscTagTable(tag: string): nat
  {
    if tag == "stroke_count" then StrokeCountT
    else if tag == "variant" then VariantT
    else if tag == "rad_name" then RadNameT
    else TableCount
  }

  /** A child of a misc element appends only to its tag's table. */
  lemma MiscChildTable(lit: Option<string>, c: Node)
    ensures forall j :: 0 <= j < |MiscChild(lit, c)| ==> TableOf(MiscChild(lit, c)[j]) == MiscTagTable(c.tag) < TableCount
  {
    if c.tag == "stroke_count" {
      assert MiscChild(lit, c) == [StrokeCount(lit, c.text)];
      assert MiscTagTable(c.tag) == StrokeCountT;
    } else if c.tag == "variant" {
      assert MiscChild(lit, c) == [Variant(lit, c.text, Get(c, "var_type"))];
      assert MiscTagTable(c.tag) == VariantT;
    } else if c.tag == "rad_name" {
      assert MiscChild(lit, c) == [RadName(lit, Unicode(c.text))];
      assert MiscTagTable(c.tag) == RadNameT;
    } else {
      assert MiscChild(lit, c) == [];
    }
  }

  /** The rows `parse_misc` appends to table t: its children's, then the
      character row when t is its table. */
  lemma MiscRowsAt(lit: Option<string>, n: Node, t: nat)
    ensures Filter(MiscRows(lit, n), t, TableOf)
              == Filter(MiscChildren(lit, n.children), t, TableOf)
                 + (if t == CharacterT then [Character(lit, LastText(n.children, "grade"), LastText(n.children, "freq"), LastText(n.children, "jlpt"))] else [])
  {
    FilterSnoc(MiscChildren(lit, n.children), Character(lit, LastText(n.children, "grade"), LastText(n.children, "freq"), LastText(n.children, "jlpt")), t, TableOf);
  }

  /** The rows `parse_misc` appends to the table of one child tag: one row
      g(c) per child c with that tag, in child order. */
  lemma MiscByTag(lit: Option<string>, n: Node, tag: string, g: Node -> KRow)
    requires MiscTagTable(tag) < TableCount
    requires forall c: Node :: c.tag == tag ==> MiscChild(lit, c) == [g(c)]
    ensures Filter(MiscRows(lit, n), MiscTagTable(tag), TableOf) == Map(Select(n.children, tag), g)
  {
    forall c: Node {
      MiscChildTable(lit, c);
    }
    FilterByTagTable(n.children, (c: Node) => MiscChild(lit, c), TableOf, MiscTagTable, tag, g);
    MiscRowsAt(lit, n, MiscTagTable(tag));
  }

  /** `parse_misc` appends exactly one character row, keyed by the literal,
      whose grade, freq and jlpt are the texts of the last children with
      those tags (None without one), and nothing to any table outside the
      misc group. */
  lemma MiscCharacterTable(lit: Option<string>, n: Node)
    ensures Filter(MiscRows(lit, n), CharacterT, TableOf)
              == [Character(lit, LastText(n.children, "grade"), LastText(n.children, "freq"), LastText(n.children, "jlpt"))]
    ensures forall t :: t != CharacterT && t != StrokeCountT && t != VariantT && t != RadNameT ==> Filter(MiscRows(lit, n), t, TableOf) == []
  {
    forall t | t != StrokeCountT && t != VariantT && t != RadNameT
      ensures Filter(MiscRows(lit, n), t, TableOf)
                == if t == CharacterT then [Character(lit, LastText(n.children, "grade"), LastText(n.children, "freq"), LastText(n.children, "jlpt"))] else []
    {
      forall c: Node {
        MiscChildTable(lit, c);
      }
      FilterOff(n.children, (c: Node) => MiscChild(lit, c), TableOf, t);
      MiscRowsAt(lit, n, t);
    }
  }

  /** `parse_misc` appends one stroke_count row per stroke_count child, one
      variant row per variant child (var_type from the attribute, None
      without it) and one rad_name row per rad_name child (`unicode` of its
      text), in child order, each keyed by the literal. */
  lemma MiscChildTables(lit: Option<string>, n: Node)
    ensures Filter(MiscRows(lit, n), StrokeCountT, TableOf) == Map(Select(n.children, "stroke_count"), (c: Node) => StrokeCount(lit, c.text))
    ensures Filter(MiscRows(lit, n), VariantT, TableOf)
              == Map(Select(n.children, "variant"), (c: Node) => Variant(lit, c.text, if "var_type" in c.attrs then Some(c.attrs["var_type"]) else None))
    ensures Filter(MiscRows(lit, n), RadNameT, TableOf) == Map(Select(n.children, "rad_name"), (c: Node) => RadName(lit, Unicode(c.text)))
  {
    assert Filter(MiscRows(lit, n), StrokeCountT, TableOf) == Map(Select(n.children, "stroke_count"), (c: Node) => StrokeCount(lit, c.text)) by {
      MiscByTag(lit, n, "stroke_count", (c: Node) => StrokeCount(lit, c.text));
    }
    assert Filter(MiscRows(lit, n), VariantT, TableOf)
             == Map(Select(n.children, "variant"), (c: Node) => Variant(lit, c.text, if "var_type" in c.attrs then Some(c.attrs["var_type"]) else None)) by {
      MiscByTag(lit, n, "variant", (c: Node) => Variant(lit, c.text, if "var_type" in c.attrs then Some(c.attrs["var_type"]) else None));
    }
    assert Filter(MiscRows(lit, n), RadNameT, TableOf) == Map(Select(n.children, "rad_name"), (c: Node) => RadName(lit, Unicode(c.text))) by {
      MiscByTag(lit, n, "rad_name", (c: Node) => RadName(lit, Unicode(c.text)));
    }
  }

  // ---- the one-row-per-child dispatchers ----

  /** `parse_dic_number` appends to dic_ref one row per child, whatever its
      tag, in child order: its text, dr_type, and m_vol and m_page, each
      None when the attribute is absent; and nothing to any other table. */
  lemma DicNumberTables(lit: Option<string>, n: Node)
    ensures Filter(DicNumberRows(lit, n), DicRefT, TableOf)
              == Map(n.children, (d: Node) => DicRef(lit, d.text, Get(d, "dr_type"),
                                                   if "m_vol" in d.attrs then Some(d.attrs["m_vol"]) else None,
                                                   if "m_page" in d.attrs then Some(d.attrs["m_page"]) else None))
    ensures forall t :: t != DicRefT ==> Filter(DicNumberRows(lit, n), t, TableOf) == []
  {
    var h := (d: Node) => [DicRefRow(lit, d)];
    FilterEach(n.children, h, TableOf, DicRefT, (d: Node) => DicRef(lit, d.text, Get(d, "dr_type"),
                                                                   if "m_vol" in d.attrs then Some(d.attrs["m_vol"]) else None,
                                                                   if "m_page" in d.attrs then Some(d.attrs["m_page"]) else None));
    forall t | t != DicRefT
      ensures Filter(DicNumberRows(lit, n), t, TableOf) == []
    {
      FilterNone(n.children, h, TableOf, t);
    }
  }

  /** `parse_query_code` appends to query_code one row per child, whatever
      its tag, in child order: `unicode` of its text, qc_type, and
      skip_misclass, None when the attribute is absent; and nothing to any
      other table. */
  lemma QueryCodeTables(lit: Option<string>, n: Node)
    ensures Filter(QueryCodeRows(lit, n), QueryCodeT, TableOf)
              == Map(n.children, (q: Node) => QueryCode(lit, Unicode(q.text), Get(q, "qc_type"),
                                                       if "skip_misclass" in q.attrs then Some(q.attrs["skip_misclass"]) else None))
    ensures forall t :: t != QueryCodeT ==> Filter(QueryCodeRows(lit, n), t, TableOf) == []
  {
    var h := (q: Node) => [QueryCodeRow(lit, q)];
    FilterEach(n.children, h, TableOf, QueryCodeT, (q: Node) => QueryCode(lit, Unicode(q.text), Get(q, "qc_type"),
                                                                        if "skip_misclass" in q.attrs then Some(q.attrs["skip_misclass"]) else None));
    forall t | t != QueryCodeT
      ensures Filter(QueryCodeRows(lit, n), t, TableOf) == []
    {
      FilterNone(n.children, h, TableOf, t);
    }
  }

  /** `parse_radical` appends to rad_value one row per child, whatever its
      tag, in child order, with its text and rad_type; and nothing to any
      other table. */
  lemma RadicalTables(lit: Option<string>, n: Node)
    ensures Filter(RadicalRows(lit, n), RadValueT, TableOf) == Map(n.children, (r: Node) => RadValue(lit, r.text, Get(r, "rad_type")))
    ensures forall t :: t != RadValueT ==> Filter(RadicalRows(lit, n), t, TableOf) == []
  {
    var h := (r: Node) => [RadValueRow(lit, r)];
    FilterEach(n.children, h, TableOf, RadValueT, (r: Node) => RadValue(lit, r.text, Get(r, "rad_type")));
    forall t | t != RadValueT
      ensures Filter(RadicalRows(lit, n), t, TableOf) == []
    {
      FilterNone(n.children, h, TableOf, t);
    }
  }

  /** `parse_codepoint` appends to codepoint one row per child, whatever its
      tag, in child order, with its text and cp_type; and nothing to any
      other table. */
  lemma CodepointTables(lit: Option<string>, n: Node)
    ensures Filter(CodepointRows(lit, n), CodepointT, TableOf) == Map(n.children, (c: Node) => Codepoint(lit, c.text, Get(c, "cp_type")))
    ensures forall t :: t != CodepointT ==> Filter(CodepointRows(lit, n), t, TableOf) == []
  {
    var h := (c: Node) => [CodepointRow(lit, c)];
    FilterEach(n.children, h, TableOf, CodepointT, (c: Node) => Codepoint(lit, c.text, Get(c, "cp_type")));
    forall t | t != CodepointT
      ensures Filter(CodepointRows(lit, n), t, TableOf) == []
    {
      FilterNone(n.children, h, TableOf, t);
    }
  }

  // ---- parse_reading_meaning ----

  /** A child of an rmgroup appends a reading row to reading when it is a
      reading, a meaning row to meaning when it is a meaning, and nothing
      otherwise. */
  lemma RmGroupChildTables(lit: Option<string>, g: Node)
    ensures Filter(RmGroupChild(lit, g), ReadingT, TableOf) == if g.tag == "reading" then [ReadingRow(lit, g)] else []
    ensures Filter(RmGroupChild(lit, g), MeaningT, TableOf) == if g.tag == "meaning" then [MeaningRow(lit, g)] else []
    ensures forall t :: t != ReadingT && t != MeaningT ==> Filter(RmGroupChild(lit, g), t, TableOf) == []
  {
    if g.tag == "reading" {
      var r := ReadingRow(lit, g);
      assert RmGroupChild(lit, g) == [r] && TableOf(r) == ReadingT;
      forall t {
        FilterSingleton(r, t, TableOf);
      }
    } else if g.tag == "meaning" {
      var r := MeaningRow(lit, g);
      assert RmGroupChild(lit, g) == [r] && TableOf(r) == MeaningT;
      forall t {
        FilterSingleton(r, t, TableOf);
      }
    }
  }

  /** Inside one rmgroup: one reading row per reading child, in child order. */
  lemma RmGroupReadings(lit: Option<string>, rm: Node)
    ensures Filter(RmGroupRows(lit, rm), ReadingT, TableOf) == Map(Select(rm.children, "reading"), (g: Node) => ReadingRow(lit, g))
  {
    forall g: Node
      ensures Filter(RmGroupChild(lit, g), ReadingT, TableOf) == if g.tag == "reading" then [ReadingRow(lit, g)] else []
    {
      RmGroupChildTables(lit, g);
    }
    FilterByTag(rm.children, (g: Node) => RmGroupChild(lit, g), TableOf, ReadingT, "reading", (g: Node) => ReadingRow(lit, g));
  }

  /** Inside one rmgroup: one meaning row per meaning child, in child order. */
  lemma RmGroupMeanings(lit: Option<string>, rm: Node)
    ensures Filter(RmGroupRows(lit, rm), MeaningT, TableOf) == Map(Select(rm.children, "meaning"), (g: Node) => MeaningRow(lit, g))
  {
    forall g: Node
      ensures Filter(RmGroupChild(lit, g), MeaningT, TableOf) == if g.tag == "meaning" then [MeaningRow(lit, g)] else []
    {
      RmGroupChildTables(lit, g);
    }
    FilterByTag(rm.children, (g: Node) => RmGroupChild(lit, g), TableOf, MeaningT, "meaning", (g: Node) => MeaningRow(lit, g));
  }

  /** Inside one rmgroup: nothing outside the reading and meaning tables. */
  lemma RmGroupOthers(lit: Option<string>, rm: Node, t: nat)
    requires t != ReadingT && t != MeaningT
    ensures Filter(RmGroupRows(lit, rm), t, TableOf) == []
  {
    forall g: Node
      ensures Filter(RmGroupChild(lit, g), t, TableOf) == []
    {
      RmGroupChildTables(lit, g);
    }
    FilterNone(rm.children, (g: Node) => RmGroupChild(lit, g), TableOf, t);
  }

  /** One child of reading_meaning: an rmgroup adds its readings and
      meanings, a nanori element one nanori row, anything else nothing. */
  lemma ReadingMeaningChildTables(lit: Option<string>, rm: Node)
    ensures Filter(ReadingMeaningChild(lit, rm), ReadingT, TableOf)
              == if rm.tag == "rmgroup" then Map(Select(rm.children, "reading"), (g: Node) => ReadingRow(lit, g)) else []
    ensures Filter(ReadingMeaningChild(lit, rm), MeaningT, TableOf)
              == if rm.tag == "rmgroup" then Map(Select(rm.children, "meaning"), (g: Node) => MeaningRow(lit, g)) else []
    ensures Filter(ReadingMeaningChild(lit, rm), NanoriT, TableOf) == if rm.tag == "nanori" then [Nanori(lit, Unicode(rm.text))] else []
    ensures forall t :: t != ReadingT && t != MeaningT && t != NanoriT ==> Filter(ReadingMeaningChild(lit, rm), t, TableOf) == []
  {
    RmGroupReadings(lit, rm);
    RmGroupMeanings(lit, rm);
    forall t | t != ReadingT && t != MeaningT {
      RmGroupOthers(lit, rm, t);
    }
    forall t {
      FilterSingleton(Nanori(lit, Unicode(rm.text)), t, TableOf);
    }
  }

  /** `parse_reading_meaning` takes reading and meaning rows only from the
      children of its rmgroup children, group after group, and one nanori
      row (`unicode` of its text) per direct nanori child; children with
      any other tag append nothing, and nothing reaches any other table. */
  lemma ReadingMeaningTables(lit: Option<string>, n: Node)
    ensures Filter(ReadingMeaningRows(lit, n), ReadingT, TableOf)
              == FlatMap(Select(n.children, "rmgroup"), (rm: Node) => Map(Select(rm.children, "reading"), (g: Node) => ReadingRow(lit, g)))
    ensures Filter(ReadingMeaningRows(lit, n), MeaningT, TableOf)
              == FlatMap(Select(n.children, "rmgroup"), (rm: Node) => Map(Select(rm.children, "meaning"), (g: Node) => MeaningRow(lit, g)))
    ensures Filter(ReadingMeaningRows(lit, n), NanoriT, TableOf) == Map(Select(n.children, "nanori"), (c: Node) => Nanori(lit, Unicode(c.text)))
    ensures forall t :: t != ReadingT && t != MeaningT && t != NanoriT ==> Filter(ReadingMeaningRows(lit, n), t, TableOf) == []
  {
    var h := (rm: Node) => ReadingMeaningChild(lit, rm);
    forall rm: Node
      ensures Filter(h(rm), ReadingT, TableOf)
                == if rm.tag == "rmgroup" then Map(Select(rm.children, "reading"), (g: Node) => ReadingRow(lit, g)) else []
      ensures Filter(h(rm), MeaningT, TableOf)
                == if rm.tag == "rmgroup" then Map(Select(rm.children, "meaning"), (g: Node) => MeaningRow(lit, g)) else []
      ensures Filter(h(rm), NanoriT, TableOf) == if rm.tag == "nanori" then [Nanori(lit, Unicode(rm.text))] else []
      ensures forall t :: t != ReadingT && t != MeaningT && t != NanoriT ==> Filter(h(rm), t, TableOf) == []
    {
      ReadingMeaningChildTables(lit, rm);
    }
    FilterByTagFlat(n.children, h, TableOf, ReadingT, "rmgroup", (rm: Node) => Map(Select(rm.children, "reading"), (g: Node) => ReadingRow(lit, g)));
    FilterByTagFlat(n.children, h, TableOf, MeaningT, "rmgroup", (rm: Node) => Map(Select(rm.children, "meaning"), (g: Node) => MeaningRow(lit, g)));
    FilterByTag(n.children, h, TableOf, NanoriT, "nanori", (c: Node) => Nanori(lit, Unicode(c.text)));
    forall t | t != ReadingT && t != MeaningT && t != NanoriT
      ensures Filter(ReadingMeaningRows(lit, n), t, TableOf) == []
    {
      FilterNone(n.children, h, TableOf, t);
    }
  }

  // ---- fill_database ----

  /** A child of a character appends one character row when it is a misc
      element and none otherwise. */
  lemma CharacterChildCharacterRows(lit: Option<string>, e: Node)
    ensures |Filter(CharacterChild(lit, e), CharacterT, TableOf)| == if e.tag == "misc" then 1 else 0
  {
    if e.tag == "codepoint" {
      CodepointTables(lit, e);
    } else if e.tag == "radical" {
      RadicalTables(lit, e);
    } else if e.tag == "misc" {
      MiscCharacterTable(lit, e);
    } else if e.tag == "dic_number" {
      DicNumberTables(lit, e);
    } else if e.tag == "query_code" {
      QueryCodeTables(lit, e);
    } else if e.tag == "reading_meaning" {
      ReadingMeaningTables(lit, e);
    }
  }

  /** The literal the walk over a character's children ends with:
      `unicode` of the text of its last literal child, or None when it has
      none. */
  lemma {:induction false} CharacterWalkLiteral(cs: seq<Node>)
    ensures CharacterWalk(cs).literal == if HasChild(cs, "literal") then Unicode(LastText(cs, "literal")) else None
  {
    if cs != [] {
      var init, e := cs[..|cs| - 1], cs[|cs| - 1];
      assert cs == init + [e];
      CharacterWalkLiteral(init);
      HasChildSnoc(init, e, "literal");
      LastTextSnoc(init, e, "literal");
    }
  }

  /** Child j of a character is dispatched with the literal of the most
      recent literal child before it (`unicode` of its text), or None when
      no literal child precedes it; a literal child appends nothing. */
  lemma CharacterWalkDispatch(cs: seq<Node>, j: nat)
    requires j < |cs|
    ensures var before := cs[..j];
            var lit := if HasChild(before, "literal") then Unicode(LastText(before, "literal")) else None;
            CharacterWalk(cs[..j + 1]).rows == CharacterWalk(before).rows + (if cs[j].tag == "literal" then [] else CharacterChild(lit, cs[j]))
  {
    assert cs[..j + 1][..j] == cs[..j];
    CharacterWalkLiteral(cs[..j]);
    if cs[j].tag == "literal" {
      assert CharacterWalk(cs[..j]).rows + [] == CharacterWalk(cs[..j]).rows;
    }
  }

  /** A character element gets one character row per misc child: none
      without a misc child, several with several. */
  lemma {:induction false} CharacterWalkCharacterRows(cs: seq<Node>)
    ensures |Filter(CharacterWalk(cs).rows, CharacterT, TableOf)| == |Select(cs, "misc")|
  {
    if cs != [] {
      var init, e := cs[..|cs| - 1], cs[|cs| - 1];
      var s := CharacterWalk(init);
      CharacterWalkCharacterRows(init);
      if e.tag != "literal" {
        FilterConcat(s.rows, CharacterChild(s.literal, e), CharacterT, TableOf);
        CharacterChildCharacterRows(s.literal, e);
      }
    }
  }

  /** Every row of an rmgroup is keyed by the literal given. */
  lemma RmGroupRowsLiteral(lit: Option<string>, rm: Node)
    ensures forall j :: 0 <= j < |RmGroupRows(lit, rm)| ==> LiteralOf(RmGroupRows(lit, rm)[j]) == lit
  {
    FlatMapAll(rm.children, (g: Node) => RmGroupChild(lit, g), (r: KRow) => LiteralOf(r) == lit);
  }

  /** Every row a dispatcher appends is keyed by the literal it was given. */
  lemma CharacterChildLiteral(lit: Option<string>, e: Node)
    ensures forall j :: 0 <= j < |CharacterChild(lit, e)| ==> LiteralOf(CharacterChild(lit, e)[j]) == lit
  {
    var P := (r: KRow) => LiteralOf(r) == lit;
    if e.tag == "codepoint" {
      FlatMapAll(e.children, (c: Node) => [CodepointRow(lit, c)], P);
    } else if e.tag == "radical" {
      FlatMapAll(e.children, (r: Node) => [RadValueRow(lit, r)], P);
    } else if e.tag == "misc" {
      FlatMapAll(e.children, (m: Node) => MiscChild(lit, m), P);
      var a := MiscChildren(lit, e.children);
      var b := [Character(lit, LastText(e.children, "grade"), LastText(e.children, "freq"), LastText(e.children, "jlpt"))];
      assert forall j :: |a| <= j < |a + b| ==> (a + b)[j] == b[j - |a|];
    } else if e.tag == "dic_number" {
      FlatMapAll(e.children, (d: Node) => [DicRefRow(lit, d)], P);
    } else if e.tag == "query_code" {
      FlatMapAll(e.children, (q: Node) => [QueryCodeRow(lit, q)], P);
    } else if e.tag == "reading_meaning" {
      forall rm: Node {
        RmGroupRowsLiteral(lit, rm);
      }
      FlatMapAll(e.children, (rm: Node) => ReadingMeaningChild(lit, rm), P);
    }
  }

  /** When a character's first child is its only literal child, as in the
      KANJIDIC2 layout, every row appended for it is keyed by `unicode` of
      that literal's text. */
  lemma {:induction false} CharacterWalkLiteralCarried(cs: seq<Node>)
    requires cs != [] && cs[0].tag == "literal"
    requires forall k :: 0 < k < |cs| ==> cs[k].tag != "literal"
    ensures CharacterWalk(cs).literal == Unicode(cs[0].text)
    ensures forall j :: 0 <= j < |CharacterWalk(cs).rows| ==> LiteralOf(CharacterWalk(cs).rows[j]) == Unicode(cs[0].text)
  {
    var init, e := cs[..|cs| - 1], cs[|cs| - 1];
    if init == [] {
      assert CharacterWalk(cs) == CharState(Unicode(cs[0].text), []);
    } else {
      CharacterWalkLiteralCarried(init);
      var s := CharacterWalk(init);
      CharacterChildLiteral(s.literal, e);
      var a, b := s.rows, CharacterChild(s.literal, e);
      assert forall j :: |a| <= j < |a + b| ==> (a + b)[j] == b[j - |a|];
    }
  }

  /** Over a whole parse, there are as many character rows as misc
      children of character elements. */
  lemma {:induction false} RunCharacterRows(events: seq<Node>)
    ensures |Filter(Run(events), CharacterT, TableOf)| == CharacterTagCount(events, "misc")
  {
    if events != [] {
      var init, e := events[..|events| - 1], events[|events| - 1];
      RunCharacterRows(init);
      if e.tag == "character" {
        FilterConcat(Run(init), CharacterWalk(e.children).rows, CharacterT, TableOf);
        CharacterWalkCharacterRows(e.children);
      } else {
        assert Run(events) == Run(init) + [];
        assert Run(init) + [] == Run(init);
      }
    }
  }
}
