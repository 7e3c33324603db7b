/** What the JMdict dispatchers and driver promise: the rows each dispatcher
    appends to each table, and the surrogate-key discipline of the driver. */
module JmdictLemmas {
  import opened Seqs
  import opened Xml
  import opened Tables
  import opened JmdictRows
  import opened JmdictSpec

  // ---- the dispatchers, table by table ----

  /** The table into which `parse_k_ele` puts the row of a child with the
      tag (TableCount: none). */
  function KEleTagTable(tag: string): nat
  {
    if tag == "ke_inf" then KeInfT
    else if tag == "ke_pri" then KePriT
    else TableCount
  }

  /** A child of a k_ele element appends only to its tag's table. */
  lemma KEleChildTable(pk: nat, c: Node)
    ensures forall j :: 0 <= j < |KEleChild(pk, c)| ==> TableOf(KEleChild(pk, c)[j]) == KEleTagTable(c.tag) < TableCount
  {
    if c.tag == "ke_inf" {
      assert KEleChild(pk, c) == [KeInf(pk, c.text)];
      assert KEleTagTable(c.tag) == KeInfT;
    } else if c.tag == "ke_pri" {
      assert KEleChild(pk, c) == [KePri(pk, c.text)];
      assert KEleTagTable(c.tag) == KePriT;
    } else {
      assert KEleChild(pk, c) == [];
    }
  }

  /** The rows `parse_k_ele` appends to table t: its children's, then its
      own row when t is its table. */
  lemma KEleRowsAt(entSeq: Option<string>, pk: nat, n: Node, t: nat)
    ensures Filter(KEleRows(entSeq, pk, n), t, TableOf)
              == Filter(KEleChildren(pk, n.children), t, TableOf) + (if t == KEleT then [KEle(pk, entSeq, LastText(n.children, "keb"))] else [])
  {
    FilterSnoc(KEleChildren(pk, n.children), KEle(pk, entSeq, LastText(n.children, "keb")), t, TableOf);
  }

  /** The rows `parse_k_ele` appends to the table of one child tag: one row
      g(c) per child c with that tag, in child order. */
  lemma KEleByTag(entSeq: Option<string>, pk: nat, n: Node, tag: string, g: Node -> JRow)
    requires KEleTagTable(tag) < TableCount
    requires forall c: Node :: c.tag == tag ==> KEleChild(pk, c) == [g(c)]
    ensures Filter(KEleRows(entSeq, pk, n), KEleTagTable(tag), TableOf) == Map(Select(n.children, tag), g)
  {
    forall c: Node {
      KEleChildTable(pk, c);
    }
    FilterByTagTable(n.children, (c: Node) => KEleChild(pk, c), TableOf, KEleTagTable, tag, g);
    KEleRowsAt(entSeq, pk, n, KEleTagTable(tag));
  }

  /** `parse_k_ele` appends exactly one k_ele row, whose keb is the text of
      the last keb child (None without one); one ke_inf row per ke_inf child
      and one ke_pri row per ke_pri child, in child order, each carrying the
      element's key; and nothing to any other table. */
  lemma KEleTables(entSeq: Option<string>, pk: nat, n: Node)
    ensures Filter(KEleRows(entSeq, pk, n), KEleT, TableOf) == [KEle(pk, entSeq, LastText(n.children, "keb"))]
    ensures Filter(KEleRows(entSeq, pk, n), KeInfT, TableOf) == Map(Select(n.children, "ke_inf"), (c: Node) => KeInf(pk, c.text))
    ensures Filter(KEleRows(entSeq, pk, n), KePriT, TableOf) == Map(Select(n.children, "ke_pri"), (c: Node) => KePri(pk, c.text))
    ensures forall t :: t != KEleT && t != KeInfT && t != KePriT ==> Filter(KEleRows(entSeq, pk, n), t, TableOf) == []
  {
    var cs, h := n.children, (c: Node) => KEleChild(pk, c);
    assert Filter(KEleRows(entSeq, pk, n), KeInfT, TableOf) == Map(Select(cs, "ke_inf"), (c: Node) => KeInf(pk, c.text)) by {
      KEleByTag(entSeq, pk, n, "ke_inf", (c: Node) => KeInf(pk, c.text));
    }
    assert Filter(KEleRows(entSeq, pk, n), KePriT, TableOf) == Map(Select(cs, "ke_pri"), (c: Node) => KePri(pk, c.text)) by {
      KEleByTag(entSeq, pk, n, "ke_pri", (c: Node) => KePri(pk, c.text));
    }
    forall t | t != KeInfT && t != KePriT
      ensures Filter(KEleRows(entSeq, pk, n), t, TableOf) == if t == KEleT then [KEle(pk, entSeq, LastText(n.children, "keb"))] else []
    {
      forall c: Node {
        KEleChildTable(pk, c);
      }
      FilterOff(cs, h, TableOf, t);
      KEleRowsAt(entSeq, pk, n, t);
    }
  }

  /** The table into which `parse_r_ele` puts the row of a child with the
      tag (TableCount: none). */
  function REleTagTable(tag: string): nat
  {
    if tag == "re_restr" then ReRestrT
    else if tag == "re_inf" then ReInfT
    else if tag == "re_pri" then RePriT
    else TableCount
  }

  /** A child of an r_ele element appends only to its tag's table. */
  lemma REleChildTable(pk: nat, c: Node)
    ensures forall j :: 0 <= j < |REleChild(pk, c)| ==> TableOf(REleChild(pk, c)[j]) == REleTagTable(c.tag) < TableCount
  {
    if c.tag == "re_restr" {
      assert REleChild(pk, c) == [ReRestr(pk, Unicode(c.text))];
      assert REleTagTable(c.tag) == ReRestrT;
    } else if c.tag == "re_inf" {
      assert REleChild(pk, c) == [ReInf(pk, Unicode(c.text))];
      assert REleTagTable(c.tag) == ReInfT;
    } else if c.tag == "re_pri" {
      assert REleChild(pk, c) == [RePri(pk, c.text)];
      assert REleTagTable(c.tag) == RePriT;
    } else {
      assert REleChild(pk, c) == [];
    }
  }

  /** The rows `parse_r_ele` appends to table t: its children's, then its
      own row when t is its table. */
  lemma REleRowsAt(entSeq: Option<string>, pk: nat, n: Node, t: nat)
    ensures Filter(REleRows(entSeq, pk, n), t, TableOf)
              == Filter(REleChildren(pk, n.children), t, TableOf) + (if t == REleT then [REle(pk, entSeq, Reb(n.children), HasChild(n.children, "re_nokanji"))] else [])
  {
    FilterSnoc(REleChildren(pk, n.children), REle(pk, entSeq, Reb(n.children), HasChild(n.children, "re_nokanji")), t, TableOf);
  }

  /** The rows `parse_r_ele` appends to the table of one child tag: one row
      g(c) per child c with that tag, in child order. */
  lemma REleByTag(entSeq: Option<string>, pk: nat, n: Node, tag: string, g: Node -> JRow)
    requires REleTagTable(tag) < TableCount
    requires forall c: Node :: c.tag == tag ==> REleChild(pk, c) == [g(c)]
    ensures Filter(REleRows(entSeq, pk, n), REleTagTable(tag), TableOf) == Map(Select(n.children, tag), g)
  {
    forall c: Node {
      REleChildTable(pk, c);
    }
    FilterByTagTable(n.children, (c: Node) => REleChild(pk, c), TableOf, REleTagTable, tag, g);
    REleRowsAt(entSeq, pk, n, REleTagTable(tag));
  }

  /** `parse_r_ele` appends exactly one r_ele row, whose reb is `unicode` of
      the text of the last reb child (None without one) and whose re_nokanji
      is true exactly when some child is a re_nokanji element, whatever its
      text; one re_restr and re_inf row per child of that tag, holding
      `unicode` of its text, and one re_pri row per re_pri child, holding its
      text, in child order, each carrying the element's key; and nothing to
      any other table. */
  lemma REleTables(entSeq: Option<string>, pk: nat, n: Node)
    ensures Filter(REleRows(entSeq, pk, n), REleT, TableOf)
              == [REle(pk, entSeq,
                       if exists j :: 0 <= j < |n.children| && n.children[j].tag == "reb" then Unicode(LastText(n.children, "reb")) else None,
                       exists j :: 0 <= j < |n.children| && n.children[j].tag == "re_nokanji")]
    ensures Filter(REleRows(entSeq, pk, n), ReRestrT, TableOf) == Map(Select(n.children, "re_restr"), (c: Node) => ReRestr(pk, Unicode(c.text)))
    ensures Filter(REleRows(entSeq, pk, n), ReInfT, TableOf) == Map(Select(n.children, "re_inf"), (c: Node) => ReInf(pk, Unicode(c.text)))
    ensures Filter(REleRows(entSeq, pk, n), RePriT, TableOf) == Map(Select(n.children, "re_pri"), (c: Node) => RePri(pk, c.text))
    ensures forall t :: t != REleT && t != ReRestrT && t != ReInfT && t != RePriT ==> Filter(REleRows(entSeq, pk, n), t, TableOf) == []
  {
    var cs := n.children;
    assert Filter(REleRows(entSeq, pk, n), ReRestrT, TableOf) == Map(Select(cs, "re_restr"), (c: Node) => ReRestr(pk, Unicode(c.text))) by {
      REleByTag(entSeq, pk, n, "re_restr", (c: Node) => ReRestr(pk, Unicode(c.text)));
    }
    assert Filter(REleRows(entSeq, pk, n), ReInfT, TableOf) == Map(Select(cs, "re_inf"), (c: Node) => ReInf(pk, Unicode(c.text))) by {
      REleByTag(entSeq, pk, n, "re_inf", (c: Node) => ReInf(pk, Unicode(c.text)));
    }
    assert Filter(REleRows(entSeq, pk, n), RePriT, TableOf) == Map(Select(cs, "re_pri"), (c: Node) => RePri(pk, c.text)) by {
      REleByTag(entSeq, pk, n, "re_pri", (c: Node) => RePri(pk, c.text));
    }
    REleOwnTables(entSeq, pk, n);
  }

  /** Outside the three child tables, parse_r_ele appends only its own r_ele row. */
  lemma REleOwnTables(entSeq: Option<string>, pk: nat, n: Node)
    ensures forall t :: t != ReRestrT && t != ReInfT && t != RePriT ==>
              Filter(REleRows(entSeq, pk, n), t, TableOf) == if t == REleT then [REle(pk, entSeq, Reb(n.children), HasChild(n.children, "re_nokanji"))] else []
  {
    var cs, h := n.children, (c: Node) => REleChild(pk, c);
    forall t | t != ReRestrT && t != ReInfT && t != RePriT
      ensures Filter(REleRows(entSeq, pk, n), t, TableOf) == if t == REleT then [REle(pk, entSeq, Reb(n.children), HasChild(n.children, "re_nokanji"))] else []
    {
      forall c: Node {
        REleChildTable(pk, c);
      }
      FilterOff(cs, h, TableOf, t);
      REleRowsAt(entSeq, pk, n, t);
    }
  }

  /** The table into which `parse_info` puts the row of a child with the
      tag (TableCount: none). */
  function InfoTagTable(tag: string): nat
  {
    if tag == "links" then LinksT
    else if tag == "bibl" then BiblT
    else if tag == "etym" then EtymT
    else if tag == "audit" then AuditT
    else TableCount
  }

  /** A child of an info element appends only to its tag's table. */
  lemma InfoChildTable(pk: nat, c: Node)
    ensures forall j :: 0 <= j < |InfoChild(pk, c)| ==> TableOf(InfoChild(pk, c)[j]) == InfoTagTable(c.tag) < TableCount
  {
    if c.tag == "links" {
      assert InfoChild(pk, c) == [LinksRow(pk, c)];
      assert InfoTagTable(c.tag) == LinksT;
    } else if c.tag == "bibl" {
      assert InfoChild(pk, c) == [BiblRow(pk, c)];
      assert InfoTagTable(c.tag) == BiblT;
    } else if c.tag == "etym" {
      assert InfoChild(pk, c) == [Etym(pk, c.text)];
      assert InfoTagTable(c.tag) == EtymT;
    } else if c.tag == "audit" {
      assert InfoChild(pk, c) == [AuditRow(pk, c)];
      assert InfoTagTable(c.tag) == AuditT;
    } else {
      assert InfoChild(pk, c) == [];
    }
  }

  /** The rows `parse_info` appends to table t: its children's, then its
      own row when t is its table. */
  lemma InfoRowsAt(entSeq: Option<string>, pk: nat, n: Node, t: nat)
    ensures Filter(InfoRows(entSeq, pk, n), t, TableOf)
              == Filter(InfoChildren(pk, n.children), t, TableOf) + (if t == InfoT then [Info(pk, entSeq)] else [])
  {
    FilterSnoc(InfoChildren(pk, n.children), Info(pk, entSeq), t, TableOf);
  }

  /** The rows `parse_info` appends to the table of one child tag: one row
      g(c) per child c with that tag, in child order. */
  lemma InfoByTag(entSeq: Option<string>, pk: nat, n: Node, tag: string, g: Node -> JRow)
    requires InfoTagTable(tag) < TableCount
    requires forall c: Node :: c.tag == tag ==> InfoChild(pk, c) == [g(c)]
    ensures Filter(InfoRows(entSeq, pk, n), InfoTagTable(tag), TableOf) == Map(Select(n.children, tag), g)
  {
    forall c: Node {
      InfoChildTable(pk, c);
    }
    FilterByTagTable(n.children, (c: Node) => InfoChild(pk, c), TableOf, InfoTagTable, tag, g);
    InfoRowsAt(entSeq, pk, n, InfoTagTable(tag));
  }

  /** `parse_info` appends exactly one info row, whatever its children; one
      etym row per etym child, holding its text, in child order and carrying
      the element's key; and nothing outside the info group of tables. */
  lemma InfoTables(entSeq: Option<string>, pk: nat, n: Node)
    ensures Filter(InfoRows(entSeq, pk, n), InfoT, TableOf) == [Info(pk, entSeq)]
    ensures Filter(InfoRows(entSeq, pk, n), EtymT, TableOf) == Map(Select(n.children, "etym"), (c: Node) => Etym(pk, c.text))
    ensures forall t :: t != InfoT && t != LinksT && t != BiblT && t != EtymT && t != AuditT ==> Filter(InfoRows(entSeq, pk, n), t, TableOf) == []
  {
    var cs, h := n.children, (c: Node) => InfoChild(pk, c);
    assert Filter(InfoRows(entSeq, pk, n), EtymT, TableOf) == Map(Select(cs, "etym"), (c: Node) => Etym(pk, c.text)) by {
      InfoByTag(entSeq, pk, n, "etym", (c: Node) => Etym(pk, c.text));
    }
    forall t | t != LinksT && t != BiblT && t != EtymT && t != AuditT
      ensures Filter(InfoRows(entSeq, pk, n), t, TableOf) == if t == InfoT then [Info(pk, entSeq)] else []
    {
      forall c: Node {
        InfoChildTable(pk, c);
      }
      FilterOff(cs, h, TableOf, t);
      InfoRowsAt(entSeq, pk, n, t);
    }
  }

  /** `parse_info` appends one links row per links child, whose columns are
      the texts of that child's last link_tag, link_desc and link_uri
      children; likewise one bibl row per bibl child (as corrected: last
      bib_tag and bib_txt) and one audit row per audit child (last upd_date
      and upd_detl); all in child order, carrying the element's key. */
  lemma InfoRecordTables(entSeq: Option<string>, pk: nat, n: Node)
    ensures Filter(InfoRows(entSeq, pk, n), LinksT, TableOf)
              == Map(Select(n.children, "links"),
                     (c: Node) => Links(pk, LastText(c.children, "link_tag"), LastText(c.children, "link_desc"), LastText(c.children, "link_uri")))
    ensures Filter(InfoRows(entSeq, pk, n), BiblT, TableOf)
              == Map(Select(n.children, "bibl"), (c: Node) => Bibl(pk, LastText(c.children, "bib_tag"), LastText(c.children, "bib_txt")))
    ensures Filter(InfoRows(entSeq, pk, n), AuditT, TableOf)
              == Map(Select(n.children, "audit"), (c: Node) => Audit(pk, LastText(c.children, "upd_date"), LastText(c.children, "upd_detl")))
  {
    assert Filter(InfoRows(entSeq, pk, n), LinksT, TableOf) == Map(Select(n.children, "links"), (c: Node) => Links(pk, LastText(c.children, "link_tag"), LastText(c.children, "link_desc"), LastText(c.children, "link_uri"))) by {
      InfoByTag(entSeq, pk, n, "links", (c: Node) => Links(pk, LastText(c.children, "link_tag"), LastText(c.children, "link_desc"), LastText(c.children, "link_uri")));
    }
    assert Filter(InfoRows(entSeq, pk, n), BiblT, TableOf) == Map(Select(n.children, "bibl"), (c: Node) => Bibl(pk, LastText(c.children, "bib_tag"), LastText(c.children, "bib_txt"))) by {
      InfoByTag(entSeq, pk, n, "bibl", (c: Node) => Bibl(pk, LastText(c.children, "bib_tag"), LastText(c.children, "bib_txt")));
    }
    assert Filter(InfoRows(entSeq, pk, n), AuditT, TableOf) == Map(Select(n.children, "audit"), (c: Node) => Audit(pk, LastText(c.children, "upd_date"), LastText(c.children, "upd_detl"))) by {
      InfoByTag(entSeq, pk, n, "audit", (c: Node) => Audit(pk, LastText(c.children, "upd_date"), LastText(c.children, "upd_detl")));
    }
  }

  /** The table into which `parse_sense` puts the row of a child with the
      tag (TableCount: none). */
  function SenseTagTable(tag: string): nat
  {
    if tag == "stagk" then StagkT
    else if tag == "stagr" then StagrT
    else if tag == "pos" then PosT
    else if tag == "xref" then XrefT
    else if tag == "ant" then AntT
    else if tag == "field" then FieldT
    else if tag == "misc" then MiscT
    else if tag == "s_inf" then SInfT
    else if tag == "lsource" then LsourceT
    else if tag == "dial" then DialT
    else if tag == "gloss" then GlossT
    else if tag == "example" then ExampleT
    else TableCount
  }

  /** Distinct tags of sense children go to distinct tables, all of them in
      the sense group after the sense table itself. */
  lemma SenseTagTableInjective(x: string, y: string)
    ensures SenseTagTable(x) == SenseTagTable(y) < TableCount ==> x == y
    ensures SenseTagTable(x) == TableCount || SenseT < SenseTagTable(x) <= ExampleT
  {
  }

  /** A child of a sense element contributes at most one row, to its tag's table. */
  lemma SenseChildTable(pk: nat, c: Node)
    ensures |SenseChild(pk, c)| <= 1
    ensures SenseChild(pk, c) != [] ==> TableOf(SenseChild(pk, c)[0]) == SenseTagTable(c.tag)
  {
  }

  /** The rows `parse_sense` appends to one child table: one row g(c) per
      child c with the table's tag, in child order. */
  lemma {:induction false} SenseByTag(entSeq: Option<string>, pk: nat, n: Node, tag: string, g: Node -> JRow)
    requires SenseTagTable(tag) < TableCount
    requires forall c: Node :: c.tag == tag ==> SenseChild(pk, c) == [g(c)]
    ensures Filter(SenseRows(entSeq, pk, n), SenseTagTable(tag), TableOf) == Map(Select(n.children, tag), g)
  {
    var cs, h := n.children, (c: Node) => SenseChild(pk, c);
    forall c: Node {
      SenseChildTable(pk, c);
    }
    forall x {
      SenseTagTableInjective(x, tag);
    }
    FilterByTagTable(cs, h, TableOf, SenseTagTable, tag, g);
    SenseTagTableInjective(tag, tag);
    SenseRowsAt(entSeq, pk, n, SenseTagTable(tag));
  }

  /** Outside the sense table, the rows of `parse_sense` are its children's. */
  lemma SenseRowsAt(entSeq: Option<string>, pk: nat, n: Node, t: nat)
    ensures Filter(SenseRows(entSeq, pk, n), t, TableOf)
              == Filter(SenseChildren(pk, n.children), t, TableOf) + (if t == SenseT then [Sense(pk, entSeq)] else [])
  {
    FilterSnoc(SenseChildren(pk, n.children), Sense(pk, entSeq), t, TableOf);
  }

  /** `parse_sense` appends exactly one sense row, whatever its children, and
      nothing to any table outside the sense group. */
  lemma SenseTables(entSeq: Option<string>, pk: nat, n: Node)
    ensures Filter(SenseRows(entSeq, pk, n), SenseT, TableOf) == [Sense(pk, entSeq)]
    ensures forall t: nat :: (t < SenseT || t > ExampleT) ==> Filter(SenseRows(entSeq, pk, n), t, TableOf) == []
  {
    var cs := n.children;
    forall t: nat | t <= SenseT || t > ExampleT
      ensures Filter(SenseRows(entSeq, pk, n), t, TableOf) == if t == SenseT then [Sense(pk, entSeq)] else []
    {
      forall c: Node
        ensures forall j :: 0 <= j < |SenseChild(pk, c)| ==> TableOf(SenseChild(pk, c)[j]) != t
      {
        SenseChildTable(pk, c);
        SenseTagTableInjective(c.tag, c.tag);
      }
      FilterOff(cs, (c: Node) => SenseChild(pk, c), TableOf, t);
      SenseRowsAt(entSeq, pk, n, t);
    }
  }

  /** `parse_sense` appends one stagk row per stagk child (the kanji
      restriction), holding `unicode` of the child's text (the string "None"
      when it has none), in child order, carrying the element's key. */
  lemma StagkTable(entSeq: Option<string>, pk: nat, n: Node)
    ensures Filter(SenseRows(entSeq, pk, n), StagkT, TableOf) == Map(Select(n.children, "stagk"), (c: Node) => Stagk(pk, Unicode(c.text)))
  {
    SenseByTag(entSeq, pk, n, "stagk", (c: Node) => Stagk(pk, Unicode(c.text)));
  }

  /** `parse_sense` appends one stagr row per stagr child (the reading
      restriction), holding `unicode` of the child's text (the string "None"
      when it has none), in child order, carrying the element's key. */
  lemma StagrTable(entSeq: Option<string>, pk: nat, n: Node)
    ensures Filter(SenseRows(entSeq, pk, n), StagrT, TableOf) == Map(Select(n.children, "stagr"), (c: Node) => Stagr(pk, Unicode(c.text)))
  {
    SenseByTag(entSeq, pk, n, "stagr", (c: Node) => Stagr(pk, Unicode(c.text)));
  }

  /** `parse_sense` appends one xref row per xref child (the cross-reference),
      holding `unicode` of the child's text (the string "None" when it has
      none), in child order, carrying the element's key. */
  lemma XrefTable(entSeq: Option<string>, pk: nat, n: Node)
    ensures Filter(SenseRows(entSeq, pk, n), XrefT, TableOf) == Map(Select(n.children, "xref"), (c: Node) => Xref(pk, Unicode(c.text)))
  {
    SenseByTag(entSeq, pk, n, "xref", (c: Node) => Xref(pk, Unicode(c.text)));
  }

  /** `parse_sense` appends one ant row per ant child (the antonym), holding
      `unicode` of the child's text (the string "None" when it has none), in
      child order, carrying the element's key. */
  lemma AntTable(entSeq: Option<string>, pk: nat, n: Node)
    ensures Filter(SenseRows(entSeq, pk, n), AntT, TableOf) == Map(Select(n.children, "ant"), (c: Node) => Ant(pk, Unicode(c.text)))
  {
    SenseByTag(entSeq, pk, n, "ant", (c: Node) => Ant(pk, Unicode(c.text)));
  }

  /** `parse_sense` appends one s_inf row per s_inf child (the sense note),
      holding `unicode` of the child's text (the string "None" when it has
      none), in child order, carrying the element's key. */
  lemma SInfTable(entSeq: Option<string>, pk: nat, n: Node)
    ensures Filter(SenseRows(entSeq, pk, n), SInfT, TableOf) == Map(Select(n.children, "s_inf"), (c: Node) => SInf(pk, Unicode(c.text)))
  {
    SenseByTag(entSeq, pk, n, "s_inf", (c: Node) => SInf(pk, Unicode(c.text)));
  }

  /** `parse_sense` appends one example row per example child (the example),
      holding `unicode` of the child's text (the string "None" when it has
      none), in child order, carrying the element's key. */
  lemma ExampleTable(entSeq: Option<string>, pk: nat, n: Node)
    ensures Filter(SenseRows(entSeq, pk, n), ExampleT, TableOf) == Map(Select(n.children, "example"), (c: Node) => Example(pk, Unicode(c.text)))
  {
    SenseByTag(entSeq, pk, n, "example", (c: Node) => Example(pk, Unicode(c.text)));
  }

  /** `parse_sense` appends one pos row per pos child (the part of speech),
      holding the child's text as it is (None stays None), in child order,
      carrying the element's key. */
  lemma PosTable(entSeq: Option<string>, pk: nat, n: Node)
    ensures Filter(SenseRows(entSeq, pk, n), PosT, TableOf) == Map(Select(n.children, "pos"), (c: Node) => Pos(pk, c.text))
  {
    SenseByTag(entSeq, pk, n, "pos", (c: Node) => Pos(pk, c.text));
  }

  /** `parse_sense` appends one misc row per misc child (the misc entity),
      holding the child's text as it is (None stays None), in child order,
      carrying the element's key. */
  lemma MiscTable(entSeq: Option<string>, pk: nat, n: Node)
    ensures Filter(SenseRows(entSeq, pk, n), MiscT, TableOf) == Map(Select(n.children, "misc"), (c: Node) => Misc(pk, c.text))
  {
    SenseByTag(entSeq, pk, n, "misc", (c: Node) => Misc(pk, c.text));
  }

  /** `parse_sense` appends one field row per field child (the field of
      application), holding the child's text as it is (None stays None), in
      child order, carrying the element's key. */
  lemma FieldTable(entSeq: Option<string>, pk: nat, n: Node)
    ensures Filter(SenseRows(entSeq, pk, n), FieldT, TableOf) == Map(Select(n.children, "field"), (c: Node) => Field(pk, c.text))
  {
    SenseByTag(entSeq, pk, n, "field", (c: Node) => Field(pk, c.text));
  }

  /** `parse_sense` appends one dial row per dial child (the dialect), holding
      the child's text as it is (None stays None), in child order, carrying the
      element's key. */
  lemma DialTable(entSeq: Option<string>, pk: nat, n: Node)
    ensures Filter(SenseRows(entSeq, pk, n), DialT, TableOf) == Map(Select(n.children, "dial"), (c: Node) => Dial(pk, c.text))
  {
    SenseByTag(entSeq, pk, n, "dial", (c: Node) => Dial(pk, c.text));
  }

  /** `parse_sense` appends one lsource row per lsource child: its text (None
      stays None), xml:lang or else "eng", ls_type or else "full", and
      ls_wasei true exactly when the attribute is present, whatever its
      value; in child order, carrying the element's key. */
  lemma LsourceTable(entSeq: Option<string>, pk: nat, n: Node)
    ensures Filter(SenseRows(entSeq, pk, n), LsourceT, TableOf) == Map(Select(n.children, "lsource"), (c: Node) => Lsource(pk, c.text, if XmlLang in c.attrs then c.attrs[XmlLang] else "eng", if "ls_type" in c.attrs then c.attrs["ls_type"] else "full", "ls_wasei" in c.attrs))
  {
    SenseByTag(entSeq, pk, n, "lsource", (c: Node) => Lsource(pk, c.text, if XmlLang in c.attrs then c.attrs[XmlLang] else "eng", if "ls_type" in c.attrs then c.attrs["ls_type"] else "full", "ls_wasei" in c.attrs));
  }

  /** `parse_sense` appends one gloss row per gloss child: `unicode` of its text,
      xml:lang or else "eng", and g_gend or else None; in child order,
      carrying the element's key. */
  lemma GlossTable(entSeq: Option<string>, pk: nat, n: Node)
    ensures Filter(SenseRows(entSeq, pk, n), GlossT, TableOf) == Map(Select(n.children, "gloss"), (c: Node) => Gloss(pk, Unicode(c.text), if XmlLang in c.attrs then c.attrs[XmlLang] else "eng", if "g_gend" in c.attrs then Some(c.attrs["g_gend"]) else None))
  {
    SenseByTag(entSeq, pk, n, "gloss", (c: Node) => Gloss(pk, Unicode(c.text), if XmlLang in c.attrs then c.attrs[XmlLang] else "eng", if "g_gend" in c.attrs then Some(c.attrs["g_gend"]) else None));
  }

  // ---- the bibl loop as written ----

  /** A bibl holding a bib_tag and then a bib_txt: as written, the bib_tag
      is lost, whatever an earlier bibl left behind, while the corrected
      row keeps both texts. */
  lemma BiblAsWrittenDropsTag(pk: nat, prev: Option<(Option<string>, Option<string>)>)
    ensures var i := Node("bibl", None, map[], [Node("bib_tag", Some("X"), map[], []), Node("bib_txt", Some("Y"), map[], [])]);
              && BiblRowAsWritten(pk, prev, i) == Some(Bibl(pk, None, Some("Y")))
              && BiblRow(pk, i) == Bibl(pk, Some("X"), Some("Y"))
  {
    var b1, b2 := Node("bib_tag", Some("X"), map[], []), Node("bib_txt", Some("Y"), map[], []);
    assert [b1, b2][..1] == [b1];
    assert [b1][..0] == [];
  }

  /** A bibl without children: as written, the first one of an info
      element has no row (the locals are unbound), and a later one repeats
      the columns an earlier bibl left; the corrected row is all None. */
  lemma BiblAsWrittenEmpty(pk: nat, prev: Option<(Option<string>, Option<string>)>)
    ensures var i := Node("bibl", None, map[], []);
              && BiblRowAsWritten(pk, prev, i) == (if prev.Some? then Some(Bibl(pk, prev.value.0, prev.value.1)) else None)
              && BiblRow(pk, i) == Bibl(pk, None, None)
  {
  }

  /** Where the two agree: a bibl with exactly one child gets the same row
      as written and corrected. */
  lemma BiblAsWrittenSingle(pk: nat, prev: Option<(Option<string>, Option<string>)>, i: Node)
    requires |i.children| == 1
    ensures BiblRowAsWritten(pk, prev, i) == Some(BiblRow(pk, i))
  {
    var b := i.children[0];
    assert i.children[..0] == [];
    assert LastText(i.children, "bib_tag") == if b.tag == "bib_tag" then b.text else None;
    assert LastText(i.children, "bib_txt") == if b.tag == "bib_txt" then b.text else None;
  }
}
