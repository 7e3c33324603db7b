/** What the JMdict loader appends: for every dispatcher, the rows it appends
    for one element, in the order it appends them; for the stream driver,
    the rows of a whole run and the key counters it ends with. */
module JmdictSpec {
  import opened Seqs
  import opened Xml
  import opened JmdictRows

  // ---- parse_k_ele ----

  /** Rows appended for one child of a k_ele element. */
  function KEleChild(pk: nat, c: Node): seq<JRow>
  {
    if c.tag == "keb" then []
    else if c.tag == "ke_inf" then [KeInf(pk, c.text)]
    else if c.tag == "ke_pri" then [KePri(pk, c.text)]
    else []
  }

  function KEleChildren(pk: nat, cs: seq<Node>): seq<JRow>
  {
    FlatMap(cs, c => KEleChild(pk, c))
  }

  /** KEleChildren over one more child. */
  lemma KEleChildrenSnoc(pk: nat, cs: seq<Node>, i: nat)
    requires i < |cs|
    ensures KEleChildren(pk, cs[..i + 1]) == KEleChildren(pk, cs[..i]) + KEleChild(pk, cs[i])
    ensures LastText(cs[..i + 1], "keb") == if cs[i].tag == "keb" then cs[i].text else LastText(cs[..i], "keb")
  {
    assert cs[..i + 1] == cs[..i] + [cs[i]];
    LastTextSnoc(cs[..i], cs[i], "keb");
  }

  /** Rows appended by `parse_k_ele(ent_seq, k_ele_pk, node)`: the children's
      rows, then the k_ele row itself. */
  function KEleRows(entSeq: Option<string>, pk: nat, n: Node): seq<JRow>
  {
    KEleChildren(pk, n.children) + [KEle(pk, entSeq, LastText(n.children, "keb"))]
  }

  // ---- parse_r_ele ----

  function REleChild(pk: nat, c: Node): seq<JRow>
  {
    if c.tag == "reb" then []
    else if c.tag == "re_nokanji" then []
    else if c.tag == "re_restr" then [ReRestr(pk, Unicode(c.text))]
    else if c.tag == "re_inf" then [ReInf(pk, Unicode(c.text))]
    else if c.tag == "re_pri" then [RePri(pk, c.text)]
    else []
  }

  function REleChildren(pk: nat, cs: seq<Node>): seq<JRow>
  {
    FlatMap(cs, c => REleChild(pk, c))
  }

  /** The reb column: `unicode` of the last reb child's text, or None when
      there is no reb child. */
  function Reb(cs: seq<Node>): Option<string>
  {
    if HasChild(cs, "reb") then Unicode(LastText(cs, "reb")) else None
  }

  /** REleChildren, Reb and the presence of re_nokanji over one more child. */
  lemma REleChildrenSnoc(pk: nat, cs: seq<Node>, i: nat)
    requires i < |cs|
    ensures REleChildren(pk, cs[..i + 1]) == REleChildren(pk, cs[..i]) + REleChild(pk, cs[i])
    ensures Reb(cs[..i + 1]) == if cs[i].tag == "reb" then Unicode(cs[i].text) else Reb(cs[..i])
    ensures HasChild(cs[..i + 1], "re_nokanji") == (HasChild(cs[..i], "re_nokanji") || cs[i].tag == "re_nokanji")
  {
    assert cs[..i + 1] == cs[..i] + [cs[i]];
    HasChildSnoc(cs[..i], cs[i], "re_nokanji");
    HasChildSnoc(cs[..i], cs[i], "reb");
    LastTextSnoc(cs[..i], cs[i], "reb");
  }

  /** Rows appended by `parse_r_ele`: re_nokanji is set by the mere presence
      of a re_nokanji child. */
  function REleRows(entSeq: Option<string>, pk: nat, n: Node): seq<JRow>
  {
    REleChildren(pk, n.children)
    + [REle(pk, entSeq, Reb(n.children), HasChild(n.children, "re_nokanji"))]
  }

  // ---- parse_info ----

  function LinksRow(pk: nat, i: Node): JRow
  {
    Links(pk, LastText(i.children, "link_tag"), LastText(i.children, "link_desc"), LastText(i.children, "link_uri"))
  }

  /** The bibl row as evidently intended: like links and audit, each column
      holds the text of the last child with its tag. */
  function BiblRow(pk: nat, i: Node): JRow
  {
    Bibl(pk, LastText(i.children, "bib_tag"), LastText(i.children, "bib_txt"))
  }

  /** The values of `bib_tag` and `bib_txt` after the bibl loop as it is
      written, from the values they held before it (None while they are
      still unbound): both are reset at every child, so only the last child
      can contribute, and a bibl without children leaves them as they were,
      which for the first such loop of a `parse_info` call means unbound. */
  function BiblLocalsAsWritten(prev: Option<(Option<string>, Option<string>)>, bs: seq<Node>): Option<(Option<string>, Option<string>)>
  {
    if bs == [] then prev
    else
      var b := bs[|bs| - 1];
      Some((if b.tag == "bib_tag" then b.text else None, if b.tag == "bib_txt" then b.text else None))
  }

  /** The bibl row as the branch is written; None when the locals are
      unbound, where the source raises an error. */
  function BiblRowAsWritten(pk: nat, prev: Option<(Option<string>, Option<string>)>, i: Node): Option<JRow>
  {
    match BiblLocalsAsWritten(prev, i.children)
    case None => None
    case Some(l) => Some(Bibl(pk, l.0, l.1))
  }

  function AuditRow(pk: nat, i: Node): JRow
  {
    Audit(pk, LastText(i.children, "upd_date"), LastText(i.children, "upd_detl"))
  }

  function InfoChild(pk: nat, c: Node): seq<JRow>
  {
    if c.tag == "links" then [LinksRow(pk, c)]
    else if c.tag == "bibl" then [BiblRow(pk, c)]
    else if c.tag == "etym" then [Etym(pk, c.text)]
    else if c.tag == "audit" then [AuditRow(pk, c)]
    else []
  }

  function InfoChildren(pk: nat, cs: seq<Node>): seq<JRow>
  {
    FlatMap(cs, c => InfoChild(pk, c))
  }

  /** InfoChildren over one more child. */
  lemma InfoChildrenSnoc(pk: nat, cs: seq<Node>, i: nat)
    requires i < |cs|
    ensures InfoChildren(pk, cs[..i + 1]) == InfoChildren(pk, cs[..i]) + InfoChild(pk, cs[i])
  {
    assert cs[..i + 1][..i] == cs[..i];
  }

  /** Rows appended by `parse_info`: the info row comes last, whatever the children. */
  function InfoRows(entSeq: Option<string>, pk: nat, n: Node): seq<JRow>
  {
    InfoChildren(pk, n.children) + [Info(pk, entSeq)]
  }

  // ---- parse_sense ----

  /** An lsource row: ls_type defaults to "full" and xml:lang to "eng" when
      the attribute is absent; ls_wasei is true when the attribute is present. */
  function LsourceRow(pk: nat, s: Node): JRow
  {
    Lsource(pk, s.text, GetOr(s, XmlLang, "eng"), GetOr(s, "ls_type", "full"), "ls_wasei" in s.attrs)
  }

  /** A gloss row: its text through `unicode`; xml:lang defaults to "eng";
      g_gend stays None when absent. */
  function GlossRow(pk: nat, s: Node): JRow
  {
    Gloss(pk, Unicode(s.text), GetOr(s, XmlLang, "eng"), Get(s, "g_gend"))
  }

  function SenseChild(pk: nat, c: Node): seq<JRow>
  {
    if c.tag == "stagk" then [Stagk(pk, Unicode(c.text))]
    else if c.tag == "stagr" then [Stagr(pk, Unicode(c.text))]
    else if c.tag == "pos" then [Pos(pk, c.text)]
    else if c.tag == "xref" then [Xref(pk, Unicode(c.text))]
    else if c.tag == "ant" then [Ant(pk, Unicode(c.text))]
    else if c.tag == "field" then [Field(pk, c.text)]
    else if c.tag == "misc" then [Misc(pk, c.text)]
    else if c.tag == "s_inf" then [SInf(pk, Unicode(c.text))]
    else if c.tag == "lsource" then [LsourceRow(pk, c)]
    else if c.tag == "dial" then [Dial(pk, c.text)]
    else if c.tag == "gloss" then [GlossRow(pk, c)]
    else if c.tag == "example" then [Example(pk, Unicode(c.text))]
    else []
  }

  function SenseChildren(pk: nat, cs: seq<Node>): seq<JRow>
  {
    FlatMap(cs, c => SenseChild(pk, c))
  }

  /** SenseChildren over one more child. */
  lemma SenseChildrenSnoc(pk: nat, cs: seq<Node>, i: nat)
    requires i < |cs|
    ensures SenseChildren(pk, cs[..i + 1]) == SenseChildren(pk, cs[..i]) + SenseChild(pk, cs[i])
  {
    assert cs[..i + 1][..i] == cs[..i];
  }

  /** Rows appended by `parse_sense`: the sense row comes last, whatever the children. */
  function SenseRows(entSeq: Option<string>, pk: nat, n: Node): seq<JRow>
  {
    SenseChildren(pk, n.children) + [Sense(pk, entSeq)]
  }

  // ---- fill_database ----

  /** The key family an entry child opens, if it is one of the four
      dispatched elements. */
  function FamilyOf(tag: string): (r: Option<Family>)
    ensures r.Some? ==> FamilyTag(r.value) == tag
    ensures forall f :: FamilyTag(f) == tag ==> r == Some(f)
  {
    if tag == "k_ele" then Some(KEleKeys)
    else if tag == "r_ele" then Some(REleKeys)
    else if tag == "info" then Some(InfoKeys)
    else if tag == "sense" then Some(SenseKeys)
    else None
  }

  /** The dispatcher of family f, given the entry's sequence number and the
      freshly allocated key. */
  function Dispatch(f: Family, entSeq: Option<string>, pk: nat, e: Node): seq<JRow>
  {
    match f
    case KEleKeys => KEleRows(entSeq, pk, e)
    case REleKeys => REleRows(entSeq, pk, e)
    case InfoKeys => InfoRows(entSeq, pk, e)
    case SenseKeys => SenseRows(entSeq, pk, e)
  }

  /** The driver's locals while it walks the children of one entry, and the
      rows appended so far for that entry. */
  datatype EntryState = EntryState(entSeq: Option<string>, keys: Keys, rows: seq<JRow>)

  /** One child of an entry: ent_seq records the sequence number (and an
      entry row); a dispatched child bumps its family's counter and is then
      dispatched with the new key; any other child is skipped. */
  function EntryStep(s: EntryState, e: Node): EntryState
  {
    if e.tag == "ent_seq" then EntryState(e.text, s.keys, s.rows + [Entry(e.text)])
    else match FamilyOf(e.tag)
      case Some(f) =>
        var k := s.keys.Bump(f);
        EntryState(s.entSeq, k, s.rows + Dispatch(f, s.entSeq, k.Get(f), e))
      case None => s
  }

  /** A step appends to the rows so far what it appends from none. */
  lemma EntryStepRows(s: EntryState, e: Node)
    ensures var t := EntryStep(EntryState(s.entSeq, s.keys, []), e);
              EntryStep(s, e) == EntryState(t.entSeq, t.keys, s.rows + t.rows)
  {
  }

  /** A step on a dispatched child of family f, from no rows: the counter of
      f goes up by one and the rows are f's dispatcher's with the new key. */
  lemma EntryStepDispatched(entSeq: Option<string>, k: Keys, e: Node, f: Family)
    requires e.tag == FamilyTag(f)
    ensures EntryStep(EntryState(entSeq, k, []), e)
              == EntryState(entSeq, k.Bump(f), Dispatch(f, entSeq, k.Bump(f).Get(f), e))
  {
    assert FamilyOf(e.tag) == Some(f);
    assert [] + Dispatch(f, entSeq, k.Bump(f).Get(f), e) == Dispatch(f, entSeq, k.Bump(f).Get(f), e);
  }

  /** The driver's walk over the children of one entry, starting from counters k. */
  function EntryWalk(k: Keys, cs: seq<Node>): EntryState
  {
    if cs == [] then EntryState(None, k, [])
    else EntryStep(EntryWalk(k, cs[..|cs| - 1]), cs[|cs| - 1])
  }

  /** The driver's state after a prefix of the parse events: the counters
      and every row appended. */
  datatype RunState = RunState(keys: Keys, rows: seq<JRow>)

  /** The driver over the completed elements of a parse, in document order:
      only `entry` elements are processed; counters start at 0. */
  function Run(events: seq<Node>): RunState
  {
    if events == [] then RunState(Keys(0, 0, 0, 0), [])
    else
      var r := Run(events[..|events| - 1]);
      var e := events[|events| - 1];
      if e.tag == "entry" then
        var w := EntryWalk(r.keys, e.children);
        RunState(w.keys, r.rows + w.rows)
      else r
  }

  /** How many children with the tag the entries among the events hold. */
  function TagCount(events: seq<Node>, tag: string): nat
  {
    if events == [] then 0
    else
      var e := events[|events| - 1];
      TagCount(events[..|events| - 1], tag) + (if e.tag == "entry" then |Select(e.children, tag)| else 0)
  }

  /** How many entry elements the events hold. */
  function EntryCount(events: seq<Node>): nat
  {
    if events == [] then 0
    else EntryCount(events[..|events| - 1]) + (if events[|events| - 1].tag == "entry" then 1 else 0)
  }

  /** The rows of each entry among the events, one block per entry, in
      document order: what the driver counts in save_now. */
  function Blocks(events: seq<Node>): seq<seq<JRow>>
  {
    if events == [] then []
    else
      var pre, e := events[..|events| - 1], events[|events| - 1];
      Blocks(pre) + (if e.tag == "entry" then [EntryWalk(Run(pre).keys, e.children).rows] else [])
  }

  /** The blocks are one per entry and, joined, are the rows of the run. */
  lemma {:induction false} BlocksRun(events: seq<Node>)
    ensures |Blocks(events)| == EntryCount(events)
    ensures Flatten(Blocks(events)) == Run(events).rows
    decreases |events|
  {
    if events != [] {
      var pre, e := events[..|events| - 1], events[|events| - 1];
      BlocksRun(pre);
      if e.tag == "entry" {
        var b := EntryWalk(Run(pre).keys, e.children).rows;
        assert (Blocks(pre) + [b])[..|Blocks(pre)|] == Blocks(pre);
      } else {
        assert Blocks(pre) + [] == Blocks(pre);
      }
    }
  }

  /** Run, EntryCount and Blocks over one more event. */
  lemma RunSnoc(events: seq<Node>, n: nat)
    requires n < |events|
    ensures var r, e := Run(events[..n]), events[n];
            && Run(events[..n + 1]).keys == (if e.tag == "entry" then EntryWalk(r.keys, e.children).keys else r.keys)
            && Run(events[..n + 1]).rows == r.rows + (if e.tag == "entry" then EntryWalk(r.keys, e.children).rows else [])
            && EntryCount(events[..n + 1]) == EntryCount(events[..n]) + (if e.tag == "entry" then 1 else 0)
            && Blocks(events[..n + 1]) == Blocks(events[..n]) + (if e.tag == "entry" then [EntryWalk(r.keys, e.children).rows] else [])
  {
    assert events[..n + 1][..n] == events[..n];
    assert events[..n + 1][n] == events[n];
    assert Run(events[..n]).rows + [] == Run(events[..n]).rows;
    assert Blocks(events[..n]) + [] == Blocks(events[..n]);
  }
}
