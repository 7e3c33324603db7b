/** What the KANJIDIC2 loader appends: for every dispatcher, the rows it
    appends for one element, in the order it appends them; for the stream
    driver, the rows of a whole run. */
module KanjidicSpec {
  import opened Seqs
  import opened Xml
  import opened KanjidicRows

  // ---- parse_misc ----

  /** Rows appended for one child of a misc element. */
  function MiscChild(lit: Option<string>, m: Node): seq<KRow>
  {
    if m.tag == "grade" then []
    else if m.tag == "stroke_count" then [StrokeCount(lit, m.text)]
    else if m.tag == "variant" then [Variant(lit, m.text, Get(m, "var_type"))]
    else if m.tag == "freq" then []
    else if m.tag == "rad_name" then [RadName(lit, Unicode(m.text))]
    else []
  }

  function MiscChildren(lit: Option<string>, cs: seq<Node>): seq<KRow>
  {
    FlatMap(cs, (m: Node) => MiscChild(lit, m))
  }
  /** MiscChildren and the grade, freq and jlpt locals over one more child. */
  lemma MiscChildrenSnoc(lit: Option<string>, cs: seq<Node>, i: nat)
    requires i < |cs|
    ensures MiscChildren(lit, cs[..i + 1]) == MiscChildren(lit, cs[..i]) + MiscChild(lit, cs[i])
    ensures LastText(cs[..i + 1], "grade") == if cs[i].tag == "grade" then cs[i].text else LastText(cs[..i], "grade")
    ensures LastText(cs[..i + 1], "freq") == if cs[i].tag == "freq" then cs[i].text else LastText(cs[..i], "freq")
    ensures LastText(cs[..i + 1], "jlpt") == if cs[i].tag == "jlpt" then cs[i].text else LastText(cs[..i], "jlpt")
  {
    assert cs[..i + 1] == cs[..i] + [cs[i]];
    LastTextSnoc(cs[..i], cs[i], "grade");
    LastTextSnoc(cs[..i], cs[i], "freq");
    LastTextSnoc(cs[..i], cs[i], "jlpt");
  }


  /** Rows appended by `parse_misc(literal, node)`: the children's rows, then
      the character row, whose grade, freq and jlpt are the texts of the
      last children with those tags. */
  function MiscRows(lit: Option<string>, n: Node): seq<KRow>
  {
    MiscChildren(lit, n.children)
    + [Character(lit, LastText(n.children, "grade"), LastText(n.children, "freq"), LastText(n.children, "jlpt"))]
  }

  // ---- parse_dic_number, parse_query_code, parse_radical, parse_codepoint ----

  function DicRefRow(lit: Option<string>, d: Node): KRow
  {
    DicRef(lit, d.text, Get(d, "dr_type"), Get(d, "m_vol"), Get(d, "m_page"))
  }

  /** Rows appended by `parse_dic_number`: one dic_ref row per child, whatever its tag. */
  function DicNumberRows(lit: Option<string>, n: Node): seq<KRow>
  {
    DicRefs(lit, n.children)
  }

  function DicRefs(lit: Option<string>, cs: seq<Node>): seq<KRow>
  {
    FlatMap(cs, (d: Node) => [DicRefRow(lit, d)])
  }
  /** DicRefs over one more child. */
  lemma DicRefsSnoc(lit: Option<string>, cs: seq<Node>, i: nat)
    requires i < |cs|
    ensures DicRefs(lit, cs[..i + 1]) == DicRefs(lit, cs[..i]) + [DicRefRow(lit, cs[i])]
  {
    assert cs[..i + 1][..i] == cs[..i];
  }


  function QueryCodeRow(lit: Option<string>, q: Node): KRow
  {
    QueryCode(lit, Unicode(q.text), Get(q, "qc_type"), Get(q, "skip_misclass"))
  }

  /** Rows appended by `parse_query_code`: one query_code row per child, whatever its tag. */
  function QueryCodeRows(lit: Option<string>, n: Node): seq<KRow>
  {
    QueryCodes(lit, n.children)
  }

  function QueryCodes(lit: Option<string>, cs: seq<Node>): seq<KRow>
  {
    FlatMap(cs, (q: Node) => [QueryCodeRow(lit, q)])
  }
  /** QueryCodes over one more child. */
  lemma QueryCodesSnoc(lit: Option<string>, cs: seq<Node>, i: nat)
    requires i < |cs|
    ensures QueryCodes(lit, cs[..i + 1]) == QueryCodes(lit, cs[..i]) + [QueryCodeRow(lit, cs[i])]
  {
    assert cs[..i + 1][..i] == cs[..i];
  }


  function RadValueRow(lit: Option<string>, r: Node): KRow
  {
    RadValue(lit, r.text, Get(r, "rad_type"))
  }

  /** Rows appended by `parse_radical`: one rad_value row per child, whatever its tag. */
  function RadicalRows(lit: Option<string>, n: Node): seq<KRow>
  {
    RadValues(lit, n.children)
  }

  function RadValues(lit: Option<string>, cs: seq<Node>): seq<KRow>
  {
    FlatMap(cs, (r: Node) => [RadValueRow(lit, r)])
  }
  /** RadValues over one more child. */
  lemma RadValuesSnoc(lit: Option<string>, cs: seq<Node>, i: nat)
    requires i < |cs|
    ensures RadValues(lit, cs[..i + 1]) == RadValues(lit, cs[..i]) + [RadValueRow(lit, cs[i])]
  {
    assert cs[..i + 1][..i] == cs[..i];
  }


  function CodepointRow(lit: Option<string>, c: Node): KRow
  {
    Codepoint(lit, c.text, Get(c, "cp_type"))
  }

  /** Rows appended by `parse_codepoint`: one codepoint row per child, whatever its tag. */
  function CodepointRows(lit: Option<string>, n: Node): seq<KRow>
  {
    Codepoints(lit, n.children)
  }

  function Codepoints(lit: Option<string>, cs: seq<Node>): seq<KRow>
  {
    FlatMap(cs, (c: Node) => [CodepointRow(lit, c)])
  }
  /** Codepoints over one more child. */
  lemma CodepointsSnoc(lit: Option<string>, cs: seq<Node>, i: nat)
    requires i < |cs|
    ensures Codepoints(lit, cs[..i + 1]) == Codepoints(lit, cs[..i]) + [CodepointRow(lit, cs[i])]
  {
    assert cs[..i + 1][..i] == cs[..i];
  }


  // ---- parse_reading_meaning ----

  function ReadingRow(lit: Option<string>, g: Node): KRow
  {
    Reading(lit, Unicode(g.text), Get(g, "r_type"), Get(g, "on_type"), Get(g, "r_status"))
  }

  /** A meaning row: m_lang is the attribute, or "en" when it is absent. */
  function MeaningRow(lit: Option<string>, g: Node): KRow
  {
    Meaning(lit, Unicode(g.text), GetOr(g, "m_lang", "en"))
  }

  /** Rows appended for one child of an rmgroup element. */
  function RmGroupChild(lit: Option<string>, g: Node): seq<KRow>
  {
    if g.tag == "reading" then [ReadingRow(lit, g)]
    else if g.tag == "meaning" then [MeaningRow(lit, g)]
    else []
  }

  function RmGroupChildren(lit: Option<string>, gs: seq<Node>): seq<KRow>
  {
    FlatMap(gs, (g: Node) => RmGroupChild(lit, g))
  }
  /** RmGroupChildren over one more child. */
  lemma RmGroupChildrenSnoc(lit: Option<string>, gs: seq<Node>, i: nat)
    requires i < |gs|
    ensures RmGroupChildren(lit, gs[..i + 1]) == RmGroupChildren(lit, gs[..i]) + RmGroupChild(lit, gs[i])
  {
    assert gs[..i + 1][..i] == gs[..i];
  }


  function RmGroupRows(lit: Option<string>, rm: Node): seq<KRow>
  {
    RmGroupChildren(lit, rm.children)
  }

  /** Rows appended for one child of a reading_meaning element: an rmgroup
      contributes its readings and meanings, a nanori its own row. */
  function ReadingMeaningChild(lit: Option<string>, rm: Node): seq<KRow>
  {
    if rm.tag == "rmgroup" then RmGroupRows(lit, rm)
    else if rm.tag == "nanori" then [Nanori(lit, Unicode(rm.text))]
    else []
  }

  /** Rows appended by `parse_reading_meaning`. */
  function ReadingMeaningRows(lit: Option<string>, n: Node): seq<KRow>
  {
    ReadingMeaningChildren(lit, n.children)
  }

  function ReadingMeaningChildren(lit: Option<string>, cs: seq<Node>): seq<KRow>
  {
    FlatMap(cs, (rm: Node) => ReadingMeaningChild(lit, rm))
  }

  /** ReadingMeaningChildren over one more child. */
  lemma ReadingMeaningChildrenSnoc(lit: Option<string>, cs: seq<Node>, i: nat)
    requires i < |cs|
    ensures ReadingMeaningChildren(lit, cs[..i + 1]) == ReadingMeaningChildren(lit, cs[..i]) + ReadingMeaningChild(lit, cs[i])
  {
    assert cs[..i + 1][..i] == cs[..i];
  }

  // ---- fill_database ----

  /** The rows one child of a character element appends, given the literal
      seen so far; a literal child appends nothing. */
  function CharacterChild(lit: Option<string>, e: Node): seq<KRow>
  {
    if e.tag == "literal" then []
    else if e.tag == "codepoint" then CodepointRows(lit, e)
    else if e.tag == "radical" then RadicalRows(lit, e)
    else if e.tag == "misc" then MiscRows(lit, e)
    else if e.tag == "dic_number" then DicNumberRows(lit, e)
    else if e.tag == "query_code" then QueryCodeRows(lit, e)
    else if e.tag == "reading_meaning" then ReadingMeaningRows(lit, e)
    else []
  }

  /** The driver's local `literal` and the rows appended so far while it
      walks the children of one character element. */
  datatype CharState = CharState(literal: Option<string>, rows: seq<KRow>)

  /** One child of a character: a literal child sets `literal` to `unicode`
      of its text; any other child is dispatched with the current literal. */
  function CharacterStep(s: CharState, e: Node): CharState
  {
    if e.tag == "literal" then CharState(Unicode(e.text), s.rows)
    else CharState(s.literal, s.rows + CharacterChild(s.literal, e))
  }

  /** The driver's walk over the children of one character element;
      `literal` starts as None. */
  function CharacterWalk(cs: seq<Node>): CharState
  {
    if cs == [] then CharState(None, [])
    else CharacterStep(CharacterWalk(cs[..|cs| - 1]), cs[|cs| - 1])
  }

  /** The walk over one more child of a character: the step from the walk
      so far, whose rows are the walk's rows followed by the rows the step
      appends on its own. */
  lemma CharacterWalkSnoc(cs: seq<Node>, j: nat)
    requires j < |cs|
    ensures var s := CharacterWalk(cs[..j]);
            var t := CharacterStep(CharState(s.literal, []), cs[j]);
            CharacterWalk(cs[..j + 1]) == CharState(t.literal, s.rows + t.rows)
  {
    assert cs[..j + 1][..j] == cs[..j];
    assert cs[..j + 1][j] == cs[j];
    var s := CharacterWalk(cs[..j]);
    assert [] + CharacterChild(s.literal, cs[j]) == CharacterChild(s.literal, cs[j]);
  }

  /** Every row appended over the completed elements of a parse, in
      document order: only `character` elements are processed. */
  function Run(events: seq<Node>): seq<KRow>
  {
    if events == [] then []
    else
      var e := events[|events| - 1];
      Run(events[..|events| - 1]) + (if e.tag == "character" then CharacterWalk(e.children).rows else [])
  }

  /** How many character elements the events hold. */
  function CharacterCount(events: seq<Node>): nat
  {
    if events == [] then 0
    else CharacterCount(events[..|events| - 1]) + (if events[|events| - 1].tag == "character" then 1 else 0)
  }

  /** How many children with the tag the character elements among the events hold. */
  function CharacterTagCount(events: seq<Node>, tag: string): nat
  {
    if events == [] then 0
    else
      var e := events[|events| - 1];
      CharacterTagCount(events[..|events| - 1], tag) + (if e.tag == "character" then |Select(e.children, tag)| else 0)
  }

  /** The rows of each character among the events, one block per
      character, in document order: what the driver counts in save_now. */
  function Blocks(events: seq<Node>): seq<seq<KRow>>
  {
    if events == [] then []
    else
      var e := events[|events| - 1];
      Blocks(events[..|events| - 1]) + (if e.tag == "character" then [CharacterWalk(e.children).rows] else [])
  }

  /** The blocks are one per character and, joined, are the rows of the run. */
  lemma {:induction false} BlocksRun(events: seq<Node>)
    ensures |Blocks(events)| == CharacterCount(events)
    ensures Flatten(Blocks(events)) == Run(events)
    decreases |events|
  {
    if events != [] {
      var pre, e := events[..|events| - 1], events[|events| - 1];
      BlocksRun(pre);
      if e.tag == "character" {
        var b := CharacterWalk(e.children).rows;
        assert (Blocks(pre) + [b])[..|Blocks(pre)|] == Blocks(pre);
      } else {
        assert Blocks(pre) + [] == Blocks(pre);
      }
    }
  }

  /** Run, CharacterCount and Blocks over one more event. */
  lemma RunSnoc(events: seq<Node>, n: nat)
    requires n < |events|
    ensures var e := events[n];
            && Run(events[..n + 1]) == Run(events[..n]) + (if e.tag == "character" then CharacterWalk(e.children).rows else [])
            && CharacterCount(events[..n + 1]) == CharacterCount(events[..n]) + (if e.tag == "character" then 1 else 0)
            && Blocks(events[..n + 1]) == Blocks(events[..n]) + (if e.tag == "character" then [CharacterWalk(e.children).rows] else [])
  {
    assert events[..n + 1][..n] == events[..n];
    assert events[..n + 1][n] == events[n];
  }
}
