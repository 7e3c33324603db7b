/** The KANJIDIC2 loader: the module-level row buffers, the six element
    dispatchers and the stream driver, proved against the row functions of
    KanjidicSpec. */
module Kanjidic {
  import opened Seqs
  import opened Xml
  import opened Tables
  import opened Buffers
  import opened KanjidicRows
  import opened KanjidicSpec

  /** The module-level `n_to_commit`; unlike the JMdict loader, nothing ever
      changes it. */
  const NToCommit: nat := 10000
  /** `n_to_save`: save_all runs once `save_now` exceeds it. */
  const NToSave: nat := 2000

  /** The state `fill_database` works on: one buffer per table (the `*_l`
      lists, in the order of `all_l`), the log of bulk inserts, and the
      current `n_to_commit`. */
  class Loader {
    const pool: RowPool<KRow>
    var nToCommit: nat

    ghost predicate Valid()
      reads this, pool
    {
      pool.Valid() && |pool.pending| == TableCount
    }

    /** The module as imported: every buffer empty, nothing inserted yet. */
    constructor ()
      ensures Valid() && fresh(pool)
      ensures forall t :: 0 <= t < TableCount ==> pool.pending[t] == [] && pool.appended[t] == []
      ensures pool.inserts == [] && nToCommit == NToCommit
    {
      pool := new RowPool(TableCount);
      nToCommit := NToCommit;
    }

    /** Since the pre-state, exactly `rows` were appended, in order, each to
        its own table's buffer, and nothing was inserted. */
    twostate predicate Appended(rows: seq<KRow>)
      reads this, pool
    {
      && pool.pending == Pushed(old(pool.pending), rows, TableOf)
      && pool.appended == Pushed(old(pool.appended), rows, TableOf)
      && pool.inserts == old(pool.inserts)
    }

    /** `<table>_l.append(row)` for the table the row belongs to. */
    method Emit(r: KRow)
      requires Valid()
      modifies pool
      ensures Valid()
      ensures Appended([r])
    {
      pool.Append(TableOf(r), r);
      assert [r][..0] == [];
    }

    /** `save_all()`: insert and empty every buffer longer than `n_to_commit`. */
    method SaveAll()
      requires Valid()
      modifies pool
      ensures Valid()
      ensures pool.pending == Flushed(old(pool.pending), nToCommit)
      ensures pool.inserts == old(pool.inserts) + Batches(old(pool.pending), nToCommit)
      ensures pool.appended == old(pool.appended)
    {
      pool.SaveAll(nToCommit);
    }

    /** The body of `parse_misc`'s loop: one child of a misc element, with
        grade, freq and jlpt as seen so far; returns them as the child
        leaves them. */
    method ParseMiscChild(lit: Option<string>, m: Node, grade: Option<string>, freq: Option<string>, jlpt: Option<string>)
      returns (grade': Option<string>, freq': Option<string>, jlpt': Option<string>)
      requires Valid()
      modifies pool
      ensures Valid()
      ensures grade' == if m.tag == "grade" then m.text else grade
      ensures freq' == if m.tag == "freq" then m.text else freq
      ensures jlpt' == if m.tag == "jlpt" then m.text else jlpt
      ensures Appended(MiscChild(lit, m))
    {
      grade', freq', jlpt' := grade, freq, jlpt;
      if m.tag == "grade" {
        grade' := m.text;
      } else if m.tag == "stroke_count" {
        Emit(StrokeCount(lit, m.text));
      } else if m.tag == "variant" {
        Emit(Variant(lit, m.text, Get(m, "var_type")));
      } else if m.tag == "freq" {
        freq' := m.text;
      } else if m.tag == "rad_name" {
        Emit(RadName(lit, Unicode(m.text)));
      } else if m.tag == "jlpt" {
        jlpt' := m.text;
      }
    }

    /** `parse_misc(literal, node)`. */
    method ParseMisc(lit: Option<string>, node: Node)
      requires Valid()
      modifies pool
      ensures Valid()
      ensures Appended(MiscRows(lit, node))
    {
      ghost var p0, a0 := pool.pending, pool.appended;
      var cs := node.children;
      var grade: Option<string> := None;
      var freq: Option<string> := None;
      var jlpt: Option<string> := None;
      var i := 0;
      while i < |cs|
        invariant 0 <= i <= |cs|
        invariant Valid()
        invariant Appended(MiscChildren(lit, cs[..i]))
        invariant grade == LastText(cs[..i], "grade")
        invariant freq == LastText(cs[..i], "freq")
        invariant jlpt == LastText(cs[..i], "jlpt")
      {
        var m := cs[i];
        grade, freq, jlpt := ParseMiscChild(lit, m, grade, freq, jlpt);
        MiscChildrenSnoc(lit, cs, i);
        PushedConcat(p0, MiscChildren(lit, cs[..i]), MiscChild(lit, m), TableOf);
        PushedConcat(a0, MiscChildren(lit, cs[..i]), MiscChild(lit, m), TableOf);
        i := i + 1;
      }
      assert cs[..i] == cs;
      var row := Character(lit, grade, freq, jlpt);
      Emit(row);
      PushedConcat(p0, MiscChildren(lit, cs), [row], TableOf);
      PushedConcat(a0, MiscChildren(lit, cs), [row], TableOf);
    }

    /** `parse_dic_number(literal, node)`. */
    method ParseDicNumber(lit: Option<string>, node: Node)
      requires Valid()
      modifies pool
      ensures Valid()
      ensures Appended(DicNumberRows(lit, node))
    {
      ghost var p0, a0 := pool.pending, pool.appended;
      var cs := node.children;
      var i := 0;
      while i < |cs|
        invariant 0 <= i <= |cs|
        invariant Valid()
        invariant Appended(DicRefs(lit, cs[..i]))
      {
        var d := cs[i];
        var row := DicRef(lit, d.text, Get(d, "dr_type"), Get(d, "m_vol"), Get(d, "m_page"));
        Emit(row);
        DicRefsSnoc(lit, cs, i);
        PushedConcat(p0, DicRefs(lit, cs[..i]), [row], TableOf);
        PushedConcat(a0, DicRefs(lit, cs[..i]), [row], TableOf);
        i := i + 1;
      }
      assert cs[..i] == cs;
    }

    /** `parse_query_code(literal, node)`. */
    method ParseQueryCode(lit: Option<string>, node: Node)
      requires Valid()
      modifies pool
      ensures Valid()
      ensures Appended(QueryCodeRows(lit, node))
    {
      ghost var p0, a0 := pool.pending, pool.appended;
      var cs := node.children;
      var i := 0;
      while i < |cs|
        invariant 0 <= i <= |cs|
        invariant Valid()
        invariant Appended(QueryCodes(lit, cs[..i]))
      {
        var q := cs[i];
        var row := QueryCode(lit, Unicode(q.text), Get(q, "qc_type"), Get(q, "skip_misclass"));
        Emit(row);
        QueryCodesSnoc(lit, cs, i);
        PushedConcat(p0, QueryCodes(lit, cs[..i]), [row], TableOf);
        PushedConcat(a0, QueryCodes(lit, cs[..i]), [row], TableOf);
        i := i + 1;
      }
      assert cs[..i] == cs;
    }

    /** `parse_radical(literal, node)`. */
    method ParseRadical(lit: Option<string>, node: Node)
      requires Valid()
      modifies pool
      ensures Valid()
      ensures Appended(RadicalRows(lit, node))
    {
      ghost var p0, a0 := pool.pending, pool.appended;
      var cs := node.children;
      var i := 0;
      while i < |cs|
        invariant 0 <= i <= |cs|
        invariant Valid()
        invariant Appended(RadValues(lit, cs[..i]))
      {
        var r := cs[i];
        var row := RadValue(lit, r.text, Get(r, "rad_type"));
        Emit(row);
        RadValuesSnoc(lit, cs, i);
        PushedConcat(p0, RadValues(lit, cs[..i]), [row], TableOf);
        PushedConcat(a0, RadValues(lit, cs[..i]), [row], TableOf);
        i := i + 1;
      }
      assert cs[..i] == cs;
    }

    /** `parse_codepoint(literal, node)`. */
    method ParseCodepoint(lit: Option<string>, node: Node)
      requires Valid()
      modifies pool
      ensures Valid()
      ensures Appended(CodepointRows(lit, node))
    {
      ghost var p0, a0 := pool.pending, pool.appended;
      var cs := node.children;
      var i := 0;
      while i < |cs|
        invariant 0 <= i <= |cs|
        invariant Valid()
        invariant Appended(Codepoints(lit, cs[..i]))
      {
        var c := cs[i];
        var row := Codepoint(lit, c.text, Get(c, "cp_type"));
        Emit(row);
        CodepointsSnoc(lit, cs, i);
        PushedConcat(p0, Codepoints(lit, cs[..i]), [row], TableOf);
        PushedConcat(a0, Codepoints(lit, cs[..i]), [row], TableOf);
        i := i + 1;
      }
      assert cs[..i] == cs;
    }

    /** The body of the inner loop over an rmgroup's children: a meaning's
        m_lang falls back to "en" when the attribute is absent. */
    method ParseRmGroupChild(lit: Option<string>, g: Node)
      requires Valid()
      modifies pool
      ensures Valid()
      ensures Appended(RmGroupChild(lit, g))
    {
      if g.tag == "reading" {
        Emit(Reading(lit, Unicode(g.text), Get(g, "r_type"), Get(g, "on_type"), Get(g, "r_status")));
      } else if g.tag == "meaning" {
        var mLang := Get(g, "m_lang");
        if mLang == None {
          mLang := Some("en");
        }
        Emit(Meaning(lit, Unicode(g.text), mLang.value));
      }
    }

    /** The inner loop of `parse_reading_meaning` over an rmgroup's children. */
    method ParseRmGroup(lit: Option<string>, rm: Node)
      requires Valid()
      modifies pool
      ensures Valid()
      ensures Appended(RmGroupRows(lit, rm))
    {
      ghost var p0, a0 := pool.pending, pool.appended;
      var gs := rm.children;
      var i := 0;
      while i < |gs|
        invariant 0 <= i <= |gs|
        invariant Valid()
        invariant Appended(RmGroupChildren(lit, gs[..i]))
      {
        var g := gs[i];
        ParseRmGroupChild(lit, g);
        RmGroupChildrenSnoc(lit, gs, i);
        PushedConcat(p0, RmGroupChildren(lit, gs[..i]), RmGroupChild(lit, g), TableOf);
        PushedConcat(a0, RmGroupChildren(lit, gs[..i]), RmGroupChild(lit, g), TableOf);
        i := i + 1;
      }
      assert gs[..i] == gs;
    }

    /** The body of `parse_reading_meaning`'s loop: an rmgroup's readings and
        meanings, or a nanori row. */
    method ParseReadingMeaningChild(lit: Option<string>, rm: Node)
      requires Valid()
      modifies pool
      ensures Valid()
      ensures Appended(ReadingMeaningChild(lit, rm))
    {
      if rm.tag == "rmgroup" {
        ParseRmGroup(lit, rm);
      } else if rm.tag == "nanori" {
        Emit(Nanori(lit, Unicode(rm.text)));
      }
    }

    /** `parse_reading_meaning(literal, node)`. */
    method ParseReadingMeaning(lit: Option<string>, node: Node)
      requires Valid()
      modifies pool
      ensures Valid()
      ensures Appended(ReadingMeaningRows(lit, node))
    {
      ghost var p0, a0 := pool.pending, pool.appended;
      var cs := node.children;
      var i := 0;
      while i < |cs|
        invariant 0 <= i <= |cs|
        invariant Valid()
        invariant Appended(ReadingMeaningChildren(lit, cs[..i]))
      {
        var rm := cs[i];
        ParseReadingMeaningChild(lit, rm);
        ReadingMeaningChildrenSnoc(lit, cs, i);
        PushedConcat(p0, ReadingMeaningChildren(lit, cs[..i]), ReadingMeaningChild(lit, rm), TableOf);
        PushedConcat(a0, ReadingMeaningChildren(lit, cs[..i]), ReadingMeaningChild(lit, rm), TableOf);
        i := i + 1;
      }
      assert cs[..i] == cs;
    }

    /** The body of the driver's `for e in elem` loop: one child of a
        character, with the literal seen so far; returns the literal as the
        child leaves it. */
    method ParseCharacterChild(lit: Option<string>, e: Node) returns (lit': Option<string>)
      requires Valid()
      modifies pool
      ensures Valid()
      ensures var s := CharacterStep(CharState(lit, []), e);
                lit' == s.literal && Appended(s.rows)
    {
      lit' := lit;
      if e.tag == "literal" {
        lit' := Unicode(e.text);
      } else if e.tag == "codepoint" {
        ParseCodepoint(lit, e);
      } else if e.tag == "radical" {
        ParseRadical(lit, e);
      } else if e.tag == "misc" {
        ParseMisc(lit, e);
      } else if e.tag == "dic_number" {
        ParseDicNumber(lit, e);
      } else if e.tag == "query_code" {
        ParseQueryCode(lit, e);
      } else if e.tag == "reading_meaning" {
        ParseReadingMeaning(lit, e);
      }
      assert [] + CharacterChild(lit, e) == CharacterChild(lit, e);
    }

    /** One character element, from the `if elem.tag == "character"` branch
        of `fill_database`: `literal` starts as None. */
    method ParseCharacter(elem: Node)
      requires Valid()
      modifies pool
      ensures Valid()
      ensures Appended(CharacterWalk(elem.children).rows)
    {
      ghost var p0, a0 := pool.pending, pool.appended;
      var cs := elem.children;
      var lit: Option<string> := None;
      var j := 0;
      while j < |cs|
        invariant 0 <= j <= |cs|
        invariant Valid()
        invariant lit == CharacterWalk(cs[..j]).literal
        invariant Appended(CharacterWalk(cs[..j]).rows)
      {
        var e := cs[j];
        ghost var done := CharacterWalk(cs[..j]).rows;
        ghost var added := CharacterStep(CharState(lit, []), e).rows;
        CharacterWalkSnoc(cs, j);
        lit := ParseCharacterChild(lit, e);
        PushedConcat(p0, done, added, TableOf);
        PushedConcat(a0, done, added, TableOf);
        j := j + 1;
      }
      assert cs[..j] == cs;
    }

    /** The rows of a table that has never been appended more than the
        threshold were never inserted: its buffer never grew past it. */
    ghost predicate SmallUntouched(inserts0: seq<Batch<KRow>>)
      reads this, pool
      requires Valid()
    {
      forall t :: 0 <= t < TableCount && |pool.appended[t]| <= nToCommit ==>
        Committed(pool.inserts, t) == Committed(inserts0, t)
    }

    /** The parse loop of `fill_database` (up to, not including, its last
        save_all): every row of Run(events) is appended to its table's
        buffer, the buffers and the log are those of the periodic flushing
        Drive over the characters' rows, and a table never appended more
        than n_to_commit rows gets no insert. */
    method LoadCharacters(events: seq<Node>)
      requires Valid()
      modifies pool
      ensures Valid()
      ensures pool.appended == Pushed(old(pool.appended), Run(events), TableOf)
      ensures var d := Drive(Flow(old(pool.pending), old(pool.inserts), 0, 0), Blocks(events), TableOf, NToSave, nToCommit);
              pool.pending == d.pending && pool.inserts == d.inserts
      ensures SmallUntouched(old(pool.inserts))
    {
      ghost var a0, f0 := pool.appended, Flow(pool.pending, pool.inserts, 0, 0);
      var saveNow: nat := 0;
      ghost var saves: nat := 0;
      var n := 0;
      while n < |events|
        invariant 0 <= n <= |events|
        invariant Valid()
        invariant pool.appended == Pushed(a0, Run(events[..n]), TableOf)
        invariant Flow(pool.pending, pool.inserts, saveNow, saves) == Drive(f0, Blocks(events[..n]), TableOf, NToSave, nToCommit)
        invariant SmallUntouched(f0.inserts)
      {
        var elem := events[n];
        RunSnoc(events, n);
        ghost var done := Run(events[..n]);
        ghost var added := if elem.tag == "character" then CharacterWalk(elem.children).rows else [];
        DriveEvent(f0, events, n, nToCommit);
        saveNow, saves := LoadEvent(elem, saveNow, saves, f0.inserts);
        PushedConcat(a0, done, added, TableOf);
        n := n + 1;
      }
      assert events[..n] == events;
    }

    /** One parse event of the loop: a character element is dispatched and
        counted, save_all running once save_now exceeds NToSave (Counted);
        any other element changes nothing. */
    method LoadEvent(elem: Node, saveNow: nat, ghost saves: nat, ghost inserts0: seq<Batch<KRow>>) returns (saveNow': nat, ghost saves': nat)
      requires Valid() && SmallUntouched(inserts0)
      modifies pool
      ensures Valid() && SmallUntouched(inserts0)
      ensures pool.appended == Pushed(old(pool.appended), if elem.tag == "character" then CharacterWalk(elem.children).rows else [], TableOf)
      ensures var f := Flow(old(pool.pending), old(pool.inserts), saveNow, saves);
              Flow(pool.pending, pool.inserts, saveNow', saves')
              == if elem.tag == "character" then Counted(f, CharacterWalk(elem.children).rows, TableOf, NToSave, nToCommit) else f
    {
      saveNow', saves' := saveNow, saves;
      if elem.tag == "character" {
        LoadCharacter(elem, inserts0);
        saveNow' := saveNow' + 1;
        if saveNow' > NToSave {
          SaveAllSmallUntouched(inserts0);
          saveNow' := 0;
          saves' := saves + 1;
        }
      }
    }

    /** ParseCharacter keeps SmallUntouched: buffers only grow. */
    method LoadCharacter(elem: Node, ghost inserts0: seq<Batch<KRow>>)
      requires Valid() && SmallUntouched(inserts0)
      modifies pool
      ensures Valid() && SmallUntouched(inserts0)
      ensures Appended(CharacterWalk(elem.children).rows)
    {
      ghost var before := pool.appended;
      ParseCharacter(elem);
      PushedAt(before, CharacterWalk(elem.children).rows, TableOf);
    }

    /** save_all keeps SmallUntouched: a buffer not longer than the threshold is not inserted. */
    method SaveAllSmallUntouched(ghost inserts0: seq<Batch<KRow>>)
      requires Valid() && SmallUntouched(inserts0)
      modifies pool
      ensures Valid() && SmallUntouched(inserts0)
      ensures pool.pending == Flushed(old(pool.pending), nToCommit)
      ensures pool.inserts == old(pool.inserts) + Batches(old(pool.pending), nToCommit)
      ensures pool.appended == old(pool.appended)
    {
      ghost var log, p := pool.inserts, pool.pending;
      SaveAll();
      forall t | 0 <= t < TableCount && |pool.appended[t]| <= nToCommit
        ensures Committed(pool.inserts, t) == Committed(inserts0, t)
      {
        FlushUntouched(log, p, pool.appended, nToCommit, t);
      }
    }

    /** `fill_database` as it is written: the last save_all runs with
        n_to_commit unchanged, so it still only flushes buffers longer than
        n_to_commit.  Every buffer is left with at most n_to_commit rows,
        and a table that was never appended more than n_to_commit rows is
        never inserted at all. */
    method FillDatabase(events: seq<Node>)
      requires Valid()
      modifies pool
      ensures Valid()
      ensures pool.appended == Pushed(old(pool.appended), Run(events), TableOf)
      ensures var d := Drive(Flow(old(pool.pending), old(pool.inserts), 0, 0), Blocks(events), TableOf, NToSave, nToCommit);
              pool.pending == Flushed(d.pending, nToCommit) && pool.inserts == d.inserts + Batches(d.pending, nToCommit)
      ensures forall t :: 0 <= t < TableCount ==> |pool.pending[t]| <= nToCommit
      ensures SmallUntouched(old(pool.inserts))
      ensures nToCommit == old(nToCommit)
    {
      LoadCharacters(events);
      SaveAllSmallUntouched(old(pool.inserts));
    }

    /** `fill_database` with the last save_all preceded by setting
        n_to_commit to 0, as the JMdict loader does: every buffer is left
        empty and every row appended is committed, in order. */
    method FillDatabaseFlushed(events: seq<Node>)
      requires Valid()
      modifies this, pool
      ensures Valid()
      ensures pool.appended == Pushed(old(pool.appended), Run(events), TableOf)
      ensures var d := Drive(Flow(old(pool.pending), old(pool.inserts), 0, 0), Blocks(events), TableOf, NToSave, old(nToCommit));
              pool.inserts == d.inserts + Batches(d.pending, 0)
      ensures forall t :: 0 <= t < TableCount ==> pool.pending[t] == []
      ensures forall t :: 0 <= t < TableCount ==> Committed(pool.inserts, t) == pool.appended[t]
      ensures |old(pool.inserts)| <= |pool.inserts| && pool.inserts[..|old(pool.inserts)|] == old(pool.inserts)
      ensures nToCommit == 0
    {
      ghost var f0 := Flow(pool.pending, pool.inserts, 0, 0);
      LoadCharacters(events);
      DriveExtends(f0, Blocks(events), TableOf, NToSave, nToCommit);
      ghost var i1 := pool.inserts;
      nToCommit := 0;
      SaveAll();
      assert pool.inserts[..|f0.inserts|] == i1[..|f0.inserts|];
    }
  }

  /** The periodic flushing over one more parse event: a character is
      counted with its rows, any other element leaves it as it was. */
  lemma DriveEvent(f: Flow<KRow>, events: seq<Node>, n: nat, threshold: nat)
    requires n < |events|
    ensures var d, e := Drive(f, Blocks(events[..n]), TableOf, NToSave, threshold), events[n];
            Drive(f, Blocks(events[..n + 1]), TableOf, NToSave, threshold)
            == if e.tag == "character" then Counted(d, CharacterWalk(e.children).rows, TableOf, NToSave, threshold) else d
  {
    RunSnoc(events, n);
    if events[n].tag == "character" {
      DriveSnoc(f, Blocks(events[..n]), CharacterWalk(events[n].children).rows, TableOf, NToSave, threshold);
    } else {
      assert Blocks(events[..n + 1]) == Blocks(events[..n]);
    }
  }

  /** What the loop of `fill_database` has done after the events, from
      buffers p and log i: save_all has run once per NToSave + 1
      characters (2001), and save_now holds the remainder; while there are
      at most NToSave characters nothing is inserted; no row is lost or
      reordered; the earlier inserts stay first in the log. */
  lemma PeriodicSaves(p: seq<seq<KRow>>, i: seq<Batch<KRow>>, events: seq<Node>, threshold: nat)
    ensures var d := Drive(Flow(p, i, 0, 0), Blocks(events), TableOf, NToSave, threshold);
            && d.saves * (NToSave + 1) + d.saveNow == CharacterCount(events) && d.saveNow <= NToSave
            && (CharacterCount(events) <= NToSave ==> d.inserts == i && d.pending == Pushed(p, Run(events), TableOf))
            && |d.pending| == |p|
            && (forall t :: 0 <= t < |p| ==>
                  Committed(d.inserts, t) + d.pending[t] == Committed(i, t) + p[t] + Filter(Run(events), t, TableOf))
            && |i| <= |d.inserts| && d.inserts[..|i|] == i
  {
    var f := Flow(p, i, 0, 0);
    BlocksRun(events);
    DriveCounts(f, Blocks(events), TableOf, NToSave, threshold);
    if CharacterCount(events) <= NToSave {
      DriveQuiet(f, Blocks(events), TableOf, NToSave, threshold);
    }
    DriveKeepsRows(f, Blocks(events), TableOf, NToSave, threshold);
    DriveExtends(f, Blocks(events), TableOf, NToSave, threshold);
  }

  /** A dictionary of one character: literal "X" and an empty misc child. */
  function SmallDictionary(): seq<Node>
  {
    [Node("character", None, map[], [Node("literal", Some("X"), map[], []), Node("misc", None, map[], [])])]
  }

  /** Its one row: the character row for "X", with no grade, freq or jlpt. */
  lemma SmallDictionaryRun()
    ensures Run(SmallDictionary()) == [Character(Some("X"), None, None, None)]
  {
    var cs := SmallDictionary()[0].children;
    assert cs[..1] == [cs[0]] && cs[..1][..0] == [];
    assert CharacterWalk(cs[..1]) == CharState(Some("X"), []);
    assert MiscRows(Some("X"), cs[1]) == [Character(Some("X"), None, None, None)];
    assert SmallDictionary()[..0] == [];
  }

  /** Every table of a fresh loader after SmallDictionary holds at most one row,
      and only the character table holds one. */
  lemma SmallDictionaryTables(p: seq<seq<KRow>>)
    requires |p| == TableCount && forall t :: 0 <= t < TableCount ==> p[t] == []
    ensures |Pushed(p, Run(SmallDictionary()), TableOf)| == TableCount
    ensures forall t :: 0 <= t < TableCount ==> Pushed(p, Run(SmallDictionary()), TableOf)[t]
                                                == if t == CharacterT then [Character(Some("X"), None, None, None)] else []
  {
    SmallDictionaryRun();
    PushedAt(p, Run(SmallDictionary()), TableOf);
    forall t | 0 <= t < TableCount {
      FilterSingleton(Character(Some("X"), None, None, None), t, TableOf);
    }
  }

  /** `fill_database` as written, on SmallDictionary: the character row is
      never inserted and is left in its buffer when the run ends. */
  method SmallRunAsWritten() returns (committed: seq<KRow>, left: seq<KRow>)
    ensures committed == [] && left == [Character(Some("X"), None, None, None)]
  {
    var loader := new Loader();
    ghost var p0, i0 := loader.pool.appended, loader.pool.inserts;
    SmallDictionaryTables(p0);
    loader.FillDatabase(SmallDictionary());
    assert Committed(i0, CharacterT) == [];
    committed := Committed(loader.pool.inserts, CharacterT);
    left := loader.pool.pending[CharacterT];
    assert Committed(loader.pool.inserts, CharacterT) + left == loader.pool.appended[CharacterT];
  }

  /** The same run with n_to_commit set to 0 before the last save_all: the
      character row is inserted and no buffer keeps it. */
  method SmallRunFlushed() returns (committed: seq<KRow>, left: seq<KRow>)
    ensures committed == [Character(Some("X"), None, None, None)] && left == []
  {
    var loader := new Loader();
    ghost var p0 := loader.pool.appended;
    SmallDictionaryTables(p0);
    loader.FillDatabaseFlushed(SmallDictionary());
    committed := Committed(loader.pool.inserts, CharacterT);
    left := loader.pool.pending[CharacterT];
  }
}
