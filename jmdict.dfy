/** The JMdict loader: the module-level row buffers, the four element
    dispatchers and the stream driver, proved against the row functions of
    JmdictSpec. */
module Jmdict {
  import opened Xml
  import opened Tables
  import opened Buffers
  import opened JmdictRows
  import opened JmdictSpec

  /** The initial value of the module-level `n_to_commit`. */
  const NToCommit: nat := 10000
  /** `n_to_save`: save_all runs once `save_now` exceeds it. */
  const NToSave: nat := 5000

  /** The state `fill_database` works on: one buffer per table (the `*_l`
      lists, in the order of `all_l`), the log of bulk inserts, and the
      current `n_to_commit`. */
  class Loader {
    const pool: RowPool<JRow>
    var nToCommit: nat

    ghost predicate Valid()
      reads this, pool
    {
      pool.Valid() && |pool.pending| == TableCount
    }

    /** The module as imported: every buffer empty, nothing inserted yet. */
    constructor ()
      ensures Valid() && fresh(pool)
      ensures forall t :: 0 <= t < TableCount ==> pool.pending[t] == [] && pool.appended[t] == []
      ensures pool.inserts == [] && nToCommit == NToCommit
    {
      pool := new RowPool(TableCount);
      nToCommit := NToCommit;
    }

    /** Since the pre-state, exactly `rows` were appended, in order, each to
        its own table's buffer, and nothing was inserted. */
    twostate predicate Appended(rows: seq<JRow>)
      reads this, pool
    {
      && pool.pending == Pushed(old(pool.pending), rows, TableOf)
      && pool.appended == Pushed(old(pool.appended), rows, TableOf)
      && pool.inserts == old(pool.inserts)
    }

    /** `<table>_l.append(row)` for the table the row belongs to. */
    method Emit(r: JRow)
      requires Valid()
      modifies pool
      ensures Valid()
      ensures Appended([r])
    {
      pool.Append(TableOf(r), r);
      assert [r][..0] == [];
    }

    /** `save_all()`: insert and empty every buffer longer than `n_to_commit`. */
    method SaveAll()
      requires Valid()
      modifies pool
      ensures Valid()
      ensures pool.pending == Flushed(old(pool.pending), nToCommit)
      ensures pool.inserts == old(pool.inserts) + Batches(old(pool.pending), nToCommit)
      ensures pool.appended == old(pool.appended)
    {
      pool.SaveAll(nToCommit);
    }

    /** The body of `parse_k_ele`'s loop: one child of a k_ele element,
        with the keb seen so far; returns keb as the child leaves it. */
    method ParseKEleChild(pk: nat, k: Node, keb: Option<string>) returns (keb': Option<string>)
      requires Valid()
      modifies pool
      ensures Valid()
      ensures keb' == if k.tag == "keb" then k.text else keb
      ensures Appended(KEleChild(pk, k))
    {
      keb' := keb;
      if k.tag == "keb" {
        keb' := k.text;
      } else if k.tag == "ke_inf" {
        Emit(KeInf(pk, k.text));
      } else if k.tag == "ke_pri" {
        Emit(KePri(pk, k.text));
      }
    }

    /** `parse_k_ele(ent_seq, k_ele_pk, node)`. */
    method ParseKEle(entSeq: Option<string>, pk: nat, node: Node)
      requires Valid()
      modifies pool
      ensures Valid()
      ensures Appended(KEleRows(entSeq, pk, node))
    {
      ghost var p0, a0 := pool.pending, pool.appended;
      var cs := node.children;
      var keb: Option<string> := None;
      var i := 0;
      while i < |cs|
        invariant 0 <= i <= |cs|
        invariant Valid()
        invariant Appended(KEleChildren(pk, cs[..i]))
        invariant keb == LastText(cs[..i], "keb")
      {
        var k := cs[i];
        keb := ParseKEleChild(pk, k, keb);
        KEleChildrenSnoc(pk, cs, i);
        PushedConcat(p0, KEleChildren(pk, cs[..i]), KEleChild(pk, k), TableOf);
        PushedConcat(a0, KEleChildren(pk, cs[..i]), KEleChild(pk, k), TableOf);
        i := i + 1;
      }
      assert cs[..i] == cs;
      var row := KEle(pk, entSeq, keb);
      Emit(row);
      PushedConcat(p0, KEleChildren(pk, cs), [row], TableOf);
      PushedConcat(a0, KEleChildren(pk, cs), [row], TableOf);
    }

    /** The body of `parse_r_ele`'s loop: one child of an r_ele element,
        with the reb and re_nokanji seen so far; returns both as the child
        leaves them. */
    method ParseREleChild(pk: nat, r: Node, reb: Option<string>, reNokanji: bool) returns (reb': Option<string>, reNokanji': bool)
      requires Valid()
      modifies pool
      ensures Valid()
      ensures reb' == if r.tag == "reb" then Unicode(r.text) else reb
      ensures reNokanji' == (reNokanji || r.tag == "re_nokanji")
      ensures Appended(REleChild(pk, r))
    {
      reb', reNokanji' := reb, reNokanji;
      if r.tag == "reb" {
        reb' := Unicode(r.text);
      } else if r.tag == "re_nokanji" {
        reNokanji' := true;
      } else if r.tag == "re_restr" {
        Emit(ReRestr(pk, Unicode(r.text)));
      } else if r.tag == "re_inf" {
        Emit(ReInf(pk, Unicode(r.text)));
      } else if r.tag == "re_pri" {
        Emit(RePri(pk, r.text));
      }
    }

    /** `parse_r_ele(ent_seq, r_ele_pk, node)`. */
    method ParseREle(entSeq: Option<string>, pk: nat, node: Node)
      requires Valid()
      modifies pool
      ensures Valid()
      ensures Appended(REleRows(entSeq, pk, node))
    {
      ghost var p0, a0 := pool.pending, pool.appended;
      var cs := node.children;
      var reb: Option<string> := None;
      var reNokanji := false;
      var i := 0;
      while i < |cs|
        invariant 0 <= i <= |cs|
        invariant Valid()
        invariant Appended(REleChildren(pk, cs[..i]))
        invariant reb == Reb(cs[..i])
        invariant reNokanji == HasChild(cs[..i], "re_nokanji")
      {
        var r := cs[i];
        reb, reNokanji := ParseREleChild(pk, r, reb, reNokanji);
        REleChildrenSnoc(pk, cs, i);
        PushedConcat(p0, REleChildren(pk, cs[..i]), REleChild(pk, r), TableOf);
        PushedConcat(a0, REleChildren(pk, cs[..i]), REleChild(pk, r), TableOf);
        i := i + 1;
      }
      assert cs[..i] == cs;
      var row := REle(pk, entSeq, reb, reNokanji);
      Emit(row);
      PushedConcat(p0, REleChildren(pk, cs), [row], TableOf);
      PushedConcat(a0, REleChildren(pk, cs), [row], TableOf);
    }

    /** The body of `parse_info`'s loop: the row one child of an info
        element appends, if any. */
    method ParseInfoChild(pk: nat, c: Node)
      requires Valid()
      modifies pool
      ensures Valid()
      ensures Appended(InfoChild(pk, c))
    {
      if c.tag == "links" {
        var linkTag, linkDesc, linkUri := LinksColumns(c.children);
        Emit(Links(pk, linkTag, linkDesc, linkUri));
      } else if c.tag == "bibl" {
        var bibTag, bibTxt := BiblColumns(c.children);
        Emit(Bibl(pk, bibTag, bibTxt));
      } else if c.tag == "etym" {
        Emit(Etym(pk, c.text));
      } else if c.tag == "audit" {
        var updDate, updDetl := AuditColumns(c.children);
        Emit(Audit(pk, updDate, updDetl));
      }
    }

    /** `parse_info(ent_seq, info_pk, node)`, with the bibl loop corrected so
        that its two locals are set once, before the loop (see BiblAsWritten
        for the loop as it stands). */
    method ParseInfo(entSeq: Option<string>, pk: nat, node: Node)
      requires Valid()
      modifies pool
      ensures Valid()
      ensures Appended(InfoRows(entSeq, pk, node))
    {
      ghost var p0, a0 := pool.pending, pool.appended;
      var cs := node.children;
      var i := 0;
      while i < |cs|
        invariant 0 <= i <= |cs|
        invariant Valid()
        invariant Appended(InfoChildren(pk, cs[..i]))
      {
        var c := cs[i];
        ParseInfoChild(pk, c);
        InfoChildrenSnoc(pk, cs, i);
        PushedConcat(p0, InfoChildren(pk, cs[..i]), InfoChild(pk, c), TableOf);
        PushedConcat(a0, InfoChildren(pk, cs[..i]), InfoChild(pk, c), TableOf);
        i := i + 1;
      }
      assert cs[..i] == cs;
      var row := Info(pk, entSeq);
      Emit(row);
      PushedConcat(p0, InfoChildren(pk, cs), [row], TableOf);
      PushedConcat(a0, InfoChildren(pk, cs), [row], TableOf);
    }

    /** The body of `parse_sense`'s loop: the row, if any, one child of a
        sense element appends. */
    method ParseSenseChild(pk: nat, s: Node)
      requires Valid()
      modifies pool
      ensures Valid()
      ensures Appended(SenseChild(pk, s))
    {
      if s.tag == "stagk" {
        Emit(Stagk(pk, Unicode(s.text)));
      } else if s.tag == "stagr" {
        Emit(Stagr(pk, Unicode(s.text)));
      } else if s.tag == "pos" {
        Emit(Pos(pk, s.text));
      } else if s.tag == "xref" {
        Emit(Xref(pk, Unicode(s.text)));
      } else if s.tag == "ant" {
        Emit(Ant(pk, Unicode(s.text)));
      } else if s.tag == "field" {
        Emit(Field(pk, s.text));
      } else if s.tag == "misc" {
        Emit(Misc(pk, s.text));
      } else if s.tag == "s_inf" {
        Emit(SInf(pk, Unicode(s.text)));
      } else if s.tag == "lsource" {
        var lsType := GetOr(s, "ls_type", "full");
        // ls_wasei only ever holds "y": its presence is what is stored
        var lsWasei := "ls_wasei" in s.attrs;
        var lang := GetOr(s, XmlLang, "eng");
        Emit(Lsource(pk, s.text, lang, lsType, lsWasei));
      } else if s.tag == "dial" {
        Emit(Dial(pk, s.text));
      } else if s.tag == "gloss" {
        var lang := GetOr(s, XmlLang, "eng");
        var gGend := Get(s, "g_gend");
        Emit(Gloss(pk, Unicode(s.text), lang, gGend));
      } else if s.tag == "example" {
        Emit(Example(pk, Unicode(s.text)));
      }
    }

    /** `parse_sense(ent_seq, sense_pk, node)`. */
    method ParseSense(entSeq: Option<string>, pk: nat, node: Node)
      requires Valid()
      modifies pool
      ensures Valid()
      ensures Appended(SenseRows(entSeq, pk, node))
    {
      ghost var p0, a0 := pool.pending, pool.appended;
      var cs := node.children;
      var i := 0;
      while i < |cs|
        invariant 0 <= i <= |cs|
        invariant Valid()
        invariant Appended(SenseChildren(pk, cs[..i]))
      {
        var s := cs[i];
        ParseSenseChild(pk, s);
        SenseChildrenSnoc(pk, cs, i);
        PushedConcat(p0, SenseChildren(pk, cs[..i]), SenseChild(pk, s), TableOf);
        PushedConcat(a0, SenseChildren(pk, cs[..i]), SenseChild(pk, s), TableOf);
        i := i + 1;
      }
      assert cs[..i] == cs;
      var row := Sense(pk, entSeq);
      Emit(row);
      PushedConcat(p0, SenseChildren(pk, cs), [row], TableOf);
      PushedConcat(a0, SenseChildren(pk, cs), [row], TableOf);
    }

    /** The body of the driver's `for e in elem` loop: one child of an
        entry, with the entry's sequence number so far and the four key
        counters; returns both as the child leaves them. */
    method ParseEntryChild(entSeq: Option<string>, k: Keys, e: Node) returns (entSeq': Option<string>, k': Keys)
      requires Valid()
      modifies pool
      ensures Valid()
      ensures var s := EntryStep(EntryState(entSeq, k, []), e);
                entSeq' == s.entSeq && k' == s.keys && Appended(s.rows)
    {
      var kElePk, rElePk, infoPk, sensePk := k.kEle, k.rEle, k.info, k.sense;
      entSeq' := entSeq;
      if e.tag == "ent_seq" {
        entSeq' := e.text;
        Emit(Entry(entSeq'));
        assert [] + [Entry(entSeq')] == [Entry(entSeq')];
      } else if e.tag == "k_ele" {
        kElePk := kElePk + 1;
        ParseKEle(entSeq, kElePk, e);
        EntryStepDispatched(entSeq, k, e, KEleKeys);
      } else if e.tag == "r_ele" {
        rElePk := rElePk + 1;
        ParseREle(entSeq, rElePk, e);
        EntryStepDispatched(entSeq, k, e, REleKeys);
      } else if e.tag == "info" {
        infoPk := infoPk + 1;
        ParseInfo(entSeq, infoPk, e);
        EntryStepDispatched(entSeq, k, e, InfoKeys);
      } else if e.tag == "sense" {
        sensePk := sensePk + 1;
        ParseSense(entSeq, sensePk, e);
        EntryStepDispatched(entSeq, k, e, SenseKeys);
      }
      k' := Keys(kElePk, rElePk, infoPk, sensePk);
    }

    /** One entry element, from the `for e in elem` loop of `fill_database`:
        the four key counters enter as k0 and leave as k. */
    method ParseEntry(k0: Keys, elem: Node) returns (k: Keys)
      requires Valid()
      modifies pool
      ensures Valid()
      ensures Appended(EntryWalk(k0, elem.children).rows)
      ensures k == EntryWalk(k0, elem.children).keys
    {
      ghost var p0, a0 := pool.pending, pool.appended;
      var cs := elem.children;
      var entSeq: Option<string> := None;
      k := k0;
      var j := 0;
      while j < |cs|
        invariant 0 <= j <= |cs|
        invariant Valid()
        invariant entSeq == EntryWalk(k0, cs[..j]).entSeq
        invariant k == EntryWalk(k0, cs[..j]).keys
        invariant Appended(EntryWalk(k0, cs[..j]).rows)
      {
        var e := cs[j];
        ghost var done := EntryWalk(k0, cs[..j]).rows;
        ghost var added := EntryStep(EntryState(entSeq, k, []), e).rows;
        assert cs[..j + 1][..j] == cs[..j];
        EntryStepRows(EntryWalk(k0, cs[..j]), e);
        entSeq, k := ParseEntryChild(entSeq, k, e);
        PushedConcat(p0, done, added, TableOf);
        PushedConcat(a0, done, added, TableOf);
        j := j + 1;
      }
      assert cs[..j] == cs;
    }

    /** `fill_database`, from the completed elements the parse yields, in
        document order.  Its loop is the periodic flushing Drive over the
        entries' rows, save_all running with the n_to_commit it starts
        with; then n_to_commit is set to 0 and a last save_all leaves every
        buffer empty, so every row appended is committed, in order. */
    method FillDatabase(events: seq<Node>)
      requires Valid()
      modifies this, pool
      ensures Valid()
      ensures pool.appended == Pushed(old(pool.appended), Run(events).rows, TableOf)
      ensures var d := Drive(Flow(old(pool.pending), old(pool.inserts), 0, 0), Blocks(events), TableOf, NToSave, old(nToCommit));
              pool.inserts == d.inserts + Batches(d.pending, 0)
      ensures forall t :: 0 <= t < TableCount ==> pool.pending[t] == []
      ensures forall t :: 0 <= t < TableCount ==> Committed(pool.inserts, t) == pool.appended[t]
      ensures |old(pool.inserts)| <= |pool.inserts| && pool.inserts[..|old(pool.inserts)|] == old(pool.inserts)
      ensures nToCommit == 0
    {
      ghost var a0, f0 := pool.appended, Flow(pool.pending, pool.inserts, 0, 0);
      var keys := Keys(0, 0, 0, 0);
      var saveNow: nat := 0;
      ghost var saves: nat := 0;
      var n := 0;
      while n < |events|
        invariant 0 <= n <= |events|
        invariant Valid()
        invariant keys == Run(events[..n]).keys
        invariant pool.appended == Pushed(a0, Run(events[..n]).rows, TableOf)
        invariant Flow(pool.pending, pool.inserts, saveNow, saves) == Drive(f0, Blocks(events[..n]), TableOf, NToSave, nToCommit)
        invariant nToCommit == old(nToCommit)
      {
        var elem := events[n];
        RunSnoc(events, n);
        ghost var done := Run(events[..n]).rows;
        ghost var added := if elem.tag == "entry" then EntryWalk(keys, elem.children).rows else [];
        DriveEvent(f0, events, n, nToCommit);
        keys, saveNow, saves := LoadEvent(elem, keys, saveNow, saves);
        PushedConcat(a0, done, added, TableOf);
        n := n + 1;
      }
      assert events[..n] == events;
      DriveExtends(f0, Blocks(events), TableOf, NToSave, nToCommit);
      SaveLeftovers();
    }

    /** The end of `fill_database`: n_to_commit is set to 0, so the last
        save_all inserts every non-empty buffer and leaves all of them
        empty; every row appended is then committed, in order. */
    method SaveLeftovers()
      requires Valid()
      modifies this, pool
      ensures Valid()
      ensures nToCommit == 0
      ensures pool.inserts == old(pool.inserts) + Batches(old(pool.pending), 0)
      ensures pool.appended == old(pool.appended)
      ensures forall t :: 0 <= t < TableCount ==> pool.pending[t] == []
      ensures forall t :: 0 <= t < TableCount ==> Committed(pool.inserts, t) == pool.appended[t]
    {
      nToCommit := 0;
      SaveAll();
    }

    /** One parse event of the loop: an entry element is walked with the
        current counters and counted, save_all running once save_now
        exceeds NToSave (Counted); any other element changes nothing. */
    method LoadEvent(elem: Node, keys: Keys, saveNow: nat, ghost saves: nat) returns (keys': Keys, saveNow': nat, ghost saves': nat)
      requires Valid()
      modifies pool
      ensures Valid()
      ensures keys' == if elem.tag == "entry" then EntryWalk(keys, elem.children).keys else keys
      ensures pool.appended == Pushed(old(pool.appended), if elem.tag == "entry" then EntryWalk(keys, elem.children).rows else [], TableOf)
      ensures var f := Flow(old(pool.pending), old(pool.inserts), saveNow, saves);
              Flow(pool.pending, pool.inserts, saveNow', saves')
              == if elem.tag == "entry" then Counted(f, EntryWalk(keys, elem.children).rows, TableOf, NToSave, nToCommit) else f
    {
      keys', saveNow', saves' := keys, saveNow, saves;
      if elem.tag == "entry" {
        keys' := ParseEntry(keys, elem);
        saveNow' := saveNow' + 1;
        if saveNow' > NToSave {
          SaveAll();
          saveNow' := 0;
          saves' := saves + 1;
        }
      }
    }
  }

  /** The periodic flushing over one more parse event: an entry is counted
      with its rows, any other element leaves it as it was. */
  lemma DriveEvent(f: Flow<JRow>, events: seq<Node>, n: nat, threshold: nat)
    requires n < |events|
    ensures var d, e := Drive(f, Blocks(events[..n]), TableOf, NToSave, threshold), events[n];
            Drive(f, Blocks(events[..n + 1]), TableOf, NToSave, threshold)
            == if e.tag == "entry" then Counted(d, EntryWalk(Run(events[..n]).keys, e.children).rows, TableOf, NToSave, threshold) else d
  {
    RunSnoc(events, n);
    if events[n].tag == "entry" {
      DriveSnoc(f, Blocks(events[..n]), EntryWalk(Run(events[..n]).keys, events[n].children).rows, TableOf, NToSave, threshold);
    } else {
      assert Blocks(events[..n + 1]) == Blocks(events[..n]);
    }
  }

  /** What the loop of `fill_database` has done after the events, from
      buffers p and log i: save_all has run once per NToSave + 1 entries
      (5001), and save_now holds the remainder; while there are at most
      NToSave entries nothing is inserted; no row is lost or reordered; the
      earlier inserts stay first in the log. */
  lemma PeriodicSaves(p: seq<seq<JRow>>, i: seq<Batch<JRow>>, events: seq<Node>, threshold: nat)
    ensures var d := Drive(Flow(p, i, 0, 0), Blocks(events), TableOf, NToSave, threshold);
            && d.saves * (NToSave + 1) + d.saveNow == EntryCount(events) && d.saveNow <= NToSave
            && (EntryCount(events) <= NToSave ==> d.inserts == i && d.pending == Pushed(p, Run(events).rows, TableOf))
            && |d.pending| == |p|
            && (forall t :: 0 <= t < |p| ==>
                  Committed(d.inserts, t) + d.pending[t] == Committed(i, t) + p[t] + Filter(Run(events).rows, t, TableOf))
            && |i| <= |d.inserts| && d.inserts[..|i|] == i
  {
    var f := Flow(p, i, 0, 0);
    BlocksRun(events);
    DriveCounts(f, Blocks(events), TableOf, NToSave, threshold);
    if EntryCount(events) <= NToSave {
      DriveQuiet(f, Blocks(events), TableOf, NToSave, threshold);
    }
    DriveKeepsRows(f, Blocks(events), TableOf, NToSave, threshold);
    DriveExtends(f, Blocks(events), TableOf, NToSave, threshold);
  }

  /** The inner loop of `parse_info` over a links element's children:
      the texts of its last link_tag, link_desc and link_uri children. */
  method LinksColumns(ls: seq<Node>) returns (linkTag: Option<string>, linkDesc: Option<string>, linkUri: Option<string>)
    ensures linkTag == LastText(ls, "link_tag")
    ensures linkDesc == LastText(ls, "link_desc")
    ensures linkUri == LastText(ls, "link_uri")
  {
    linkTag, linkDesc, linkUri := None, None, None;
    var j := 0;
    while j < |ls|
      invariant 0 <= j <= |ls|
      invariant linkTag == LastText(ls[..j], "link_tag")
      invariant linkDesc == LastText(ls[..j], "link_desc")
      invariant linkUri == LastText(ls[..j], "link_uri")
    {
      var l := ls[j];
      if l.tag == "link_tag" {
        linkTag := l.text;
      } else if l.tag == "link_desc" {
        linkDesc := l.text;
      } else if l.tag == "link_uri" {
        linkUri := l.text;
      }
      assert ls[..j + 1][..j] == ls[..j];
      j := j + 1;
    }
    assert ls[..j] == ls;
  }

  /** The inner loop over a bibl element's children, corrected so that
      `bib_tag` and `bib_txt` are set once, before the loop: the texts of
      its last bib_tag and bib_txt children. */
  method BiblColumns(bs: seq<Node>) returns (bibTag: Option<string>, bibTxt: Option<string>)
    ensures bibTag == LastText(bs, "bib_tag")
    ensures bibTxt == LastText(bs, "bib_txt")
  {
    bibTag, bibTxt := None, None;
    var j := 0;
    while j < |bs|
      invariant 0 <= j <= |bs|
      invariant bibTag == LastText(bs[..j], "bib_tag")
      invariant bibTxt == LastText(bs[..j], "bib_txt")
    {
      var b := bs[j];
      if b.tag == "bib_tag" {
        bibTag := b.text;
      } else if b.tag == "bib_txt" {
        bibTxt := b.text;
      }
      assert bs[..j + 1][..j] == bs[..j];
      j := j + 1;
    }
    assert bs[..j] == bs;
  }

  /** The inner loop over an audit element's children: the texts of its
      last upd_date and upd_detl children. */
  method AuditColumns(us: seq<Node>) returns (updDate: Option<string>, updDetl: Option<string>)
    ensures updDate == LastText(us, "upd_date")
    ensures updDetl == LastText(us, "upd_detl")
  {
    updDate, updDetl := None, None;
    var j := 0;
    while j < |us|
      invariant 0 <= j <= |us|
      invariant updDate == LastText(us[..j], "upd_date")
      invariant updDetl == LastText(us[..j], "upd_detl")
    {
      var a := us[j];
      if a.tag == "upd_date" {
        updDate := a.text;
      } else if a.tag == "upd_detl" {
        updDetl := a.text;
      }
      assert us[..j + 1][..j] == us[..j];
      j := j + 1;
    }
    assert us[..j] == us;
  }

  /** The bibl branch of `parse_info` as it stands: `bib_tag` and `bib_txt`
      are reset at the top of every iteration of the inner loop.  `prev`
      holds the two locals as an earlier bibl of the same info element left
      them (None while unbound); `locals` is how this one leaves them, and
      `row` is None when they are unbound at the append. */
  method BiblAsWritten(pk: nat, prev: Option<(Option<string>, Option<string>)>, i: Node)
    returns (row: Option<JRow>, locals: Option<(Option<string>, Option<string>)>)
    ensures locals == BiblLocalsAsWritten(prev, i.children)
    ensures row == BiblRowAsWritten(pk, prev, i)
  {
    var bs := i.children;
    var bound := prev.Some?;
    var bibTag: Option<string> := if prev.Some? then prev.value.0 else None;
    var bibTxt: Option<string> := if prev.Some? then prev.value.1 else None;
    var j := 0;
    while j < |bs|
      invariant 0 <= j <= |bs|
      invariant bound <==> (j > 0 || prev.Some?)
      invariant bound ==> Some((bibTag, bibTxt)) == BiblLocalsAsWritten(prev, bs[..j])
    {
      var b := bs[j];
      bibTag := None;
      bibTxt := None;
      bound := true;
      if b.tag == "bib_tag" {
        bibTag := b.text;
      } else if b.tag == "bib_txt" {
        bibTxt := b.text;
      }
      assert bs[..j + 1][j] == b;
      j := j + 1;
    }
    assert bs[..j] == bs;
    if bound {
      locals := Some((bibTag, bibTxt));
      row := Some(Bibl(pk, bibTag, bibTxt));
    } else {
      locals := None;
      row := None;
    }
  }
}
