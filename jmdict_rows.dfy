/** The rows of the JMdict schema and the surrogate keys that link them. */
module JmdictRows {
  import opened Xml

  /** One row per table of the schema, with the columns the loader fills.
      The four tables that other tables reference (k_ele, r_ele, info,
      sense) carry their surrogate key `id` explicitly. */
  datatype JRow =
    | Entry(entSeq: Option<string>)
    | KEle(id: nat, entrySeq: Option<string>, keb: Option<string>)
    | KeInf(kEleId: nat, keInf: Option<string>)
    | KePri(kEleId: nat, kePri: Option<string>)
    | REle(id: nat, entrySeq: Option<string>, reb: Option<string>, reNokanji: bool)
    | ReRestr(rEleId: nat, restrKeb: Option<string>)
    | ReInf(rEleId: nat, reInf: Option<string>)
    | RePri(rEleId: nat, rePri: Option<string>)
    | Info(id: nat, entrySeq: Option<string>)
    | Links(infoId: nat, linkTag: Option<string>, linkDesc: Option<string>, linkUri: Option<string>)
    | Bibl(infoId: nat, bibTag: Option<string>, bibTxt: Option<string>)
    | Etym(infoId: nat, etym: Option<string>)
    | Audit(infoId: nat, updDate: Option<string>, updDetl: Option<string>)
    | Sense(id: nat, entrySeq: Option<string>)
    | Stagk(senseId: nat, stagk: Option<string>)
    | Stagr(senseId: nat, stagr: Option<string>)
    | Pos(senseId: nat, pos: Option<string>)
    | Xref(senseId: nat, xref: Option<string>)
    | Ant(senseId: nat, ant: Option<string>)
    | Field(senseId: nat, field: Option<string>)
    | Misc(senseId: nat, misc: Option<string>)
    | SInf(senseId: nat, sInf: Option<string>)
    | Lsource(senseId: nat, lsource: Option<string>, lang: string, lsType: string, lsWasei: bool)
    | Dial(senseId: nat, dial: Option<string>)
    | Gloss(senseId: nat, gloss: Option<string>, lang: string, gGend: Option<string>)
    | Example(senseId: nat, example: Option<string>)

  /** Table numbers: positions in the loader's list of buffers (`all_l`). */
  const EntryT: nat := 0
  const KEleT: nat := 1
  const KeInfT: nat := 2
  const KePriT: nat := 3
  const REleT: nat := 4
  const ReRestrT: nat := 5
  const ReInfT: nat := 6
  const RePriT: nat := 7
  const InfoT: nat := 8
  const LinksT: nat := 9
  const BiblT: nat := 10
  const EtymT: nat := 11
  const AuditT: nat := 12
  const SenseT: nat := 13
  const StagkT: nat := 14
  const StagrT: nat := 15
  const PosT: nat := 16
  const XrefT: nat := 17
  const AntT: nat := 18
  const FieldT: nat := 19
  const MiscT: nat := 20
  const SInfT: nat := 21
  const LsourceT: nat := 22
  const DialT: nat := 23
  const GlossT: nat := 24
  const ExampleT: nat := 25
  const TableCount: nat := 26

  /** The table a row belongs to. */
  function TableOf(r: JRow): (t: nat)
    ensures t < TableCount
  {
    match r
    case Entry(_) => EntryT
    case KEle(_, _, _) => KEleT
    case KeInf(_, _) => KeInfT
    case KePri(_, _) => KePriT
    case REle(_, _, _, _) => REleT
    case ReRestr(_, _) => ReRestrT
    case ReInf(_, _) => ReInfT
    case RePri(_, _) => RePriT
    case Info(_, _) => InfoT
    case Links(_, _, _, _) => LinksT
    case Bibl(_, _, _) => BiblT
    case Etym(_, _) => EtymT
    case Audit(_, _, _) => AuditT
    case Sense(_, _) => SenseT
    case Stagk(_, _) => StagkT
    case Stagr(_, _) => StagrT
    case Pos(_, _) => PosT
    case Xref(_, _) => XrefT
    case Ant(_, _) => AntT
    case Field(_, _) => FieldT
    case Misc(_, _) => MiscT
    case SInf(_, _) => SInfT
    case Lsource(_, _, _, _, _) => LsourceT
    case Dial(_, _) => DialT
    case Gloss(_, _, _, _) => GlossT
    case Example(_, _) => ExampleT
  }

  /** The four families of surrogate keys, one per referenced table. */
  datatype Family = KEleKeys | REleKeys | InfoKeys | SenseKeys

  /** The element of an entry that opens a new key of the family. */
  function FamilyTag(f: Family): string
  {
    match f
    case KEleKeys => "k_ele"
    case REleKeys => "r_ele"
    case InfoKeys => "info"
    case SenseKeys => "sense"
  }

  /** The table whose rows the family's keys identify. */
  function FamilyTable(f: Family): nat
  {
    match f
    case KEleKeys => KEleT
    case REleKeys => REleT
    case InfoKeys => InfoT
    case SenseKeys => SenseT
  }

  /** The key counters of the driver (`k_ele_pk`, `r_ele_pk`, `info_pk`, `sense_pk`). */
  datatype Keys = Keys(kEle: nat, rEle: nat, info: nat, sense: nat)
  {
    function Get(f: Family): nat
    {
      match f
      case KEleKeys => kEle
      case REleKeys => rEle
      case InfoKeys => info
      case SenseKeys => sense
    }

    /** The counters after `<family>_pk += 1`. */
    function Bump(f: Family): (k: Keys)
      ensures k.Get(f) == Get(f) + 1
      ensures forall g :: g != f ==> k.Get(g) == Get(g)
    {
      match f
      case KEleKeys => this.(kEle := kEle + 1)
      case REleKeys => this.(rEle := rEle + 1)
      case InfoKeys => this.(info := info + 1)
      case SenseKeys => this.(sense := sense + 1)
    }
  }

  /** The surrogate key the row owns as a row of family f's table, if any. */
  function OwnKey(r: JRow, f: Family): Option<nat>
  {
    match r
    case KEle(id, _, _) => if f == KEleKeys then Some(id) else None
    case REle(id, _, _, _) => if f == REleKeys then Some(id) else None
    case Info(id, _) => if f == InfoKeys then Some(id) else None
    case Sense(id, _) => if f == SenseKeys then Some(id) else None
    case _ => None
  }

  /** The key of family f that the row references as a foreign key, if any. */
  function ForeignKey(r: JRow, f: Family): Option<nat>
  {
    match r
    case KeInf(k, _) => if f == KEleKeys then Some(k) else None
    case KePri(k, _) => if f == KEleKeys then Some(k) else None
    case ReRestr(k, _) => if f == REleKeys then Some(k) else None
    case ReInf(k, _) => if f == REleKeys then Some(k) else None
    case RePri(k, _) => if f == REleKeys then Some(k) else None
    case Links(k, _, _, _) => if f == InfoKeys then Some(k) else None
    case Bibl(k, _, _) => if f == InfoKeys then Some(k) else None
    case Etym(k, _) => if f == InfoKeys then Some(k) else None
    case Audit(k, _, _) => if f == InfoKeys then Some(k) else None
    case Entry(_) => None
    case KEle(_, _, _) => None
    case REle(_, _, _, _) => None
    case Info(_, _) => None
    case Sense(_, _) => None
    case Stagk(k, _) => if f == SenseKeys then Some(k) else None
    case Stagr(k, _) => if f == SenseKeys then Some(k) else None
    case Pos(k, _) => if f == SenseKeys then Some(k) else None
    case Xref(k, _) => if f == SenseKeys then Some(k) else None
    case Ant(k, _) => if f == SenseKeys then Some(k) else None
    case Field(k, _) => if f == SenseKeys then Some(k) else None
    case Misc(k, _) => if f == SenseKeys then Some(k) else None
    case SInf(k, _) => if f == SenseKeys then Some(k) else None
    case Lsource(k, _, _, _, _) => if f == SenseKeys then Some(k) else None
    case Dial(k, _) => if f == SenseKeys then Some(k) else None
    case Gloss(k, _, _, _) => if f == SenseKeys then Some(k) else None
    case Example(k, _) => if f == SenseKeys then Some(k) else None
  }

  /** A row owns a key of family f exactly when it belongs to f's table. */
  lemma OwnKeyTable(r: JRow, f: Family)
    ensures OwnKey(r, f).Some? <==> TableOf(r) == FamilyTable(f)
  {
  }

  /** The keys owned by rows of family f, in row order. */
  function OwnKeys(rows: seq<JRow>, f: Family): seq<nat>
  {
    if rows == [] then []
    else OwnKeys(rows[..|rows| - 1], f)
         + (match OwnKey(rows[|rows| - 1], f) case Some(k) => [k] case None => [])
  }

  /** The keys a + 1, ..., b. */
  function Interval(a: nat, b: nat): (r: seq<nat>)
    ensures |r| == if b <= a then 0 else b - a
    ensures forall j :: 0 <= j < |r| ==> r[j] == a + j + 1
    decreases b
  {
    if b <= a then [] else Interval(a, b - 1) + [b]
  }
}
