/** The rows of the KANJIDIC2 schema.  Every table other than `character`
    refers to its character through `character_literal`, the natural key;
    no surrogate key is allocated by the loader. */
module KanjidicRows {
  import opened Xml

  /** One row per table of the schema, with the columns the loader fills. */
  datatype KRow =
    | Character(literal: Option<string>, grade: Option<string>, freq: Option<string>, jlpt: Option<string>)
    | StrokeCount(characterLiteral: Option<string>, strokeCount: Option<string>)
    | Variant(characterLiteral: Option<string>, variant: Option<string>, varType: Option<string>)
    | RadName(characterLiteral: Option<string>, radName: Option<string>)
    | DicRef(characterLiteral: Option<string>, dicRef: Option<string>, drType: Option<string>, mVol: Option<string>, mPage: Option<string>)
    | QueryCode(characterLiteral: Option<string>, qCode: Option<string>, qcType: Option<string>, skipMisclass: Option<string>)
    | Codepoint(characterLiteral: Option<string>, cpValue: Option<string>, cpType: Option<string>)
    | RadValue(characterLiteral: Option<string>, radValue: Option<string>, radType: Option<string>)
    | Reading(characterLiteral: Option<string>, reading: Option<string>, rType: Option<string>, onType: Option<string>, rStatus: Option<string>)
    | Meaning(characterLiteral: Option<string>, meaning: Option<string>, mLang: string)
    | Nanori(characterLiteral: Option<string>, nanori: Option<string>)

  /** Table numbers: positions in the loader's list of buffers (`all_l`). */
  const CharacterT: nat := 0
  const StrokeCountT: nat := 1
  const VariantT: nat := 2
  const RadNameT: nat := 3
  const DicRefT: nat := 4
  const QueryCodeT: nat := 5
  const CodepointT: nat := 6
  const RadValueT: nat := 7
  const ReadingT: nat := 8
  const MeaningT: nat := 9
  const NanoriT: nat := 10
  const TableCount: nat := 11

  /** The table a row belongs to. */
  function TableOf(r: KRow): (t: nat)
    ensures t < TableCount
  {
    match r
    case Character(_, _, _, _) => CharacterT
    case StrokeCount(_, _) => StrokeCountT
    case Variant(_, _, _) => VariantT
    case RadName(_, _) => RadNameT
    case DicRef(_, _, _, _, _) => DicRefT
    case QueryCode(_, _, _, _) => QueryCodeT
    case Codepoint(_, _, _) => CodepointT
    case RadValue(_, _, _) => RadValueT
    case Reading(_, _, _, _, _) => ReadingT
    case Meaning(_, _, _) => MeaningT
    case Nanori(_, _) => NanoriT
  }

  /** The character a row belongs to: the `literal` of a character row, the
      `character_literal` of any other. */
  function LiteralOf(r: KRow): Option<string>
  {
    match r
    case Character(l, _, _, _) => l
    case _ => r.characterLiteral
  }
}
