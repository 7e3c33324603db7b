# jdict2db: the XML-to-rows engine, in Dafny

jdict2db loads two Japanese dictionaries into relational tables: JMdict (words) and KANJIDIC2 (characters). It streams each dictionary's XML file. For every completed top-level element (`entry` or `character`) it dispatches the element's children to one routine per composite element. Each routine appends row records to one in-memory list per table. A routine called `save_all` bulk-inserts every list longer than `n_to_commit` and then empties it.

This project models that engine for both dictionaries:

- **Parsed XML** (`Xml`). A parsed element is a `Node`: tag, optional text, attributes and children in document order. Other parts of the module:
  - `Get` and `GetOr` model `elem.get(name)` and `elem.get(name, default)`;
  - `LastText` models a local variable reassigned at every child with a tag;
  - `Unicode` models Python 2's `unicode()` on an element's text, where an absent text becomes the string `"None"`.
- **Row buffers** (`Buffers`). The module-level lists become a `RowPool`:
  - one pending `seq` per table, in the order of the list `all_l`;
  - a log of bulk inserts;
  - a ghost record of every row ever appended.

  The pool's invariant is that no row is lost: for each table, the committed rows followed by the pending rows are exactly the rows appended. `SaveAll(threshold)` is `save_all`, and a bulk insert appends a `Batch` (table, rows) to the log.
- **Periodic flushing** (`Buffers.Flow`, `Counted`, `Drive`). Both stream drivers count the elements they process in `save_now` and call save_all once it exceeds `n_to_save`. `Counted` is one such element: its rows are appended to the buffers, `save_now` is bumped, and past `n_to_save` the buffers are flushed, the batches are logged, `save_now` is reset and the number of save_all calls goes up. `Drive` folds `Counted` over the row blocks of the elements. Each driver's loop is proved to leave exactly the buffers and the log of `Drive` over its blocks (`Blocks`), so removing the periodic save_all breaks the proof.
- **JMdict** (`JmdictRows`, `JmdictSpec`, `Jmdict`, `JmdictLemmas`, `JmdictKeys`).
  - One row constructor per table.
  - One imperative method per dispatcher (`parse_k_ele`, `parse_r_ele`, `parse_info`, `parse_sense`), on a `Loader` class that owns the pool and `n_to_commit`.
  - The stream driver of `fill_database`, with its four surrogate-key counters.

  Each method is proved to append exactly the rows of a pure function of its input (`KEleRows`, `Run`, …). The lemmas then give, per table, what those rows are. The rows carry their surrogate key `id` explicitly; the source leaves it to the database's auto-increment. The key lemmas prove referential integrity: the n-th row of k_ele, r_ele, info and sense owns key n, and every foreign key names an allocated key.
- **KANJIDIC2** (`KanjidicRows`, `KanjidicSpec`, `Kanjidic`, `KanjidicLemmas`). The same shape: six dispatchers, the driver, and the rows keyed by the natural key, the character's `literal`.

The input of a run is the sequence of elements `iterparse` completes, in document order; only `entry` or `character` elements are processed. The model is not executed. Each row below names a member and states what its contract says; the verifier proves every such contract.

## Model

| member | source | states |
|---|---|---|
| Buffers.RowPool.SaveAll | jdict2db/jmdict.py:221-232 | Every buffer longer than the threshold is inserted whole, in list order, and emptied; every other buffer is unchanged; no row is lost or reordered. |
| Buffers.BatchesExact | jdict2db/jmdict.py:226-232 | save_all inserts exactly the buffers strictly longer than n_to_commit: each batch is one whole such buffer, batches follow the list order, and every such buffer gets one; a table is committed its whole buffer or nothing. |
| Buffers.FlushKeepsRows | jdict2db/kanjidic.py:151-157 | A flush moves rows from buffers to the insert log without losing or reordering any. |
| Buffers.FlushAllEmpties | jdict2db/jmdict.py:433-435 | With n_to_commit 0 every buffer is left empty, each non-empty buffer is inserted exactly once and whole, and no empty one is inserted. |
| Buffers.FlushUntouched | jdict2db/kanjidic.py:155-157 | A table that was never appended more rows than the threshold gets no insert. |
| Buffers.RowPool.Flush | jdict2db/jmdict.py:226-232 | The loop over all_l empties exactly the buffers longer than the threshold and logs them, in list order. |
| Buffers.RowPool.Append | jdict2db/jmdict.py:240-241 | A row goes to the end of its table's buffer and is recorded as appended; nothing is inserted. |
| Buffers.DriveCounts | jdict2db/jmdict.py:425-428 | save_all runs once per n_to_save + 1 counted elements: the number of calls and save_now are the quotient and remainder of the count. |
| Buffers.DriveQuiet | jdict2db/kanjidic.py:269-272 | While save_now never exceeds n_to_save, nothing is inserted and the rows are only appended. |
| Buffers.CountedKeepsRows | jdict2db/kanjidic.py:269-272 | One counted element loses no row: per table, committed then pending grows by exactly the element's rows. |
| Buffers.DriveKeepsRows | jdict2db/jmdict.py:425-428 | The periodic flushing loses and reorders no row: per table, committed then pending grows by that table's rows of every element, in order. |
| Buffers.DriveExtends | jdict2db/jmdict.py:425-428 | Earlier inserts stay first in the log. |
| Xml.Get | jdict2db/kanjidic.py:190-192 | `elem.get(name)` is the attribute's value when present, None exactly when absent. |
| Xml.GetOr | jdict2db/jmdict.py:341-350 | `elem.get(name, default)` is the attribute's value when present, else the default. |
| Xml.Unicode | jdict2db/jmdict.py:353-356 | `unicode()` never gives None: a present text is kept, an absent one becomes "None". |
| Jmdict.Loader.SaveAll | jdict2db/jmdict.py:221-232 | Exactly the buffers longer than the current n_to_commit are inserted, in all_l order, and emptied; the other buffers and the rows appended are unchanged. |
| Jmdict.Loader.Emit | jdict2db/jmdict.py:240-241 | `<table>_l.append(row)`: exactly that row is appended to its own table's buffer, and nothing is inserted. |
| Jmdict.Loader.ParseKEleChild | jdict2db/jmdict.py:236-244 | One child of a k_ele: keb is updated by a keb child; ke_inf and ke_pri children append one row each (carrying the key); other tags append nothing. |
| Jmdict.Loader.ParseKEle | jdict2db/jmdict.py:234-246 | parse_k_ele appends exactly the rows of KEleRows: the children's rows in order, then the k_ele row. |
| JmdictLemmas.KEleTables | jdict2db/jmdict.py:234-246 | Exactly one k_ele row (keb = text of the last keb child, None without one); one ke_inf and one ke_pri row per child of that tag, in child order, with the key; nothing to any other table. |
| Jmdict.Loader.ParseREleChild | jdict2db/jmdict.py:251-264 | One child of an r_ele: reb becomes `unicode` of a reb child's text; re_nokanji becomes true on a re_nokanji child; re_restr, re_inf and re_pri append one row each. |
| Jmdict.Loader.ParseREle | jdict2db/jmdict.py:248-268 | parse_r_ele appends exactly the rows of REleRows. |
| JmdictLemmas.REleTables | jdict2db/jmdict.py:248-268 | Exactly one r_ele row, where re_nokanji holds iff some child has tag re_nokanji, whatever its text, and reb is `unicode` of the last reb text or None; one re_restr, re_inf and re_pri row per child of that tag, in order; nothing elsewhere. |
| Jmdict.LinksColumns | jdict2db/jmdict.py:273-282 | The links locals are the texts of the last link_tag, link_desc and link_uri children (None without one). |
| Xml.LastTextIsLastMatch | jdict2db/jmdict.py:235-238 | A local reassigned at every child with a tag ends as the text of the last such child. |
| Jmdict.BiblColumns | jdict2db/jmdict.py:288-294 | Corrected bibl loop: the locals are the texts of the last bib_tag and bib_txt children. |
| Jmdict.AuditColumns | jdict2db/jmdict.py:302-308 | The audit locals are the texts of the last upd_date and upd_detl children. |
| Jmdict.Loader.ParseInfoChild | jdict2db/jmdict.py:271-311 | One child of an info element appends its links, bibl (corrected), etym or audit row, and nothing for any other tag. |
| Jmdict.Loader.ParseInfo | jdict2db/jmdict.py:270-312 | parse_info (bibl corrected) appends exactly the rows of InfoRows. |
| JmdictLemmas.InfoTables | jdict2db/jmdict.py:270-312 | Exactly one info row, whatever the children; one etym row per etym child; nothing outside the info tables. |
| JmdictLemmas.InfoRecordTables | jdict2db/jmdict.py:272-311 | One links, bibl and audit row per child of that tag, in order, each with the last matching grandchildren's texts. |
| Jmdict.BiblAsWritten | jdict2db/jmdict.py:287-297 | The bibl branch as written: the locals are reset at every child, and an empty bibl leaves them as an earlier bibl left them (unbound for the first). |
| JmdictLemmas.BiblAsWrittenDropsTag | jdict2db/jmdict.py:288-297 | For bibl[bib_tag "X", bib_txt "Y"] the branch as written stores bib_tag None, while the corrected row keeps "X". |
| JmdictLemmas.BiblAsWrittenSingle | jdict2db/jmdict.py:288-297 | For a bibl with exactly one child, the branch as written and the corrected row agree. |
| JmdictLemmas.BiblAsWrittenEmpty | jdict2db/jmdict.py:287-297 | A childless bibl, as written: no row when it is the first (the locals are unbound), else the columns an earlier bibl left; corrected: bib_tag and bib_txt None. |
| Jmdict.Loader.ParseSenseChild | jdict2db/jmdict.py:315-374 | One child of a sense appends the row of its tag's table, or nothing for an unknown tag. |
| Jmdict.Loader.ParseSense | jdict2db/jmdict.py:314-375 | parse_sense appends exactly the rows of SenseRows. |
| JmdictLemmas.SenseTagTableInjective | jdict2db/jmdict.py:315-374 | Distinct tags go to distinct child tables of sense. |
| JmdictLemmas.SenseChildTable | jdict2db/jmdict.py:315-374 | One child appends at most one row, to its tag's table. |
| JmdictLemmas.SenseTables | jdict2db/jmdict.py:314-375 | Exactly one sense row, whatever the children; nothing outside the sense tables. |
| JmdictLemmas.StagkTable | jdict2db/jmdict.py:316-318 | One stagk row per stagk child, in order: `unicode` of its text, with the key. |
| JmdictLemmas.StagrTable | jdict2db/jmdict.py:319-321 | One stagr row per stagr child, in order, through `unicode`. |
| JmdictLemmas.PosTable | jdict2db/jmdict.py:322-324 | One pos row per pos child, in order, text kept as is. |
| JmdictLemmas.XrefTable | jdict2db/jmdict.py:325-327 | One xref row per xref child, in order, through `unicode`. |
| JmdictLemmas.AntTable | jdict2db/jmdict.py:328-330 | One ant row per ant child, in order, through `unicode`. |
| JmdictLemmas.FieldTable | jdict2db/jmdict.py:331-333 | One field row per field child, in order. |
| JmdictLemmas.MiscTable | jdict2db/jmdict.py:334-336 | One misc row per misc child, in order. |
| JmdictLemmas.SInfTable | jdict2db/jmdict.py:337-339 | One s_inf row per s_inf child, in order, through `unicode`. |
| JmdictLemmas.LsourceTable | jdict2db/jmdict.py:340-361 | One lsource row per lsource child: the text (None stays None), xml:lang or else "eng", ls_type or else "full", and ls_wasei true iff the attribute is present. |
| JmdictLemmas.DialTable | jdict2db/jmdict.py:362-364 | One dial row per dial child, in order. |
| JmdictLemmas.GlossTable | jdict2db/jmdict.py:365-371 | One gloss row per gloss child: `unicode` of its text, xml:lang or else "eng", g_gend or else None. |
| JmdictLemmas.ExampleTable | jdict2db/jmdict.py:372-374 | One example row per example child, in order, through `unicode`. |
| Jmdict.Loader.ParseEntryChild | jdict2db/jmdict.py:409-424 | One child of an entry: ent_seq is recorded with an entry row; a k_ele, r_ele, info or sense child bumps its own counter, then is dispatched with the new key; other tags change nothing. |
| Jmdict.Loader.ParseEntry | jdict2db/jmdict.py:407-424 | An entry appends exactly EntryWalk's rows (ent_seq starting None), and returns the counters it ends with. |
| Jmdict.Loader.LoadEvent | jdict2db/jmdict.py:407-428 | One completed element: an entry appends its EntryWalk rows and advances the counters; the buffers, the log and save_now then equal Counted on the state before, so past 5000 the buffers are flushed with n_to_commit and the batches logged; any other element changes nothing. |
| Jmdict.Loader.FillDatabase | jdict2db/jmdict.py:398-435 | Every row of Run is appended; before the last flush the buffers and the log are those of Drive over the entries' blocks with n_to_commit as it started; the final flush, with n_to_commit 0, adds its batches, leaves every buffer empty and makes every table's commits equal all its rows. |
| Jmdict.Loader.SaveLeftovers | jdict2db/jmdict.py:433-435 | With n_to_commit set to 0, save_all inserts every non-empty buffer whole and leaves all empty; every table's commits are then all its rows. |
| Jmdict.PeriodicSaves | jdict2db/jmdict.py:404-428 | After the loop, save_all has run once per 5001 entries and save_now is the remainder; with at most 5000 entries nothing is inserted; no row is lost or reordered; earlier inserts stay first in the log. |
| JmdictSpec.BlocksRun | jdict2db/jmdict.py:406-424 | The row blocks are one per entry, and joined they are the rows of the run. |
| JmdictKeys.DispatchKeys | jdict2db/jmdict.py:413-424 | A dispatcher called with key pk appends one row owning pk, in its own family's table, and child rows that refer only to pk. |
| JmdictKeys.EntryStepKeys | jdict2db/jmdict.py:409-424 | One entry child bumps each counter at most once; its rows own exactly the newly allocated keys and refer only to them. |
| JmdictKeys.EntryWalkCounts | jdict2db/jmdict.py:409-424 | Over an entry, each counter rises by the number of children with its tag. |
| JmdictKeys.EntryWalkKeys | jdict2db/jmdict.py:409-424 | Counters never decrease; an entry's rows own exactly the keys it allocated, in order, and refer only to them. |
| JmdictKeys.RunCounts | jdict2db/jmdict.py:398-424 | Counters start at 0 and end at the number of children with their tag across all entries. |
| JmdictKeys.RunKeys | jdict2db/jmdict.py:395-424 | Over a run, the rows of a family's table own keys 1, 2, …, n in order, so the n-th row has key n; every foreign key is in 1..n. |
| JmdictKeys.RunReferences | jdict2db/jmdict.py:395-424 | Referential integrity: every foreign key names a key owned by a row of the referenced table, and that table has one row per element of its family. |
| Kanjidic.Loader.SaveAll | jdict2db/kanjidic.py:146-157 | Exactly the buffers longer than n_to_commit are inserted, in all_l order, and emptied; the other buffers and the rows appended are unchanged. |
| Kanjidic.Loader.Emit | jdict2db/kanjidic.py:167-168 | `<table>_l.append(row)`: exactly that row is appended to its own table's buffer, and nothing is inserted. |
| Kanjidic.Loader.ParseMiscChild | jdict2db/kanjidic.py:164-179 | One child of a misc: grade, freq and jlpt take a matching child's text; stroke_count, variant and rad_name append one row each; other tags do nothing. |
| Kanjidic.Loader.ParseMisc | jdict2db/kanjidic.py:159-184 | parse_misc appends exactly MiscRows: its children's rows, then the character row. |
| KanjidicLemmas.MiscCharacterTable | jdict2db/kanjidic.py:159-184 | Exactly one character row, keyed by the literal, whose grade, freq and jlpt are the texts of the last matching children (None without one); nothing outside the misc tables. |
| KanjidicLemmas.MiscChildTables | jdict2db/kanjidic.py:166-177 | One stroke_count, variant and rad_name row per child of that tag, in order; var_type is the attribute or None; rad_name goes through `unicode`. |
| Kanjidic.Loader.ParseDicNumber | jdict2db/kanjidic.py:186-192 | parse_dic_number appends exactly DicNumberRows. |
| KanjidicLemmas.DicNumberTables | jdict2db/kanjidic.py:186-192 | One dic_ref row per child, whatever its tag, in order; m_vol and m_page are None when absent; nothing elsewhere. |
| Kanjidic.Loader.ParseQueryCode | jdict2db/kanjidic.py:194-199 | parse_query_code appends exactly QueryCodeRows. |
| KanjidicLemmas.QueryCodeTables | jdict2db/kanjidic.py:194-199 | One query_code row per child, whatever its tag: `unicode` of its text, with skip_misclass None when absent; nothing elsewhere. |
| Kanjidic.Loader.ParseRmGroupChild | jdict2db/kanjidic.py:205-217 | One child of an rmgroup: a reading or meaning row (m_lang defaulting to "en") or nothing. |
| Kanjidic.Loader.ParseRmGroup | jdict2db/kanjidic.py:204-217 | The inner loop appends exactly RmGroupRows. |
| Kanjidic.Loader.ParseReadingMeaningChild | jdict2db/kanjidic.py:203-220 | An rmgroup appends its readings and meanings, a nanori its own row, anything else nothing. |
| Kanjidic.Loader.ParseReadingMeaning | jdict2db/kanjidic.py:201-220 | parse_reading_meaning appends exactly ReadingMeaningRows. |
| KanjidicLemmas.RmGroupReadings | jdict2db/kanjidic.py:205-210 | Inside an rmgroup, one reading row per reading child, in order. |
| KanjidicLemmas.RmGroupMeanings | jdict2db/kanjidic.py:211-217 | Inside an rmgroup, one meaning row per meaning child, in order; m_lang is the attribute, else "en". |
| KanjidicLemmas.RmGroupOthers | jdict2db/kanjidic.py:204-217 | An rmgroup appends to no table other than reading and meaning. |
| KanjidicLemmas.ReadingMeaningTables | jdict2db/kanjidic.py:201-220 | Reading and meaning rows come only from the children of rmgroup children, group after group; nanori rows only from direct nanori children; nothing else anywhere. |
| Kanjidic.Loader.ParseRadical | jdict2db/kanjidic.py:222-226 | parse_radical appends exactly RadicalRows. |
| KanjidicLemmas.RadicalTables | jdict2db/kanjidic.py:222-226 | One rad_value row per child, whatever its tag, in order; nothing elsewhere. |
| Kanjidic.Loader.ParseCodepoint | jdict2db/kanjidic.py:228-232 | parse_codepoint appends exactly CodepointRows. |
| KanjidicLemmas.CodepointTables | jdict2db/kanjidic.py:228-232 | One codepoint row per child, whatever its tag, in order; nothing elsewhere. |
| Kanjidic.Loader.ParseCharacterChild | jdict2db/kanjidic.py:253-267 | One child of a character: a literal child sets the literal to `unicode` of its text; any other known child is dispatched with the current literal. |
| Kanjidic.Loader.ParseCharacter | jdict2db/kanjidic.py:251-267 | A character appends exactly CharacterWalk's rows, with the literal starting as None. |
| Kanjidic.Loader.LoadCharacter | jdict2db/kanjidic.py:251-267 | A character appends exactly CharacterWalk's rows and inserts nothing. |
| Kanjidic.Loader.LoadEvent | jdict2db/kanjidic.py:252-272 | One completed element: a character appends its CharacterWalk rows; the buffers, the log and save_now then equal Counted on the state before, so past 2000 the buffers are flushed with n_to_commit and the batches logged; any other element changes nothing. |
| KanjidicLemmas.CharacterWalkLiteral | jdict2db/kanjidic.py:251-255 | The literal ends as `unicode` of the last literal child's text, or None without a literal child. |
| KanjidicLemmas.CharacterWalkDispatch | jdict2db/kanjidic.py:251-267 | Child j is dispatched with the most recent literal before it, or None when none precedes it. |
| KanjidicLemmas.CharacterChildLiteral | jdict2db/kanjidic.py:186-232 | Every row a dispatcher appends is keyed by the literal it was given. |
| KanjidicLemmas.CharacterWalkLiteralCarried | jdict2db/kanjidic.py:251-267 | When the first child is the only literal child, every row of the character carries its literal. |
| KanjidicLemmas.CharacterChildCharacterRows | jdict2db/kanjidic.py:253-267 | A child appends one character row if it is a misc element, none otherwise. |
| KanjidicLemmas.CharacterWalkCharacterRows | jdict2db/kanjidic.py:253-267 | A character gets one character row per misc child, so none without misc. |
| KanjidicLemmas.RunCharacterRows | jdict2db/kanjidic.py:250-267 | Over a run, the character rows number the misc children of all characters. |
| Kanjidic.Loader.LoadCharacters | jdict2db/kanjidic.py:248-274 | The parse loop appends every row of Run and leaves exactly the buffers and log of Drive over the characters' blocks; a table appended at most n_to_commit rows is never inserted. |
| Kanjidic.Loader.FillDatabase | jdict2db/kanjidic.py:248-277 | As written: the final save_all flushes Drive's buffers with n_to_commit still 10000, so every buffer keeps at most 10000 rows, and a table never appended more than 10000 rows was never inserted. |
| Kanjidic.Loader.FillDatabaseFlushed | jdict2db/kanjidic.py:248-277 | Corrected: with n_to_commit set to 0 before the final save_all, Drive's buffers are all inserted, every buffer ends empty, and every row appended is committed, in order. |
| Kanjidic.PeriodicSaves | jdict2db/kanjidic.py:248-272 | After the loop, save_all has run once per 2001 characters and save_now is the remainder; with at most 2000 characters nothing is inserted; no row is lost or reordered; earlier inserts stay first in the log. |
| KanjidicSpec.BlocksRun | jdict2db/kanjidic.py:250-267 | The row blocks are one per character, and joined they are the rows of the run. |
| Kanjidic.SmallRunAsWritten | jdict2db/kanjidic.py:276-277 | A one-character dictionary, as written: its character row is never inserted and stays pending. |
| Kanjidic.SmallRunFlushed | jdict2db/kanjidic.py:276-277 | The same dictionary, corrected: its character row is inserted and nothing stays pending. |

## Left out

- Schema creation, `create_engine`, the connection and `conn.execute` are SQLAlchemy calls. A bulk insert is modelled as a `Batch` appended to the pool's log; the column types and constraints of the table declarations are not modelled.
- The row dictionaries' keys `link_tag`, `bib_tag` and `bib_txt` do not match the declared column names (jdict2db/jmdict.py:97, 106-107). The model names row fields by the keys the dispatchers write.
- Tokenisation by `iterparse` is left out. The input is the sequence of completed elements, and `elem.clear()` (a memory release) is not modelled.
- Timing, `print`, file opening and closing, the download of a missing dictionary (jdict2db/download.py) and the command-line blocks are I/O.
- Jmdict.Loader.ParseInfo uses the corrected bibl loop. The branch as written is modelled separately, by Jmdict.BiblAsWritten. Its error on a childless first bibl is modelled as a `None` row, not as an exception that ends the run.
- The model keeps each dictionary's rows as pending or committed: what a database would do with a duplicate `literal` or a NULL column is outside it.

## Findings

| source | as written | input that shows it | evidently intended | confidence | as-written member | corrected member |
|---|---|---|---|---|---|---|
| jdict2db/jmdict.py:288-297 | `bib_tag` and `bib_txt` are reset to None at the top of every iteration over the bibl's children, so only the last child contributes; a childless first bibl reads unbound locals | a bibl with a bib_tag "X" child then a bib_txt "Y" child stores bib_tag None | each column holds the text of the last child with its tag, as for links and audit | high; not executed | JmdictLemmas.BiblAsWrittenDropsTag | JmdictLemmas.InfoRecordTables |
| jdict2db/kanjidic.py:276-277 | the final save_all runs with n_to_commit still 10000, so every buffer of at most 10000 rows stays pending and is never inserted | a dictionary holding one character, literal "X" with an empty misc child | set n_to_commit to 0 before the final save_all, as jdict2db/jmdict.py:433-435 does | high; not executed | Kanjidic.SmallRunAsWritten | Kanjidic.SmallRunFlushed |
