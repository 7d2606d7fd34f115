# Drug–journal graph pipeline, modelled in Dafny

This project models the data pipeline that links drugs to the journals
that mention them. The pipeline cleans three tables: PubMed articles,
clinical trials and drugs. It then builds a graph with one node per drug,
listing for each journal and date the articles and trials whose title
names the drug, and answers two ad-hoc queries over that graph.

Two versions of the pipeline are modelled:

- `utils/transform.py`, the current version: `clean_data` and its helpers,
  `generate_graph`, `extract_journal_with_most_drugs` and
  `find_related_drugs_not_in_clinical_trials`;
- `transform.py`, the older version: `clean_data` and `generate_graph`.

Modules:

- `Wrappers`, `Errors` (wrappers.dfy): `Option`, `Result`, and the Python
  exceptions the pipeline can raise (`KeyError`, `TypeError`,
  `AttributeError`, and a date that the parser refuses).
- `Text` (text.dfy): `str.strip`, `str.lower`, substring search, the two
  regular expressions that cut escape sequences, and `str(int(x))`.
- `Dates` (dates.dfy): the `DD/MM/YYYY` rendering. The date parser is a
  parameter.
- `Tables` (table.dfy): a pandas frame as a list of columns and a sequence
  of rows, with null cells as `None`. It models `fix_nan`, the rename, the
  group-by merge, the short-title filter and `drop_duplicates`.
- `Transform` (transform.dfy): `clean_data` of `utils/transform.py`. It is
  both a function of the input table and a `DataFrame` class whose
  methods change the frame in place, as the pandas code does. Each method
  is proved equal to its function.
- `Graph` (graph.dfy): `generate_graph` for both versions (a `Variant`
  flag selects whether the title is lowercased before matching). The row
  loops are methods proved equal to functions, and those functions are
  characterised by lemmas.
- `Queries` (queries.dfy): the two queries as loop methods, specified
  against set comprehensions over the graph.
- `LegacyTransform` (legacy.dfy): `clean_data` of `transform.py`.

Behaviours made explicit by the model:

- A trial that lands on a journal and date already created by a PubMed
  article raises `KeyError('clinical_trial')`.
- The clinical-trial exclusion of the related-drugs query never fires.
- A journal cell holding `"nan"` makes `clean_data` raise. The test
  `tests/test_transform.py` expects such a cell to become the empty text;
  the model follows the code (`Transform.NanJournalFails`).

## Model

| member | source | states |
|---|---|---|
| Text.StripAndLower | utils/transform.py:45-46 | the result has no leading or trailing blank and no upper-case letter |
| Text.StripAndLowerIdempotent | utils/transform.py:45-46 | stripping and lowercasing twice gives the same text as doing it once |
| Text.Strip | utils/transform.py:45-46 | the stripped text has no surrounding blanks and is no longer than the input |
| Text.StripSlice | utils/transform.py:45-46 | strip returns the slice that starts after the leading blanks and leaves only blanks after it |
| Text.LowerShape | transform.py:41 | lowercasing leaves no upper-case letter, keeps an unpadded text unpadded, and leaves a lowercase text unchanged |
| Text.RemoveUndecoded | utils/transform.py:63-65 | removing escapes never lengthens the text and never adds a character |
| Text.RemoveUndecodedNoBackslash | utils/transform.py:63-65 | a text with no backslash is left unchanged |
| Text.RemoveUndecodedKeepsPrefix | utils/transform.py:63-65 | the text before the first backslash is kept as it is |
| Text.RemoveUndecodedDropsEscape | utils/transform.py:63-65 | a backslash, one character and two word characters are removed when no word character follows |
| Text.RemoveUndecodedJoinsSurroundings | utils/transform.py:63-65 | two escapes are removed and the text around them is joined unchanged |
| Text.RemoveUndecodedKeepsTrailingSpace | tests/test_transform.py:45 | the journal of the second test row keeps the blank before its removed escape |
| Text.RemoveUndecodedNoUpper | utils/transform.py:94-98 | removing escapes after lowercasing leaves no upper-case letter |
| Text.StripFromBackslashSingleLine | transform.py:39 | on a single line, the older expression keeps exactly the text before the first backslash |
| Text.IntTextCanonical | utils/transform.py:152 | str(int(x)) returns a canonical integer text unchanged |
| Text.IntTextIdempotent | utils/transform.py:152 | applying str(int(x)) to its own output changes nothing |
| Text.ContainsAt | utils/transform.py:143 | a drug occurring in the title at some offset makes `drug in title` true |
| Text.ContainsFind | utils/transform.py:143 | `drug in title` is true only when the drug occurs in the title at some offset |
| Dates.Render | utils/transform.py:50-52 | the rendering has ten characters, digits around slashes at positions 2 and 5 |
| Dates.RenderRoundTrip | utils/transform.py:50-52 | a rendered date reads back as the same day, month and year |
| Dates.RenderInjective | utils/transform.py:50-52 | two different dates never share a rendering |
| Dates.RenderExamples | tests/test_transform.py:65-66 | the first two expected dates of the test are the renderings of 2 January 2021 and 12 July 2020 |
| Dates.RenderMoreExamples | tests/test_transform.py:67-68 | the last two expected dates of the test are the renderings of 1 April 2021 and 24 January 2022 |
| Tables.NanFixedCells | utils/transform.py:14-16 | every "nan" cell becomes null, every other cell is kept, and the shape is kept |
| Tables.NanFixedIdempotent | utils/transform.py:14-16 | fixing "nan" twice is the same as fixing it once |
| Tables.RenamedCells | utils/transform.py:20-21 | after the rename the new label holds the old column's cells, the old label is gone, and the other columns are kept |
| Tables.GroupKeysSpec | utils/transform.py:26-27 | the groups are the distinct non-null values of the column, each listed once |
| Tables.GroupKeysOrder | utils/transform.py:26-27 | the groups are listed in the order of their first row (sort=False) |
| Tables.GroupRowsSpec | utils/transform.py:26-27 | a group holds exactly the rows carrying its value, and its first row is the first such row of the table |
| Tables.FillThenFirst | utils/transform.py:9-10 | forward fill, then backward fill, then the first row gives the first non-null value of each column |
| Tables.FirstNonNull | utils/transform.py:9-10 | the result is null only when every value of the column is null, and otherwise is the first non-null value |
| Tables.GroupsMergedSpec | utils/transform.py:25-28 | the merged frame has one row per group, in group order, each cell being the first non-null value of its column in the group |
| Tables.GroupsMergedKeys | utils/transform.py:25-28 | the merged frame's key values are distinct and non-null, and they are exactly the non-null key values of the input |
| Tables.LongTitles | utils/transform.py:39-41 | the kept rows are exactly the rows whose title is long enough |
| Tables.TitlesAtLeast | utils/transform.py:39-41 | a missing title column raises AttributeError, a null title raises TypeError, and otherwise exactly the rows with long enough titles are kept |
| Tables.KeepFirst | utils/transform.py:31-35 | the kept rows come from the input and have pairwise distinct keys |
| Tables.KeepFirstKeys | utils/transform.py:31-35 | every key of the input is still present after deduplication |
| Tables.KeepFirstFirst | utils/transform.py:31-35 | each kept row is the first row of the input carrying its key |
| Tables.KeepFirstOrder | utils/transform.py:31-35 | deduplication keeps table order: of two kept rows, the one kept first first appeared first |
| Tables.Deduplicated | utils/transform.py:31-35 | a missing subset column raises KeyError; the result keeps the columns, takes its rows from the input, and has distinct keys |
| Tables.DeduplicatedDistinct | utils/transform.py:31-35 | deduplicating on an existing column succeeds, keeps the frame well formed, and leaves distinct values in that column |
| Transform.AppliedSpec | utils/transform.py:94-95 | applying a text operation fails exactly on a missing column or a null cell, and otherwise keeps the frame's shape |
| Transform.AppliedRow | utils/transform.py:94-95 | each cell of the column becomes the operation applied to the old cell, and the other cells are kept |
| Transform.RenderDatesSpec | utils/transform.py:50-52 | re-dating fails exactly when some date cell is null or unparsable, with the first such row's error; otherwise each date is the rendering of its parse |
| Transform.UniformDatedSpec | utils/transform.py:50-52 | a re-dated frame keeps its shape and every date cell holds the rendering of the parsed old date |
| Transform.NormalisedTextsRows | utils/transform.py:94-98 | titles and journals are stripped, lowercased and cleared of escapes, and nothing else changes |
| Transform.CleanTitledRows | utils/transform.py:91-100 | the survivors are the first row of each non-empty title; their title, journal and date are cleaned, and their other cells are kept |
| Transform.CleanTitledShape | utils/transform.py:91-100 | after cleaning, no title or journal holds an upper-case letter, and every date reads back as DD/MM/YYYY |
| Transform.CleanTitledErrors | utils/transform.py:92-95 | a null title raises TypeError; a missing journal column raises AttributeError('journal') |
| Transform.UniqueTitleSurvives | utils/transform.py:92-93 | a row with a non-empty title that no other row carries survives the filter and the deduplication |
| Transform.NullJournalFails | utils/transform.py:95 | a surviving row with a null journal makes the title branch raise AttributeError('strip') |
| Transform.NanJournalFails | utils/transform.py:83-95 | a journal holding "nan" in a row with a unique non-empty title makes clean_data raise AttributeError('strip') |
| Transform.BlankTitleBecomesEmpty | utils/transform.py:92-94 | a title of blanks only passes the empty-title filter and comes out as the empty text |
| Transform.TitlesMayRepeat | utils/transform.py:93-94 | titles differing only in case both survive deduplication and then carry the same cleaned title |
| Transform.CleanDrugsRows | utils/transform.py:103-105 | the drug branch keeps the first row of each atccode, so the codes are distinct, and strips and lowercases each drug name |
| Transform.CleanDrugsErrors | utils/transform.py:103-105 | a missing atccode column raises KeyError; a missing drug column raises AttributeError |
| Transform.RenamedTitles | utils/transform.py:83-86 | after fix_nan and the rename, the titles are the scientific titles other than "nan" |
| Transform.PreparedTrials | utils/transform.py:83-88 | a trials frame comes out renamed and merged, with one row per distinct non-null title |
| Transform.DataFrame.FixNan | utils/transform.py:14-16 | the in-place loop over the columns leaves the frame equal to the "nan"-fixed input |
| Transform.DataFrame.RenameTitle | utils/transform.py:20-21 | the frame becomes the renamed input and stays well formed |
| Transform.DataFrame.DropDuplicates | utils/transform.py:31-35 | the frame becomes the deduplicated input, or is left unchanged and the error is returned |
| Transform.DataFrame.DropShortTitles | transform.py:37 | the frame loses exactly its rows whose title is shorter than the given length, keeping the others in order; a missing title column or a null title returns the error and leaves the frame unchanged |
| Transform.DataFrame.DropRecordsWithEmptyTitles | utils/transform.py:39-41 | the frame loses exactly its empty-title rows, or the error is returned and the frame is unchanged |
| Transform.DataFrame.ApplyToColumn | utils/transform.py:94-95 | the column becomes the operation applied to it, or the error is returned and the frame is unchanged |
| Transform.DataFrame.RemoveUndecodedChars | utils/transform.py:63-65 | the column is cleared of escapes, or the error is returned and the frame is unchanged |
| Transform.DataFrame.UniformDates | utils/transform.py:50-52 | every date is re-rendered, or the error is returned and the frame is unchanged |
| Transform.FillGroupValues | utils/transform.py:25-28 | a missing group column raises KeyError; otherwise a new frame holds the merged groups |
| Transform.CleanData | utils/transform.py:81-106 | the call succeeds exactly when the cleaning function succeeds, returns its table or its error, and hands back the input frame itself unless a trials frame was merged |
| Graph.Mentions | utils/transform.py:143 | the match succeeds exactly when title and drug are both non-null, and is then substring containment |
| Graph.LegacyIgnoresCase | transform.py:69 | the older version matches a capitalised title that the current version misses |
| Graph.CollectPubmed | utils/transform.py:142-155 | the PubMed entries have distinct (journal, date) keys, each with a non-empty article list and no clinical_trial list |
| Graph.CollectPubmedErrors | utils/transform.py:142-155 | the PubMed loop fails exactly when some row fails, with the first failing row's error |
| Graph.CollectPubmedEntries | utils/transform.py:142-155 | each entry lists the articles of its key in row order, and every matching article is filed under its key |
| Graph.CollectTrialsEntries | utils/transform.py:158-172 | the trial loop keeps the PubMed entries and appends one entry per new key, listing that key's trials, with an empty article list |
| Graph.DrugJournalsSpec | utils/transform.py:139-176 | a drug's journals are its PubMed entries followed by its trial-only entries, keys distinct, and no entry mixes both sources |
| Graph.SharedKeyFails | utils/transform.py:161-168 | an article and a trial with the same journal and date make the drug's loop raise; when no row raises otherwise and every matching trial has an id, the exception is KeyError('clinical_trial') |
| Graph.TrialsOnlyKeyError | utils/transform.py:158-172 | when every trial row is read without an exception and every matching trial has an id, the only exception the trial loop can raise is KeyError('clinical_trial') |
| Graph.MentionsNameDrug | utils/transform.py:142-171 | every article and trial filed under a drug has a title containing the drug (after lowering the title in transform.py:69,85) |
| Graph.UnmentionedDrug | utils/transform.py:133-176 | a drug named by no title gets an empty list of journals |
| Graph.PubmedEntries | utils/transform.py:142-155 | the PubMed row loop computes the PubMed-side function, error included |
| Graph.TrialEntries | utils/transform.py:158-172 | the clinical-trial row loop computes the trial-side function, error included |
| Graph.CollectPubmedStep | utils/transform.py:142-155 | one more PubMed row either ends the loop with its exception, leaves the entries alone, or files its hit |
| Graph.CollectTrialsStep | utils/transform.py:158-172 | one more clinical-trial row either ends the loop with its exception, leaves the entries alone, or files its hit (which may raise) |
| Graph.DrugEntries | utils/transform.py:139-176 | both row loops together compute the drug's journals |
| Graph.GenerateGraph | utils/transform.py:125-180 | a missing drug column raises KeyError; otherwise there is one node per distinct drug with its journals, or the error of a failing drug |
| Queries.LinksSpec | utils/transform.py:192-195 | the flattened pairs are exactly the (drug, journal entry) pairs of the graph |
| Queries.ExtractJournalWithMostDrugs | utils/transform.py:186-212 | the count is the largest number of distinct drugs under one journal title (0 without journals), and the journals are exactly the titles reaching it, each once, in the order their titles first appear in the graph |
| Queries.IndexJournals | utils/transform.py:190-198 | the defaultdict maps each journal title to its set of distinct drugs, and its keys are listed in insertion order, that is by first appearance among the flattened pairs |
| Queries.MaxDrugCount | utils/transform.py:201-205 | the fold returns the largest set size, or 0 with no journal |
| Queries.JournalsWithCount | utils/transform.py:208-209 | the journals kept are exactly those whose set has the given size, each once, in the order of the dict's keys |
| Queries.NoJournalsNoEntries | utils/transform.py:186-212 | a graph with no journal entries has no journal titles, so the count is 0 |
| Queries.ClinicalTrialTestNeverHolds | utils/transform.py:231 | searching a list of journal records for the text 'clinical_trial' never succeeds |
| Queries.FindRelatedDrugsNotInClinicalTrials | utils/transform.py:218-239 | the result holds, once each, exactly the drugs other than the target with an entry under one of the target's PubMed-only journals |
| Queries.TrialLinkedDrugStillRelated | utils/transform.py:228-238 | a drug known under the target's journal only through a clinical trial is still reported |
| LegacyTransform.SurvivorsSpec | transform.py:35-37 | the survivors are the first rows of each raw title with their title stripped, when the stripped title has at least three characters |
| LegacyTransform.LoweredTitlesRows | transform.py:39-41 | each title is cut at its first escape and lowercased, and nothing else changes |
| LegacyTransform.FilteredRows | transform.py:35-37 | deduplication, strip and the length filter leave exactly the survivors, in a well-formed frame |
| LegacyTransform.CleanTitledRows | transform.py:34-43 | each survivor's title is cut and lowercased and its date re-rendered; every other cell, the journal included, is kept |
| LegacyTransform.CleanTitledShape | transform.py:34-43 | no title holds an upper-case letter and every date reads back as DD/MM/YYYY |
| LegacyTransform.DedupKeepsNull | transform.py:35 | deduplication keeps one row with a null title |
| LegacyTransform.NullTitleFails | transform.py:35-36 | a null title reaches strip and the branch raises AttributeError('strip') |
| LegacyTransform.ShortTitleAfterFilter | transform.py:37-39 | a title that passes the three-character filter can come out shorter after the escape is cut |
| LegacyTransform.CleanData | transform.py:24-51 | the frame becomes the cleaned table when cleaning succeeds, and the error is returned otherwise |

## Left out

- Reading and writing files, and `clean_project_data`, are outside the model. They only call the modelled functions.
- `pd.to_datetime` is a parameter (`Dates.DateParser`). It maps a text to a calendar date or to nothing. The formats it infers are not modelled; neither are the month-first readings that the test dates reveal.
- `str.strip`, `str.lower` and the regex class `\w` are modelled on ASCII. Unicode blanks, case mappings and letters are not.
- Cells are text or null. pandas' float NaN and numeric dtypes are not distinguished from null and text, so `str(int(x))` is modelled on texts only (`Text.IntText`).
- Text.IntText: `int()` also accepts underscores between digits; the model rejects them.
- The order in which `set()` yields drugs is not modelled. `Graph.GenerateGraph` picks drugs in any order, and its contract promises no order of the nodes.
- The message string at utils/transform.py:212 is not modelled. `Queries.ExtractJournalWithMostDrugs` returns the journals and the count.
- Transform.DataFrame.RenameTitle: a frame that already has a `title` column as well as the column being renamed is excluded. pandas would then hold two columns named `title`, which the model's frames cannot.
- Transform.CleanData: the state of the input frame after an error is not stated.
- LegacyTransform.CleanData: the state of the input frame after an error is not stated.
- Tables.GroupsMerged: a group whose other cells are all null merges to null cells. pandas' dtype changes and the index are not modelled.
- pandas index labels are not modelled, and `reset_index` is not modelled either. Rows are kept in table order.
- In `find_related_drugs_not_in_clinical_trials`, the ordering of the returned list follows set iteration. It is not modelled; the contract promises each drug once.
