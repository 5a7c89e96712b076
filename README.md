# morcus-net core, modelled in Dafny

This project models the sequential logic around the Latin dictionary and library reader of
morcus-net. It covers:

- **Lewis & Short processing** (`ls.dfy`). Each entry's storage keys are its regular orths
  when it has any, and otherwise all of its orths. Keys are joined with commas. `getEntry`
  filters lemma results by the `#n` suffix, splits them into exact and inflected results,
  and merges them, keeping the first entry of each id.
- **The author-abbreviation list** (`ls_abbreviations.dfy`):
  - the `<li>` walker `parseListItem`: keys in `<b>` children separated by `" or "`, then
    the expansion text, with nested `<ul>` lists handed on;
  - the walk of the whole page;
  - the lazily filled `authorMap`, grouped by key;
  - the small static abbreviation tables.
- **Reader pagination** (`reader.dfy`):
  - `dividePages`: a new page starts when a chunk's id differs from the last page-start id
    in any position except the last;
  - the page slice `WorkTextPage` shows, with JavaScript `slice` and out-of-range reads;
  - the page number kept in the URL as page+1;
  - the previous and next buttons;
  - the chunk label.
- **Dictionary page helpers** (`dictionary_utils.dfy`):
  - the `QNA` class rewrite for embedded views;
  - the inflection table, grouped by form, sorted by usage note and formatted;
  - the search settings kept in session storage as `;`-joined keys.
- **The search box** (`dictionary_search.dfy`):
  - the query an autocomplete option stands for;
  - the switch that enables or disables a dictionary, through a JavaScript `Set`;
  - the dropdown's open state.
- **Small helpers**:
  - `Tally` and `singletonOf` (`misc_utils.dfy`);
  - work ids, the library index and the server's index cache (`process_library.dfy`);
  - `capitalizeWords` and two class-list builders (`reader_utils.dfy`).

Shared modules model the JavaScript the code relies on:

- `strings.dfy`: `split`, `join`, `trim`, integer text, and `replace` with a one-character
  pattern.
- `seqs.dfy`: `filter`, `map`, `[...new Set(s)]`, and a stable comparator sort.
- `ordered_maps.dfy`: a `Map` with insertion order, the grouping loop and the set-each loop.
- `xml.dfy`: the XML tree as `Text | Elem`.

Code in files outside this model becomes function-typed parameters:

- orth extraction, vowel merging and the regular-orth test;
- the entry renderer, the outline extractor and the message encoder;
- the SQL store, the inflection analyser and `removeDiacritics`;
- reading a TEI header, reading files and the list of available dictionaries.

Some behaviour of the code as written is kept in the model:

- With a single text part, `dividePages` yields `[chunks.length]`, so page 0 shows no chunk
  (`Reader.SinglePartOnePage`, `Reader.PagesOutOfRange`).
- Storing an empty dictionary list writes `""`, which reads back as the one key `""`
  (`DictionaryUtils.StoreThenRetrieve`).
- `populateMaps` runs again on every call while the parsed list is empty
  (`LsAbbreviations.AuthorIndex.Authors`).

## Model

| member | source | states |
|---|---|---|
| LewisAndShort.ChooseKeysRule | src/common/lewis_and_short/ls.ts:67-68 | keys are exactly the regular orths, in order, when one is regular, else all orths; always a subsequence of the orths; non-empty for non-empty orths |
| LewisAndShort.EntryKeys | src/common/lewis_and_short/ls.ts:65-68 | key selection fails iff the entry has no orths; on success the keys are non-empty, a subsequence of the merged orths, and chosen by the regular-orth rule |
| LewisAndShort.ToRawDictEntry | src/common/lewis_and_short/ls.ts:43-52 | fails iff some key contains ","; the stored entry is the encoded entry; splitting the stored keys on "," gives back a non-empty key list |
| LewisAndShort.EntryFor | src/common/lewis_and_short/ls.ts:65-74 | a row is produced only for an entry with at least one orth |
| LewisAndShort.EntryForKeys | src/common/lewis_and_short/ls.ts:47-49 | every produced row's keys split back into the non-empty chosen key list |
| LewisAndShort.ProcessPerseusXml | src/common/lewis_and_short/ls.ts:59-76 | succeeds iff every root gives a row; then exactly one row per root, in parse order; otherwise fails with the first failing root's error |
| LewisAndShort.HandleEach | src/common/lewis_and_short/ls.ts:61-76 | the loop over the parsed roots succeeds iff every root does, then gives one result per root in order, otherwise the first failing root's error |
| LewisAndShort.KeepForLemmaCases | src/common/lewis_and_short/ls.ts:107-119 | without "#" all stored entries are kept; with one "#" only entries whose `n` equals the suffix; with more than one "#" and some stored entry, the lookup fails |
| LewisAndShort.DedupIds | src/common/lewis_and_short/ls.ts:141-153 | the merged results carry exactly the ids of the candidates |
| LewisAndShort.DedupNoDuplicateIds | src/common/lewis_and_short/ls.ts:141-153 | no two merged results share an id |
| LewisAndShort.DedupIsFirstOccurrences | src/common/lewis_and_short/ls.ts:141-153 | the merge keeps exactly the first candidate of each id, in candidate order |
| LewisAndShort.GetEntry | src/common/lewis_and_short/ls.ts:88-154 | without `handleInflections === true` or without an inflection database, the exact matches unchanged and in order; otherwise the deduplicated exact-lemma results, then the exact matches, then the inflected results, or a failure iff some analysis fails |
| LewisAndShort.PartitionAnalyses | src/common/lewis_and_short/ls.ts:103-139 | the loop over the analyses fails iff some analysis fails; otherwise it gives the exact-lemma and the inflected results in analysis order |
| LewisAndShort.MergeById | src/common/lewis_and_short/ls.ts:141-153 | the merge loop with its set of seen ids computes the first-occurrence merge of the candidates |
| LewisAndShort.PartitionFailurePropagates | src/common/lewis_and_short/ls.ts:106-139 | once one analysis fails, the whole lookup fails |
| LsAbbreviations.DropLeadingComma | src/common/lewis_and_short/ls_abbreviations.ts:42-43 | one leading comma is removed, and nothing else |
| LsAbbreviations.DropTrailingComma | src/common/lewis_and_short/ls_abbreviations.ts:42-43 | one trailing comma is removed, and nothing else |
| LsAbbreviations.UlsFrom | src/common/lewis_and_short/ls_abbreviations.ts:32-33 | only `ul` nodes are handed to the callback |
| LsAbbreviations.SetKeysSpec | src/common/lewis_and_short/ls_abbreviations.ts:40-45 | the map from the keys has each key once, nothing else, and every key maps to the expansion |
| LsAbbreviations.ParseListItem | src/common/lewis_and_short/ls_abbreviations.ts:12-46 | the two-loop walk computes the list item's map and nested lists, with each `ul` handed to the callback when it is reached; it succeeds only for an `li` root; every nested list returned is a `ul` |
| LsAbbreviations.ReadKeys | src/common/lewis_and_short/ls_abbreviations.ts:14-26 | the key loop reads `<b>` keys separated by " or " and stops where the specification of the key phase stops |
| LsAbbreviations.ReadExpansion | src/common/lewis_and_short/ls_abbreviations.ts:27-38 | the expansion loop concatenates text children and sole texts of non-`ul` nodes, hands each `ul` to the callback on the spot and stops at the first error, and collects the `ul` nodes in order |
| LsAbbreviations.KeyPhaseEnd | src/common/lewis_and_short/ls_abbreviations.ts:16-26 | key reading stops after the last key, at a child that is not " or ", or at the end after a trailing " or " |
| LsAbbreviations.KeyPhaseKeys | src/common/lewis_and_short/ls_abbreviations.ts:17-18 | the m-th key is the sole text of the `<b>` child at 2m |
| LsAbbreviations.KeyPhaseSeparators | src/common/lewis_and_short/ls_abbreviations.ts:20-25 | between consecutive keys there is a child exactly equal to " or " |
| LsAbbreviations.ListItemEntries | src/common/lewis_and_short/ls_abbreviations.ts:40-45 | every key of a list item has the same trimmed, comma-stripped expansion; the keys are the trimmed, comma-stripped `<b>` texts, each once |
| LsAbbreviations.AuthorEntries | src/common/lewis_and_short/ls_abbreviations.ts:80-86 | one record per key of an author item, all with that item's expansion and works |
| LsAbbreviations.ParseAuthorAbbreviations | src/common/lewis_and_short/ls_abbreviations.ts:54-89 | the loop over the page's children computes the author records, or the error of the first failing child in document order, a nested list's error included |
| LsAbbreviations.ParseAuthor | src/common/lewis_and_short/ls_abbreviations.ts:60-86 | blank text adds nothing and other text fails; an author item adds one record per key with its works |
| LsAbbreviations.PushAuthors | src/common/lewis_and_short/ls_abbreviations.ts:80-86 | the pushed records follow the earlier ones, one per key |
| LsAbbreviations.CollectWorks | src/common/lewis_and_short/ls_abbreviations.ts:66-78 | the works of all nested lists are gathered into one map, in order, or the first error |
| LsAbbreviations.ExpansionFirstError | src/common/lewis_and_short/ls_abbreviations.ts:27-38 | the expansion walk fails iff some child after the keys fails, and then with the error of the first failing child, so a nested list's callback error comes before a later child's |
| LsAbbreviations.WorksErrorIndependent | src/common/lewis_and_short/ls_abbreviations.ts:66-78 | whether a nested list's works fail, and with which error, does not depend on the works gathered before it |
| LsAbbreviations.AuthorWorksAfterWalk | src/common/lewis_and_short/ls_abbreviations.ts:66-86 | once an author item's walk has passed every nested list to the callback, gathering their works cannot fail, so the item yields its records |
| LsAbbreviations.NestedListErrorFirst | src/common/lewis_and_short/ls_abbreviations.ts:30-31 | for `<li><b>K</b><ul><li>bad</li></ul><i>x y</i></li>` the parse fails with the nested item's `<b>` error, before the later `<i>` is read |
| LsAbbreviations.CollectWorksFromList | src/common/lewis_and_short/ls_abbreviations.ts:67-77 | the works of one nested list are gathered, skipping blank text |
| LsAbbreviations.ParseWork | src/common/lewis_and_short/ls_abbreviations.ts:68-76 | non-blank text fails, a work item fails with "This should never happen" as soon as its walk meets a nested list, otherwise its entries are set into the works |
| LsAbbreviations.SetWorks | src/common/lewis_and_short/ls_abbreviations.ts:74-76 | each entry of a work item is set into the works, in order |
| LsAbbreviations.AuthorsFailurePropagates | src/common/lewis_and_short/ls_abbreviations.ts:60-64 | an error in one author child is the error of the whole parse |
| LsAbbreviations.WorksFailurePropagates | src/common/lewis_and_short/ls_abbreviations.ts:67-77 | an error in one work child is the error of the whole list |
| LsAbbreviations.WorksFromUlsFailurePropagates | src/common/lewis_and_short/ls_abbreviations.ts:66-78 | an error in one nested list is the error of the author item |
| LsAbbreviations.AuthorMapContents | src/common/lewis_and_short/ls_abbreviations.ts:437-452 | after population each key maps to exactly the parsed records with that key, in parse order, and keys appear in first-occurrence order |
| LsAbbreviations.AuthorIndex.constructor | src/common/lewis_and_short/ls_abbreviations.ts:432 | the author map starts empty |
| LsAbbreviations.AuthorIndex.Authors | src/common/lewis_and_short/ls_abbreviations.ts:434-459 | a filled map is returned unchanged; an empty one is filled by grouping the parsed page, or left empty when the parse fails |
| LsAbbreviations.AuthorIndex.Populate | src/common/lewis_and_short/ls_abbreviations.ts:437-452 | the population loop leaves the records grouped by key |
| LsAbbreviations.GroupByKeyNonEmpty | src/common/lewis_and_short/ls_abbreviations.ts:435 | a page with authors fills the map, so later calls never add entries again |
| Reader.At | src/web/client/pages/library/reader.tsx:152 | reading an id part is defined exactly inside the id |
| Reader.PageStarts | src/web/client/pages/library/reader.tsx:144-163 | page starts are strictly increasing, end with the chunk count, and lie between 0 and the chunk count |
| Reader.DividePages | src/web/client/pages/library/reader.tsx:144-163 | the nested loops compute the page starts and leave info, text parts and chunks unchanged |
| Reader.DivideUpToStarts | src/web/client/pages/library/reader.tsx:145-160 | the starts found so far are increasing indices below the chunks examined |
| Reader.LastIsLastStart | src/web/client/pages/library/reader.tsx:146-159 | the id the loop compares against is that of the latest page start so far, or all -1 before the first one |
| Reader.StartsPrefix | src/web/client/pages/library/reader.tsx:147-158 | the starts found among the first chunks are the first of all the starts, and the later ones come after those chunks |
| Reader.PageStartIff | src/web/client/pages/library/reader.tsx:146-159 | with j the latest page start before chunk i, i is a page start iff chunk i's id differs from chunk j's id at some position of that id other than its last |
| Reader.PageStartIffNoEarlier | src/web/client/pages/library/reader.tsx:146-159 | with no page start before chunk i, i is a page start iff its id differs from the all -1 id at some position other than the last |
| Reader.SinglePartNoStarts | src/web/client/pages/library/reader.tsx:151 | with at most one text part no chunk starts a page |
| Reader.SinglePartOnePage | src/web/client/pages/library/reader.tsx:151-161 | with at most one text part the page starts are just the chunk count |
| Reader.FirstChunkStartsPage | src/web/client/pages/library/reader.tsx:146-159 | with two or more parts, the first chunk starts a page unless its first id part is -1 |
| Reader.SliceBound | src/web/client/pages/library/reader.tsx:176 | a `slice` bound is clamped into the sequence |
| Reader.Slice | src/web/client/pages/library/reader.tsx:176 | `slice` gives the elements between the clamped bounds |
| Reader.WorkTextPage | src/web/client/pages/library/reader.tsx:165-176 | page -1 and only page -1 shows the work info |
| Reader.PageContents | src/web/client/pages/library/reader.tsx:174-176 | page p shows the chunks from its start to the next page's start |
| Reader.PagesPartition | src/web/client/pages/library/reader.tsx:170-176 | the first n pages together show the chunks from the first start to the n-th start |
| Reader.AllPages | src/web/client/pages/library/reader.tsx:170-176 | all pages together show every chunk from the first page start on |
| Reader.PagesOutOfRange | src/web/client/pages/library/reader.tsx:174-176 | the page after the last shows nothing, and a page beyond that or below -1 shows all chunks |
| Reader.UrlRoundTrip | src/web/client/pages/library/reader.tsx:71-85 | the page written to the URL as page+1 reads back as the same page |
| Reader.WorkColumn.constructor | src/web/client/pages/library/reader.tsx:68-69 | the column starts loading, at page -1 |
| Reader.WorkColumn.SetPage | src/web/client/pages/library/reader.tsx:76-79 | setting a page updates the page and writes page+1 to the URL |
| Reader.WorkColumn.Previous | src/web/client/pages/library/reader.tsx:127 | the previous button moves back exactly one page |
| Reader.WorkColumn.Next | src/web/client/pages/library/reader.tsx:135 | the next button moves forward exactly one page |
| Reader.WorkColumn.Load | src/web/client/pages/library/reader.tsx:81-96 | the page comes from the URL minus one or stays; a missing URL page is written back; a fetched work is paginated, a failed fetch is an error |
| Reader.LabelPieces | src/web/client/pages/library/reader.tsx:211-212 | one label piece per text part |
| Reader.ChunkLabelPieces | src/web/client/pages/library/reader.tsx:211-213 | with comma-free part names, splitting the label on "," gives back the pieces, each after the first preceded by a space |
| DictionaryUtils.TransformNotEmbedded | src/web/client/pages/dictionary/dictionary_utils.tsx:190-199 | outside an embedded view the class attribute is returned unchanged |
| DictionaryUtils.TransformEmbedded | src/web/client/pages/dictionary/dictionary_utils.tsx:25-26 | in an embedded view the token count is kept, each "QNA" becomes "QNAEmbedded" and every other token is unchanged |
| DictionaryUtils.TransformIdempotent | src/web/client/pages/dictionary/dictionary_utils.tsx:194-197 | rewriting twice equals rewriting once |
| DictionaryUtils.GroupByForm | src/web/client/pages/dictionary/dictionary_utils.tsx:324-330 | the `byForm` loop groups the inflections by form in first-occurrence order |
| DictionaryUtils.UsageTotal | src/web/client/pages/dictionary/dictionary_utils.tsx:335-337 | for any note order relating every two notes, any two usage notes are ordered one way or the other |
| DictionaryUtils.CodeOrderConnected | src/web/client/pages/dictionary/dictionary_utils.tsx:336 | character-code order is one such note order |
| DictionaryUtils.RowLeConnected | src/web/client/pages/dictionary/dictionary_utils.tsx:335-337 | for such a note order, the row order relates every two rows |
| DictionaryUtils.SortByUsageSpec | src/web/client/pages/dictionary/dictionary_utils.tsx:335-337 | for any such note order, a form's rows are sorted by usage note and are a permutation of the input rows |
| DictionaryUtils.NoUsageFirst | src/web/client/pages/dictionary/dictionary_utils.tsx:336 | in sorted rows every row without a usage note precedes every row with one |
| DictionaryUtils.FormatLine | src/web/client/pages/dictionary/dictionary_utils.tsx:339-341 | a line starts with the inflection and is the inflection alone iff there is no usage note |
| DictionaryUtils.ViewOfSpec | src/web/client/pages/dictionary/dictionary_utils.tsx:355-365 | one line is shown inline; otherwise each distinct line is listed exactly once |
| DictionaryUtils.SectionsOf | src/web/client/pages/dictionary/dictionary_utils.tsx:331-343 | one section per form of the grouping |
| DictionaryUtils.InflectionDataSection | src/web/client/pages/dictionary/dictionary_utils.tsx:320-369 | the table is the sections of the grouping by form |
| DictionaryUtils.SectionsSpec | src/web/client/pages/dictionary/dictionary_utils.tsx:324-365 | one section per distinct form, in first-occurrence order, showing the lines of exactly the inflections with that form |
| DictionaryUtils.RetrieveFrom | src/web/client/pages/dictionary/dictionary_utils.tsx:304-311 | with nothing stored, all available dictionaries; otherwise the available ones whose key is among the stored keys, in available order |
| DictionaryUtils.SearchSettings.constructor | src/web/client/pages/dictionary/dictionary_utils.tsx:296-297 | the settings read the given storage |
| DictionaryUtils.SearchSettings.Store | src/web/client/pages/dictionary/dictionary_utils.tsx:299-302 | storing writes the ";"-joined keys into the settings slot and nothing else |
| DictionaryUtils.SearchSettings.Retrieve | src/web/client/pages/dictionary/dictionary_utils.tsx:304-311 | retrieving reads the settings slot as described by `RetrieveFrom` |
| DictionaryUtils.StoreThenRetrieve | src/web/client/pages/dictionary/dictionary_utils.tsx:299-311 | with ";"-free keys, store then retrieve gives exactly the available dictionaries whose keys were stored |
| DictionarySearch.ToQuery | src/web/client/pages/dictionary/search/dictionary_search.tsx:29-31 | a query always holds the "," between word and key |
| DictionarySearch.ToQuerySplit | src/web/client/pages/dictionary/search/dictionary_search.tsx:29-31 | with comma-free word and key, the query splits into the word and the rewritten key |
| DictionarySearch.ToQueryKey | src/web/client/pages/dictionary/search/dictionary_search.tsx:30 | only the first "&" of the key is replaced: one "&" fewer when there is one, the key itself otherwise |
| DictionarySearch.InsertionSet.constructor | src/web/client/pages/dictionary/search/dictionary_search.tsx:93 | a `Set` built from a list holds each element once, at its first occurrence |
| DictionarySearch.InsertionSet.Add | src/web/client/pages/dictionary/search/dictionary_search.tsx:95 | `add` appends an element that is not there yet |
| DictionarySearch.InsertionSet.Delete | src/web/client/pages/dictionary/search/dictionary_search.tsx:97 | `delete` removes the element and keeps the rest in order |
| DictionarySearch.Switched | src/web/client/pages/dictionary/search/dictionary_search.tsx:92-99 | the new list has no duplicates; switched on it holds the old ones and the dictionary, switched off the old ones except the dictionary |
| DictionarySearch.OnSwitch | src/web/client/pages/dictionary/search/dictionary_search.tsx:92-100 | the handler's set operations give the switched list |
| DictionarySearch.SwitchKeepsOrder | src/web/client/pages/dictionary/search/dictionary_search.tsx:93-99 | for a list without duplicates, switching on appends a missing dictionary and switching off removes exactly it, others in order |
| DictionarySearch.SwitchOnOff | src/web/client/pages/dictionary/search/dictionary_search.tsx:93-99 | switching a dictionary on then off leaves the list without it |
| DictionarySearch.Label | src/web/client/pages/dictionary/search/dictionary_search.tsx:254-260 | the label asks to enable a dictionary iff none is enabled |
| DictionarySearch.LabelKeys | src/web/client/pages/dictionary/search/dictionary_search.tsx:257-259 | otherwise it lists the keys joined by ", ", which split back into the keys |
| DictionarySearch.SearchBox.constructor | src/web/client/pages/dictionary/search/dictionary_search.tsx:158-159 | the dropdown starts closed with empty input |
| DictionarySearch.SearchBox.OnEnter | src/web/client/pages/dictionary/search/dictionary_search.tsx:163-171 | enter closes the dropdown and navigates only for a non-empty term |
| DictionarySearch.SearchBox.OnInputChange | src/web/client/pages/dictionary/search/dictionary_search.tsx:227-234 | typing stores the text and opens the dropdown iff the text has a non-space character; clicks are ignored |
| DictionarySearch.SearchBox.OnInputClick | src/web/client/pages/dictionary/search/dictionary_search.tsx:265 | clicking the field opens the dropdown iff it holds text |
| DictionarySearch.SearchBox.OnChange | src/web/client/pages/dictionary/search/dictionary_search.tsx:214-226 | only clicks act; free text is searched as typed, an option searches its query and shows its word |
| DictionarySearch.SearchBox.OnOptionClick | src/web/client/pages/dictionary/search/dictionary_search.tsx:241-244 | clicking an option shows its word and searches its query |
| MiscUtils.BumpCount | src/common/misc_utils.ts:4-9 | counting raises the item's count by exactly one and leaves all other counts unchanged |
| MiscUtils.BumpFirst | src/common/misc_utils.ts:5-8 | an item never counted gets count 1 |
| MiscUtils.TotalAfterSet | src/common/misc_utils.ts:13 | setting a count changes the total by the difference |
| MiscUtils.TotalAfterBump | src/common/misc_utils.ts:4-13 | each count raises the total by one |
| MiscUtils.ListedSpec | src/common/misc_utils.ts:17-18 | listed entries are in non-increasing count order, are a permutation of the entries reaching the threshold, and each reaches it |
| MiscUtils.ListedAll | src/common/misc_utils.ts:17 | without a threshold every entry is listed |
| MiscUtils.BumpKeepsValid | src/common/misc_utils.ts:4-9 | counting keeps keys distinct and counts positive, and raises the total by one |
| MiscUtils.Tally.constructor | src/common/misc_utils.ts:2 | a tally starts with no counts |
| MiscUtils.Tally.Count | src/common/misc_utils.ts:4-9 | `count` raises the item's count by one and keeps the total equal to the number of calls |
| MiscUtils.Tally.ToString | src/common/misc_utils.ts:11-22 | the report's total is the number of `count` calls, followed by the "count <= label" lines of the listed entries |
| MiscUtils.Singleton.constructor | src/common/misc_utils.ts:33-35 | the cell starts without a value and without initializer calls |
| MiscUtils.Singleton.Get | src/common/misc_utils.ts:36-41 | every call returns the initializer's value; the initializer runs only while no value is held, so at most once once it gives a value |
| MiscUtils.ExhaustiveGuard | src/common/misc_utils.ts:25-31 | the guard always throws |
| ProcessLibrary.LastSegment | src/common/library/process_library.ts:31-33 | the last path segment contains no "/" |
| ProcessLibrary.LastSegmentOfName | src/common/library/process_library.ts:31-33 | a name without "/" is its own last segment |
| ProcessLibrary.LastDot | src/common/library/process_library.ts:34 | finds the last "." of a name, or none iff there is no "." |
| ProcessLibrary.StripExtensionSpec | src/common/library/process_library.ts:34 | a name without "." or ending in "." is kept; otherwise only the final non-empty extension is removed |
| ProcessLibrary.WorkId | src/common/library/process_library.ts:31-34 | a work id never contains "/" |
| ProcessLibrary.ProcessLibraryIndex | src/common/library/process_library.ts:24-49 | the loop builds the index entry by entry, overwriting on repeated ids |
| ProcessLibrary.IndexShape | src/common/library/process_library.ts:36-44 | one entry per distinct work id, in first-occurrence order; each maps to outputDir + "/" + id and to metadata whose id is that id |
| ProcessLibrary.IndexLastWins | src/common/library/process_library.ts:44 | a later work with the same id overwrites the earlier entry |
| ProcessLibrary.IndexMissing | src/common/library/process_library.ts:44 | an id no work has is absent from the index |
| ProcessLibrary.LibraryServer.constructor | src/common/library/process_library.ts:51 | the cache starts empty |
| ProcessLibrary.LibraryServer.GetIndex | src/common/library/process_library.ts:53-65 | a directory's index is read once and served from the cache afterwards |
| ProcessLibrary.LibraryServer.RetrieveWorksList | src/common/library/process_library.ts:67-72 | the metadata half of every index entry, in index order; the index file is read only when the directory is not cached yet, and the cache otherwise stays as it was |
| ProcessLibrary.LibraryServer.RetrieveWorkStringified | src/common/library/process_library.ts:74-84 | rejects with status 404 iff the id is not in the index; otherwise the contents of the work's output file; the index file is read only when the directory is not cached yet, and the cache otherwise stays as it was |
| ReaderUtils.Upper | src/web/client/pages/library/reader_utils.tsx:14 | upper-casing maps a space to a space and nothing else to one |
| ReaderUtils.UpperIdempotent | src/web/client/pages/library/reader_utils.tsx:14 | upper-casing twice equals upper-casing once |
| ReaderUtils.CapitalizeWord | src/web/client/pages/library/reader_utils.tsx:14 | only the first character of a non-empty word changes, to its upper case |
| ReaderUtils.CapitalizeWordsSpec | src/web/client/pages/library/reader_utils.tsx:10-17 | same number and lengths of " "-separated words, empty words kept, only first characters upper-cased, text length kept |
| ReaderUtils.CapitalizeWordsIdempotent | src/web/client/pages/library/reader_utils.tsx:10-17 | capitalizing twice equals capitalizing once |
| ReaderUtils.ClassListSpec | src/web/client/pages/library/reader_utils.tsx:24-48 | the widget's own classes come last, alone when there are no extra classes, and space-free extra classes split back first |
| ReaderUtils.InfoTextClassesSpec | src/web/client/pages/library/reader_utils.tsx:24 | `InfoText`'s classes split into the additional classes followed by "text", "sm", "light" |
| Strings.SplitOfJoin | src/common/lewis_and_short/ls.ts:47-49 | joining separator-free pieces and splitting again gives the pieces back |
| Strings.IntStringRoundTrip | src/web/client/pages/library/reader.tsx:73-83 | the decimal text of an integer parses back to it |
| Strings.ReplaceFirstSpec | src/web/client/pages/dictionary/search/dictionary_search.tsx:30 | `replace` with a string pattern changes exactly the first occurrence |
| Strings.ReplaceFirstCount | src/web/client/pages/dictionary/search/dictionary_search.tsx:30 | it removes exactly one occurrence |
| Strings.TrimEmptyIff | src/web/client/pages/dictionary/search/dictionary_search.tsx:232 | the trimmed text is empty iff every character is white space |
| Strings.SplitCommaSpaceJoin | src/web/client/pages/library/reader.tsx:211-213 | a ", "-join of comma-free pieces splits on "," into the pieces, later ones after a space |
| Seqs.DistinctSpec | src/web/client/pages/dictionary/dictionary_utils.tsx:359 | `[...new Set(s)]` has no duplicates, the same elements as s, and keeps their order in s (a subsequence of s) |
| Seqs.SortBySpec | src/common/misc_utils.ts:18 | a comparator sort orders the elements and keeps each as often as it occurs |
| OrderedMaps.GetAfterSet | src/common/misc_utils.ts:5-8 | after `set` the key maps to the new value and every other key is unaffected |
| OrderedMaps.GroupBySpec | src/web/client/pages/dictionary/dictionary_utils.tsx:324-330 | each key maps to exactly the items with that key, in order; other keys are absent |
| OrderedMaps.GroupByKeys | src/common/lewis_and_short/ls_abbreviations.ts:437-452 | the grouped keys are distinct and in first-occurrence order |
| OrderedMaps.SetEachKeys | src/common/library/process_library.ts:29-44 | setting each item gives one entry per distinct key, in first-occurrence order |
| OrderedMaps.SetEachLastWins | src/common/library/process_library.ts:44 | a key maps to the value of its last item |

## Left out

- File, database and network I/O are parameters rather than operations:
  - the HTML and XML reads;
  - the processed-work writes and the index file write;
  - the SQL dictionary store;
  - the RPC call that fetches a work;
  - session storage, which is a map.
- Parsing and rendering code of other files is not part of this model. It appears as
  function-typed parameters:
  - the XML parser;
  - `getOrths`, `isRegularOrth`, `mergeVowelMarkers`;
  - `displayEntryFree`, `extractOutline`, the message encoder;
  - `LatinWords.analysesFor`, `removeDiacritics`;
  - the TEI header reader, `processTei`;
  - `LatinDict.AVAILABLE`.
- `XmlNode.getSoleText` is not part of this model. It is taken to succeed exactly for an
  element with one text child.
- `safeParseInt` is not part of this model. URL pages are read as an optional "-" followed
  by decimal digits.
- The trie-based tables `USG_TRIE`, `EDGE_CASE_HOVERS`, `GENERIC_HOVERS` and
  `GENERIC_EXPANSIONS` are left out, and so is the works trie `populateMaps` builds; the
  trie code lives elsewhere.
- React rendering is left out:
  - JSX element creation in `xmlNodeToJsx`, beyond its class-attribute rewrite;
  - the help section, tooltips and links;
  - the highlight slider;
  - the autocomplete option loading;
  - `displayForLibraryChunk`;
  - window-size styling.
- Console logging and the `numHandled` progress output are left out.
- `localeCompare` is a parameter, the note order; the sorting lemmas hold for any order that
  relates every two notes. Which order a locale gives is not modelled. `toUpperCase` is
  modelled for ASCII letters only.
- The usage-note comparator answers -1 for two missing notes in both orders. It is modelled
  as a stable sort that keeps such rows in input order; a JavaScript engine may order them
  differently.
- The dictionary `Set` and `includes` compare `DictInfo` objects by identity; the model
  compares them by value.
- `getIndex` caches a promise, including a rejected one. The model caches the index value,
  and read failures are not modelled.
- The library index is a plain object in the source. The model keeps insertion order, and
  does not model that array-index-like keys are listed first or that prototype keys such as
  "constructor" are found by `index[workId]`.
- `retrieveWork` (message decoding) is left out.
- The `ul` callback of an author item is modelled as the check of the list's works made
  when the list is met, which gives the same error as the source at the same point. The
  works themselves are gathered after the walk (`LsAbbreviations.CollectWorks`);
  `LsAbbreviations.AuthorWorksAfterWalk` shows this cannot fail once the walk succeeded.
- All records of one author share a single works `Map` object in the source; the model
  gives each record an equal copy.
- Navigation is recorded as the list of queries issued; the `experimentalSearch` and
  `localOnly` flags are not modelled.
- The `singletonOf` initializer is a pure function, so its side effects are not modelled.
- `MiscUtils.Tally.ToString` and `MiscUtils.ExhaustiveGuard` take a `show` parameter in
  place of template-literal and `JSON.stringify` conversion.
- DictionaryUtils.GroupByForm: groups whole inflection records. The source pushes
  `[data, usageNote]` pairs; here the pairs are taken when the lines are formatted, with the
  same contents.
- LewisAndShort.GetEntry: when an analysis fails, it states only that the lookup fails, not
  which error message it carries.
- LewisAndShort.GetEntry: when inflections are handled, the source merges the exact matches
  as the stored records themselves, so a merged exact match still carries its `n` field. The
  model converts them with `toEntryResult` first, so no merged result carries `n`. Which
  entries are merged, and in what order, is the same, since the merge reads only the entry's
  id.
- Numbers are JavaScript doubles in the source, but the model uses unbounded integers for
  page numbers, chunk ids, page starts and `Tally` counts. It assumes they stay within the
  safe-integer range (below 2^53). `Reader.UrlRoundTrip` and `Strings.IntStringRoundTrip`
  hold for every integer here, but in the source only for safe integers. From 10^21 on,
  `${page + 1}` prints exponent notation.
- LewisAndShort.EntryFor: its own contract states only that a row needs an orth; the key
  content is stated by `LewisAndShort.EntryForKeys`.
- `parseAuthorAbbreviations`' default page path is not modelled. The page read is left out,
  and the parsed page is a parameter. The `LIB_DEFAULT_DIR` and `ALL_WORKS` defaults are
  kept, as default parameter values of the library methods.
