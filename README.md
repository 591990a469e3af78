# pubmedpy core, modelled and proved in Dafny

pubmedpy downloads PubMed records through the NCBI E-utilities and turns the
XML it receives into tables. This project models the parts of it that are
plain logic once HTTP, lxml, pandas and the locale machinery are set aside:

- **eutilities**: `esearch_query` pages through search results with
  `retstart`. `download_pubmed_ids` cuts the IDs into batches of `retmax`
  and works them from a deque. A failed batch of at least `2 * retmin` IDs is
  split in two and pushed back to the front; a smaller one is pushed back
  whole. After `n` failures in a row, the back-off is `error_sleep * n`.
  The first success writes the opening tag, and every child is written on
  its own line. The model of this is the class `EUtilities.Downloader`,
  whose loop is specified by `EUtilities.Loop`: one pass per response while
  batches remain.
- **efetch**: the fields of a `<PubmedArticle>`: identifiers (with the DOI
  lower-cased), journal, title, the publication date, and the authors.
  The publication date is the least `ArticleDate` string, else the
  `PubDate`, written `YYYY`, `YYYY-MM` or `YYYY-MM-DD`.
- **esummary**: the dates of a `<DocSum>`.
  - The history items are parsed, de-duplicated and stably sorted by name.
    Each run of equal names is then numbered `name_0`, `name_1`, ….
  - The pub and epub dates are parsed, and the earliest of them is added
    as `published`.
  - The article record itself is assembled.
- **names**: `simplify_fore_name` and `simplify_last_name`.
- **xml**: the opener chosen by compression, the order of the element
  stream, `iter_extract_elems` with its `root.clear()` calls, and the
  `.xml` filter on zip members.

How the pieces are represented:

- XML elements are records of what `findtext`/`findall` return. A missing
  element is `None`.
- The date parsers (`strptime` under a locale) are function parameters: a
  parser returns `None` where `strptime` would raise ValueError.
- The responses of the web service are an oracle sequence: one response
  per request.
- Python's `OrderedDict` is a sequence of key/value pairs (`OrderedDict.Dict`),
  with `Put` for `d[k] = v` and `Update` for `d.update(e)`.
- Strings are sequences of characters. `string.whitespace` and
  `string.punctuation` are sets of ASCII characters (`Text.Whitespace`,
  `Text.Punctuation`), used where the code names them. `str.split()` and
  `str.rstrip()` without arguments use every character `str.isspace`
  accepts (`Text.Space`). Case mapping is that of ASCII.
- `int(text)` accepts a non-empty run of ASCII digits (`Text.IntOf`).

Where the code and its tests disagree, the model follows the code:
`tests/test_names.py` line 25 expects `simplify_fore_name('Mc-Winters',
lower=True)` to be `'mc-Winters'`, but `str.lower` lower-cases the whole word,
and `Names.ForeNameHyphen` states `"mc-winters"`.

Files: `wrappers.dfy` (Option, Result, the Python exceptions), `text.dfy`
(string operations of the Python standard library), `ordered_dict.dfy`,
`eutilities.dfy`, `efetch.dfy`, `esummary.dfy`, `names.dfy`, `xml.dfy`.

## Model

| member | source | states |
|---|---|---|
| EUtilities.EsearchQuery | pubmedpy/eutilities.py:10-35 | The `retstart` values sent are 0, retmax, 2·retmax, …. A further request is sent only while the previous page's `Count` parses and lies beyond its `retstart + retmax`. A `Count` that `int()` rejects (missing: TypeError; not a number: ValueError) is raised at once, before that page's IDs are added or its sleep is taken. The IDs are the concatenation of the ID lists of the pages served, `None` for an empty `Id`, in order. There is one sleep of `sleep` per page served. The loop finishes exactly when the last `retstart + retmax` reaches the last `Count`. |
| EUtilities.FlattenCons | pubmedpy/eutilities.py:57-59 | The IDs of a queue are those of its front batch followed by those of the rest. |
| EUtilities.ChunksPartition | pubmedpy/eutilities.py:57-59 | Concatenated, the batches are exactly the IDs in order. Each batch holds 1 to `retmax` IDs, and there are ⌈len(ids)/retmax⌉ batches. |
| EUtilities.ChunkIsSlice | pubmedpy/eutilities.py:58-59 | Batch `k` is `ids[k·retmax : k·retmax + retmax]`, clipped at the end. |
| EUtilities.InitialQueue | pubmedpy/eutilities.py:57-59 | The stepping loop builds exactly the batch list. |
| EUtilities.RequeueConserves | pubmedpy/eutilities.py:81-86 | Requeueing keeps every batch non-empty and loses or adds no ID (multiset of IDs). A batch of at least `2·retmin` IDs is replaced at the front by its second half and then its first half, each of at least `retmin` IDs; a smaller one goes back whole. |
| EUtilities.Successes | pubmedpy/eutilities.py:70-74 | Only successful responses are kept. |
| EUtilities.ChildLines | pubmedpy/eutilities.py:94-96 | One line per child: its serialisation, right-stripped, plus a newline. |
| EUtilities.BodyLength | pubmedpy/eutilities.py:94-96 | The file body has one line per child of every successful response. |
| EUtilities.DocumentShape | pubmedpy/eutilities.py:91-103 | The finished file is the opening tag of the first success, the body lines, and the closing tag of the last success. |
| EUtilities.SuccessesSnoc | pubmedpy/eutilities.py:70-88 | A new attempt adds to the successes exactly when it succeeded. |
| EUtilities.StreakSnoc | pubmedpy/eutilities.py:63-87 | A success resets `successive_errors` to 0 and a failure increments it. Each pass sleeps `sleep`, and a failure adds `error_sleep · successive_errors`. |
| EUtilities.WrittenSnoc | pubmedpy/eutilities.py:91-96 | The opening tag is written only at the first success; later successes append only child lines. |
| EUtilities.InitialConsistent | pubmedpy/eutilities.py:50-59 | The state before `while idq` satisfies the loop invariant. |
| EUtilities.StepConsistent | pubmedpy/eutilities.py:62-99 | Every pass of the loop keeps the invariant. The invariant covers: queued plus delivered IDs form the multiset of the input; `progress` is the number of delivered IDs; the streak and the writes follow the attempt log. |
| EUtilities.Conservation | pubmedpy/eutilities.py:65-99 | Progress plus the IDs still queued is always `len(ids)`. |
| EUtilities.Drained | pubmedpy/eutilities.py:62-99 | Once the queue is empty, every ID was delivered exactly as often as it was given. `tree` is unbound exactly when there were no IDs. |
| EUtilities.Downloader.constructor | pubmedpy/eutilities.py:38-59 | It builds the URL from the endpoint and the initial batch queue, with no writes, no sleeps and a zero error streak. |
| EUtilities.Downloader.Request | pubmedpy/eutilities.py:62-99 | One pass moves the state as the loop's step function does and keeps the invariant. |
| EUtilities.Downloader.Advance | pubmedpy/eutilities.py:63-99 | The statements of one pass: pop, sleep, request, then write on success or requeue and back off on failure. |
| EUtilities.Downloader.Retry | pubmedpy/eutilities.py:75-88 | The `except` block: the error streak grows by one, the batch is requeued at the front, and the back-off sleep is recorded. |
| EUtilities.Downloader.Deliver | pubmedpy/eutilities.py:74-99 | After a success: the streak is reset, the opening tag is written on the first success only, the child lines follow, and the progress grows by the batch size. |
| EUtilities.Downloader.WriteChildLines | pubmedpy/eutilities.py:94-96 | It appends the child lines, in order. |
| EUtilities.LoopConsistent | pubmedpy/eutilities.py:62-99 | The loop, as the fold of one pass per response while batches remain, keeps the invariant. |
| EUtilities.LoopConsumes | pubmedpy/eutilities.py:62-99 | The loop consumes a prefix of the responses in order, sends one request per response, and stops short of the last response only once the queue has drained. |
| EUtilities.SuccessesDrain | pubmedpy/eutilities.py:62-99 | When every request succeeds, the queue drains after exactly one response per batch. |
| EUtilities.FailuresKeepQueue | pubmedpy/eutilities.py:75-88 | When every request fails, a non-empty queue never drains: all responses are consumed and nothing is written, delivered or bound to `tree`. |
| EUtilities.DownloadDrains | pubmedpy/eutilities.py:50-103 | A download of at least one ID whose requests all succeed, with a response for every initial batch, drains after ⌈len(ids)/retmax⌉ requests, binds `tree` and reports every ID as progress. |
| EUtilities.OneBatchDrains | pubmedpy/eutilities.py:62-99 | For the IDs `["a"]` and one successful response with root `t` and one child, the loop stops after that response with an empty queue and `tree` bound to `t`. It has written the opening tag and the child line, and progress is 1. |
| EUtilities.Downloader.Drain | pubmedpy/eutilities.py:62-99 | The object's state afterwards, and the number of responses consumed, are exactly the fold of the loop over the responses. The invariant holds, the responses were consumed as a prefix, and the loop stopped early only because the queue drained. |
| EUtilities.Downloader.Finish | pubmedpy/eutilities.py:101-103 | After the queue drains, the closing tag of `tree` is appended to the writes if some request succeeded, completing the document. Otherwise `tree` is unbound and nothing is written, which happens only for an empty ID list. |
| EUtilities.Downloader.Run | pubmedpy/eutilities.py:62-103 | Every field but the writes is that of the loop's fold. The run is unfinished exactly when the fold left batches queued, and then the invariant holds. It ends with an unbound `tree` exactly when the fold drained without a success. Otherwise it completes, and the writes are the fold's plus the closing tag of the last success. The sleeps, the body and the whole document follow the attempt log. |
| EUtilities.DownloadPubmedIds | pubmedpy/eutilities.py:38-103 | The requests, the sleeps, the progress and the number of responses used are those of the loop's fold from the initial queue. The outcome is unfinished exactly when the fold left batches queued, and an unbound `tree` exactly when it drained without a success; otherwise the file is the fold's writes plus the closing tag. On completion the file is the whole document and the progress is `len(ids)`. A run cut short by the oracle has written the opening tag and the child lines of the successes so far. `tree` is unbound only for an empty ID list. |
| EFetch.MonthTable | pubmedpy/efetch.py:58-71 | The month table maps exactly the twelve abbreviations Jan…Dec to 1…12. |
| EFetch.MonthNumber | pubmedpy/efetch.py:85-90 | An abbreviation is looked up in the table; any other month text is read with `int()`. |
| EFetch.DateNeedsYear | pubmedpy/efetch.py:78-84 | A date string exists exactly when the element is present and its Year reads as an integer. |
| EFetch.DayIgnoredWithoutMonth | pubmedpy/efetch.py:87-90 | Without a readable month, the Day has no effect. |
| EFetch.DateStringReadsBack | pubmedpy/efetch.py:74-96 | For a year below 10000 and month and day below 100, the string is `YYYY`, `YYYY-MM` or `YYYY-MM-DD` according to which parts read. Each field is zero-padded to its width and reads back to the number it came from. |
| EFetch.LeastString | pubmedpy/efetch.py:52 | `sorted(dates)[0]` is an element of the list that is lexicographically ≤ every element. |
| EFetch.ArticleDateStrings | pubmedpy/efetch.py:47-50 | One date string per `ArticleDate`, in order. |
| EFetch.ExtractPublicationDate | pubmedpy/efetch.py:43-55 | No `ArticleDate` gives the string of `PubDate`. With all article dates present, the result is the least of them. Sorting two or more values of which one is `None` raises TypeError, and that is the only error. |
| EFetch.FirstOfType | pubmedpy/efetch.py:34-36 | `findtext` with an `IdType` predicate finds the first `ArticleId` of that type; there is none exactly when no element has it. |
| EFetch.NormalizeDoi | pubmedpy/efetch.py:37-39 | A missing or empty DOI is kept; any other is lower-cased. |
| EFetch.ExtractIdentifiers | pubmedpy/efetch.py:23-40 | The keys are `pmid`, `pmcid`, `doi` in that order, with the first pubmed, pmc and doi article IDs, and the DOI normalised. |
| EFetch.ExtractAuthors | pubmedpy/efetch.py:99-115 | One record per author element, in order: fore name, last name and the Affiliation texts. |
| EFetch.ExtractHeading | pubmedpy/efetch.py:11-17 | The record starts with pmid, pmcid, doi, journal, journal_nlm_id and title, in that order, with the values of the extractors. |
| EFetch.ExtractAll | pubmedpy/efetch.py:7-20 | It raises exactly when `extract_publication_date` does. Otherwise the record has the keys pmid, pmcid, doi, journal, journal_nlm_id, title, publication_date and authors, in that order, with the values of the extractors. |
| ESummary.ParseDatesPrefixErr | pubmedpy/esummary.py:62-70 | After the first exception, later items do not matter. |
| ESummary.ParseDatesErr | pubmedpy/esummary.py:62-70 | Parsing fails exactly when some item raises: its text is `None` (TypeError), or it does not parse and the DocSum `Id` is not an integer. |
| ESummary.ParseDatesOk | pubmedpy/esummary.py:62-76 | On success, a pair is collected exactly when some item parses to it. There are at most as many pairs as items. |
| ESummary.SkipUnparsed | pubmedpy/esummary.py:64-70 | An item whose text does not parse is skipped with a warning. |
| ESummary.ParseDatesSnoc | pubmedpy/esummary.py:62-76 | Collecting one more item appends its pair or skips it. |
| ESummary.DedupProperties | pubmedpy/esummary.py:72-76 | The `seen` set keeps each pair once and keeps every pair that occurs. |
| ESummary.DedupSnoc | pubmedpy/esummary.py:72-76 | A pair already seen is dropped; a new one is appended. |
| ESummary.WithNameAppend | pubmedpy/esummary.py:77-79 | The pairs of one name in a concatenation are those of each part, in order. |
| ESummary.WithNameNone | pubmedpy/esummary.py:79 | No pair of that name gives an empty group. |
| ESummary.InsertSorted | pubmedpy/esummary.py:77 | Inserting into a list sorted by name keeps it sorted. |
| ESummary.InsertMultiset | pubmedpy/esummary.py:77 | Inserting adds exactly the one pair: the result is a permutation of the list plus it. |
| ESummary.InsertWithName | pubmedpy/esummary.py:77 | Insertion goes after the pairs of the same name. |
| ESummary.SortByNameSorted | pubmedpy/esummary.py:77 | `sort(key=name)` gives a list sorted by name. |
| ESummary.SortByNamePermutation | pubmedpy/esummary.py:77 | `sort(key=name)` gives a permutation of its input. |
| ESummary.SortByNameStable | pubmedpy/esummary.py:77 | The sort is stable: the pairs of each name keep their relative order. |
| ESummary.HistoryKey | pubmedpy/esummary.py:81 | `f"{name}_{i}"` ends in a digit. |
| ESummary.HistoryKeyInjective | pubmedpy/esummary.py:81 | Different name/index pairs give different keys. |
| ESummary.HistoryEntries | pubmedpy/esummary.py:78-81 | One entry per pair, in order. |
| ESummary.RunIndexInSorted | pubmedpy/esummary.py:79-80 | In a sorted list, the `enumerate` index grows by one along a run of equal names. |
| ESummary.RunIndexCounts | pubmedpy/esummary.py:79-80 | A pair's index is the number of earlier pairs with the same name. |
| ESummary.HistoryKeysDiffer | pubmedpy/esummary.py:79-81 | Two positions of a sorted list get different keys. |
| ESummary.HistoryKeysDistinct | pubmedpy/esummary.py:78-81 | No history key is written twice. |
| ESummary.RunIndexRank | pubmedpy/esummary.py:79-81 | `name_i` holds the i-th pair of that name in sorted order. |
| ESummary.HistoryMeaning | pubmedpy/esummary.py:77-81 | For any pairs: the history has one distinct key per pair. Each entry `name_i` holds the i-th date with that name, in the original order. |
| ESummary.HistoryStep | pubmedpy/esummary.py:81 | Writing the next key extends the history by one entry. |
| ESummary.NumberRuns | pubmedpy/esummary.py:78-81 | The `groupby`/`enumerate` loops build exactly the numbered entries. |
| ESummary.ParseEsummaryHistory | pubmedpy/esummary.py:55-82 | The loop, the `seen` set, the sort and the numbering compute the history specification. |
| ESummary.Earliest | pubmedpy/esummary.py:100-103 | `min(dates)` is one of the dates and is ≤ all of them. |
| ESummary.ParseEsummaryPubdates | pubmedpy/esummary.py:85-104 | The loop over ("pub", "epub") computes the pub-dates specification. |
| ESummary.PubdatesValue | pubmedpy/esummary.py:89-104 | On success, both texts were present. The record is the parsed pub and epub entries, followed by `published` when there is one. |
| ESummary.PubdateRecordMeaning | pubmedpy/esummary.py:93-104 | Over parsed dates: `pub` and `epub` hold their dates when present. `published` is present exactly when one of them is, equals one of them, and is ≤ both. |
| ESummary.PubdatesMeaning | pubmedpy/esummary.py:89-104 | `pub` and `epub` hold the parsed dates when they parse. `published` is present exactly when one of them is, equals one of them, and is ≤ both. |
| ESummary.PubdatesErr | pubmedpy/esummary.py:92-99 | A pub-dates parse fails exactly when a text is `None`, or a text does not parse and `Id` is not an integer. |
| ESummary.PubdatesKeys | pubmedpy/esummary.py:89-104 | The pub-date keys are distinct and among pub, epub, published. |
| ESummary.HistoryKeys | pubmedpy/esummary.py:78-81 | The history keys are distinct and end in a digit. |
| ESummary.FixedKeysNotHistory | pubmedpy/esummary.py:112-115 | No fixed key ends in a digit, so a history key never overwrites it. |
| ESummary.ArticleKeysDistinct | pubmedpy/esummary.py:111-117 | The article's keys are the fixed, pub-date and history keys, all distinct. |
| ESummary.ArticleUpdates | pubmedpy/esummary.py:115-117 | The two `update` calls only append. |
| ESummary.EsummaryKeys | pubmedpy/esummary.py:107-118 | A parsed article starts with pubmed_id and journal_nlm_id, then the pub dates, then the history, with distinct keys. |
| ESummary.ParseEsummary | pubmedpy/esummary.py:107-118 | The method computes the article specification. `int(Id)` failing is its error. |
| ESummary.ExtractArticlesFromEsummaries | pubmedpy/esummary.py:121-138 | It succeeds exactly when every DocSum parses, with one article per DocSum in order. Otherwise the error is that of a failing DocSum. |
| Names.ForeNameWords | pubmedpy/names.py:18-21 | There is one stripped word per whitespace-separated word of the name, once periods are made spaces. |
| Names.SimplifyForeName | pubmedpy/names.py:6-28 | The loop returns the first word that qualifies (lower-cased on request) or `None`. |
| Names.FirstQualifyingMeaning | pubmedpy/names.py:19-28 | The result is `None` exactly when no word qualifies. Otherwise it is the first qualifying word: longer than one character, and not an all-capitals word of at most three. |
| Names.ForeNameWordShape | pubmedpy/names.py:17-20 | Each stripped word has no whitespace and no period, and does not start or end with punctuation. |
| Names.LowerShape | pubmedpy/names.py:24-25 | Lower-casing keeps that shape and leaves no capital. |
| Names.FirstQualifyingShape | pubmedpy/names.py:19-28 | The chosen word keeps the shape of the words. |
| Names.ForeNameShape | pubmedpy/names.py:6-28 | A returned fore name has at least two characters, no whitespace and no period, and does not start or end with punctuation. With `lower` it has no capital letter. |
| Names.ForeNameDaniel | pubmedpy/tests/test_names.py:7-24 | `' Daniel '` gives `Daniel`, or `daniel` with lower-casing. |
| Names.ForeNameChow | pubmedpy/tests/test_names.py:8-9 | `AB Chow` and `A.B. Chow` give `Chow`. |
| Names.ForeNameCapitals | pubmedpy/tests/test_names.py:11-26 | `LE` gives `None` (with or without lower-casing); `Le` gives `Le`. |
| Names.ForeNameNothing | pubmedpy/tests/test_names.py:13-28 | `None`, `''` and `' '` give `None`. |
| Names.ForeNamePunctuation | pubmedpy/tests/test_names.py:16-17 | `-` gives `None`; `-Rafeel!` gives `Rafeel`. |
| Names.ForeNameSeparator | pubmedpy/names.py:19 | `str.split()` also splits on characters outside `string.whitespace` that `str.isspace` accepts: `Ab`, the unit separator U+001F and `Cd` give `Ab`. |
| Names.ForeNameHyphen | pubmedpy/names.py:24-25 | `Mc-Winters` is kept, and is `mc-winters` with lower-casing. |
| Names.SimplifyLastName | pubmedpy/names.py:31-43 | A missing name gives `None`; a returned name is non-empty. |
| Names.LastNameMeaning | pubmedpy/names.py:37-43 | The result is `None` exactly when the name is only whitespace and punctuation. Otherwise it runs from the first to the last other character, lower-cased on request. |
| Names.LastNameTrimmed | pubmedpy/names.py:38 | A returned last name neither starts nor ends with whitespace or punctuation. |
| Xml.SelectOpener | pubmedpy/xml.py:10-28 | No encoding selects the built-in `open`. An encoding in the table selects that module. Any other raises KeyError. |
| Xml.SelectOpenerCases | pubmedpy/xml.py:10-14 | gzip, bzip2 and xz select gzip, bz2 and lzma; `compress` raises KeyError. |
| Xml.SelectOpenerInjective | pubmedpy/xml.py:10-14 | Different encodings select different modules. |
| Xml.Events | pubmedpy/xml.py:32 | The event stream starts with the root's start and ends with its end. |
| Xml.PostOrder | pubmedpy/xml.py:34 | Post-order ends with the element itself. |
| Xml.EndsAppend | pubmedpy/xml.py:34 | Filtering end events distributes over concatenation. |
| Xml.EndsOfEvents | pubmedpy/xml.py:32-34 | The end events of a document come in post-order: children before their parent. |
| Xml.IterparseXml | pubmedpy/xml.py:17-34 | The stream is the root, then every element in post-order. |
| Xml.IterExtractElems | pubmedpy/xml.py:37-50 | The run yields each element of the stream after the root whose tag matches, each followed by `root.clear()`, then one final `root.clear()`. |
| Xml.MatchingMembers | pubmedpy/xml.py:45-48 | An element is yielded exactly when it is in the stream and has the tag. |
| Xml.MatchingAppend | pubmedpy/xml.py:45-48 | The order of the stream is kept. |
| Xml.ExtractLogShape | pubmedpy/xml.py:45-49 | The k-th match is yielded at step 2k, and the root is cleared right after it. |
| Xml.RootYieldedLast | pubmedpy/xml.py:34-48 | A root with the tag is yielded last. |
| Xml.ChildPostOrderSplit | pubmedpy/xml.py:34 | A child's subtree is one contiguous block of the stream. |
| Xml.InnerBeforeOuter | pubmedpy/xml.py:34-48 | The matches inside a child come before a matching parent. |
| Xml.YieldEtreesFromZip | pubmedpy/xml.py:53-63 | Each member named `*.xml`, in list order, is paired with its parsed tree. |
| Xml.XmlMembersMeaning | pubmedpy/xml.py:58-60 | A member is read exactly when its name ends in `.xml`. |
| Xml.XmlMembersIdempotent | pubmedpy/xml.py:58-60 | Filtering twice is filtering once. |
| Text.StripMeaning | pubmedpy/names.py:19-38 | `str.strip(chars)` leaves nothing exactly when every character is in `chars`. Otherwise it leaves the span from the first to the last character outside `chars`. |
| Text.SplitKeepsText | pubmedpy/names.py:16 | `str.split()` loses exactly the whitespace. |
| Text.SplitChars | pubmedpy/names.py:16 | Every character of a word is a character of the string. |
| Text.LexLessTransitive | pubmedpy/efetch.py:52 | String order is transitive. |
| Text.LexLessTotal | pubmedpy/efetch.py:52 | String order is total. |
| Text.IntOf | pubmedpy/efetch.py:81-84 | `int(None)` raises TypeError; a non-numeral raises ValueError; a numeral gives its value. |
| Text.NatToStringValue | pubmedpy/esummary.py:81 | The decimal string of a number reads back to it. |
| Text.ZeroPadValue | pubmedpy/efetch.py:90-96 | Zero-padding a number, then reading the digits back, gives the number. |
| OrderedDict.PutProperties | pubmedpy/efetch.py:13-19 | Assigning a key sets its value and changes no other key. A new key goes at the end and an existing key keeps its place. |
| OrderedDict.UpdateFresh | pubmedpy/efetch.py:12 | Updating with keys not yet present appends them in order. |

## Left out

- HTTP (`requests.get`, `raise_for_status`), lxml parsing and serialisation, `tqdm` progress bars, `logging`, and `time.sleep` are outside the model. Responses are an oracle sequence, with one entry per request. A successful efetch/esummary response is its root tag plus the serialisations of its children. Sleeps are a recorded list of durations.
- The loops of `download_pubmed_ids` and `esearch_query` are bounded by the oracle: a run whose responses run out is reported as unfinished, not as a loop that never ends.
- `EUtilities.DownloadPubmedIds`: `retmax >= 1` and `retmin >= 1` are required. With `retmax = 0`, `range` raises ValueError. With `retmin = 0`, a failed single-ID batch is split into an empty batch, whose next failure raises IndexError in the log message. Neither path is modelled.
- The `except Exception` clause of `download_pubmed_ids` catches every failure of the request or the parse. The model has one failure outcome, whatever the exception.
- `time.sleep(error_sleep * successive_errors)` is recorded with real arithmetic, not floating point.
- Date parsing with `strptime` under the `C` locale (`parse_date_text`, `parse_pubdate_text`, `setlocale` and its lock) is a parameter of `ESummary`. A parser returns `None` where `strptime` raises ValueError.
- `ESummary.ParseEsummaryHistory`: the `Name` attribute of each history item is assumed present (`item.get("Name")` returning `None` is not modelled).
- `ESummary.ParseEsummaryHistory`: `date_pairs.sort` is modelled on values by a stable insertion sort; the in-place list update is not.
- `ESummary.ParseEsummaryPubdates`: `set(pubdates.values())` with `discard(None)` and `min` are modelled over the parsed dates. The parsers never return `None` as a date, so the discard has no effect.
- `ESummary.ExtractArticlesFromEsummaries` takes the `DocSum` elements as a parameter. `Xml.IterExtractElems` models how they are drawn from the file, and the `n_articles` progress bar is left out.
- `articles_to_dataframe` (pandas) is left out, and so are `pmc_oai.py` and `utils.py`.
- `mimetypes.guess_type` is left out. Its encoding is the parameter of `Xml.SelectOpener`, and the opened file itself is outside the model.
- `Xml.IterExtractElems`: `root.clear()` is recorded as an action. Its effect on the tree (freeing already-parsed elements) is not modelled, and the elements are values rather than shared objects. The generator is consumed to the end; a consumer that stops early is not modelled.
- `Xml.IterparseXml`: the document is a well-formed element tree, so a file the parser rejects is not modelled. Laziness of the generator is not modelled either: the stream is a sequence.
- `Xml.YieldEtreesFromZip`: `etree.parse` of a member is a function parameter.
- `Names.SimplifyForeName` and `Names.SimplifyLastName`: a value that is neither a string nor missing (`assert isinstance(name, str)`) is not modelled. `pandas.isna` is modelled as the absent value.
- `Text.Lower` and `Text.Upper` map ASCII letters only; Unicode case mapping (`str.lower`, `str.upper` on other letters) is not modelled.
- `Text.Space` is the fixed set of characters for which `str.isspace` holds (including U+001C to U+001F, U+0085, U+00A0 and the Unicode spaces and separators), as `str.split()` and `str.rstrip()` use them; `Text.Whitespace` is `string.whitespace`, as `str.strip(string.whitespace + string.punctuation)` uses it.
- `EUtilities.EsearchQuery`: the caller's `payload` dictionary is updated in place (`rettype`, `retmax` and the last `retstart` remain set in it after the call). The model returns the `retstart` values sent instead, and the other request parameters are not modelled. The `tqdm` progress bar is left out.
- `Text.IntOf`: `int()` also accepts surrounding whitespace, a sign and underscores between digits. The model accepts only a non-empty run of ASCII digits.
- `EFetch.DateStringReadsBack` is stated for years below 10000 and months and days below 100, the widths `%04d`/`%02d` fill exactly.
