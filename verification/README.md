# TED talk reconciliation, modelled in Dafny

This project models three small scripts that reconcile TED talk records with
YouTube records, and proves what they promise.

- **join-ted.py** reads two CSV files and keys each record by a normalised
  field: `headline` for TED and `Descrip` for YouTube, stripped and
  lower-cased. It builds one last-wins dictionary per file and logs how the two
  key sets overlap. It then writes a header and one merged row per key of the
  sorted union. TED values take precedence over YouTube values.
- **tosqlite.py** registers `edist`, a normalised Levenshtein score, as a
  query-time function on a fresh SQLite connection. It then loads a CSV stream
  into the table `ted`: the first record is the header. A first record whose
  fields join to "" makes SQLite reject the `create table` (see `Loader.Load`
  under "Left out"). It commits after every 1000th insert and once at the end. Last, it
  runs a `;`-separated script, counts the rows of its result table and closes
  the connection.
- **ytscrape/ytcrawl.py** pulls tag-bracketed sections out of crawled pages
  (`extract`). It filters the members of the crawl archive and counts the
  members it selected and the ones it processed.

Modules:

| file | module | models |
|---|---|---|
| `wrappers.dfy` | `Wrappers` | `Result`: a raised exception is a `Failure` |
| `text.dfy` | `Text` | Python's `str.strip`, `str.lower`, `str.find`, `in`, `str.split` and `str.join`, on ASCII |
| `ordering.dfy` | `Ordering` | Python's `<` on `str` and `sorted(set(...))` |
| `join_ted.dfy` | `JoinTed` | `main` of join-ted.py |
| `levenshtein.dfy` | `Levenshtein` | `edit_distance` of tosqlite.py |
| `loader.dfy` | `Loader` | `main` of tosqlite.py, against a database that records what it is asked to do |
| `ytcrawl.dfy` | `YtCrawl` | `extract`, `process` and the loop of `main` in ytcrawl.py |

Modelling choices:

- **Text.** A CSV record is a `map<string, string>`, or a `seq<string>` for the
  plain reader. Strings are sequences of characters.
  - `strip()` removes ASCII whitespace: characters 9–13 and 28–32.
  - `lower()` maps `A`–`Z` only.
- **Store.** The database is a `Store` object. Its `log` field lists, in order,
  the `create_function`, `execute`, `commit`, `fetchone` and `close` calls made
  on the connection and its cursor.
- **Errors.**
  - A missing key field raises `KeyError` in join-ted.py. Here it is a
    `Failure` naming the field and the first record without it.
  - In `extract`, a missing end tag is a `Failure` too, and so are the
    decoding error, the two `assert`s and the `TypeError`s of `process`.
- **The `edist` score.** The score is an exact `real`. The dynamic programme
  is proved against `Lev`, the recursive definition of the distance on string
  prefixes, through an index-based table `Table`.

Behaviour of the code worth noting:

- The loader does not check a record's field count against the header; the
  row is handed to the insert as it is.
- The loader takes a new header while `headers` is falsy, and both `None`
  and `""` are. After a record whose fields join to "" (an empty record, or
  one empty field), `if not headers` would take the next record as the
  header, but SQLite rejects `create table ted ()` first; see `Loader.Load`
  under "Left out".
- The script runner skips empty pieces and does nothing else with the
  statements; a failing statement is the database's affair.
- The output header of join-ted.py has 15 names: there is no comma after
  `"time_str"`, so Python joins it with `"duration"` into
  `"time_strduration"`. Each data row has 16 values. The model keeps this.

## Model

| member | source | states |
|---|---|---|
| Text.Strip | ytscrape/ytcrawl.py:39 | `strip()`: the result has no whitespace at either end and is no longer than the input |
| Text.StripParts | ytscrape/ytcrawl.py:39 | the input is the stripped text with a run of whitespace on either side |
| Text.StripIgnoresSurroundingSpace | tosqlite.py:25-26 | whitespace added around a string does not change what `strip()` returns |
| Text.StripIdempotent | tosqlite.py:25-26 | stripping twice is stripping once |
| Text.StripLower | join-ted.py:55 | `s.strip().lower() == s.lower().strip()` |
| Text.Lower | join-ted.py:55 | `lower()` keeps the length and maps each character on its own |
| Text.LowerIdempotent | join-ted.py:55 | lower-casing twice is lower-casing once |
| Text.Normalize | join-ted.py:55 | the join key `strip().lower()` has no surrounding whitespace and no upper-case letter |
| Text.NormalizeIdempotent | join-ted.py:55 | normalising a key again leaves it unchanged |
| Text.NormalizeIgnoresCaseAndSpace | join-ted.py:63 | two fields that differ only in letter case and surrounding whitespace give the same key |
| Text.Find | ytscrape/ytcrawl.py:33 | `find` returns -1 or an index at or after `from` where the pattern fits |
| Text.FindSpec | ytscrape/ytcrawl.py:36 | `find` returns the first occurrence at or after `from`, or -1 exactly when there is none |
| Text.Contains | ytscrape/ytcrawl.py:89 | `t in s` holds exactly when `t` occurs somewhere in `s` |
| Text.Split | tosqlite.py:91 | `split(';')` gives at least one piece and no piece contains `;` |
| Text.JoinSplit | tosqlite.py:91 | joining the pieces of a split with the separator gives the text back |
| Text.SplitJoin | tosqlite.py:91 | splitting a join of separator-free pieces gives the pieces back |
| Ordering.LessTotal | join-ted.py:102 | two different strings are ordered one way or the other |
| Ordering.LessTransitive | join-ted.py:102 | the string order is transitive |
| Ordering.SortedSet | join-ted.py:102 | `sorted(set(xs))` ascends strictly and holds exactly the elements of `xs` |
| Ordering.SortedUnique | join-ted.py:102 | a set has one strictly ascending listing, so the union is sorted the same way however it was formed |
| JoinTed.DictOfLastWins | join-ted.py:54-57 | a key is in `dict(pairs)` exactly when some pair has it, and it maps to the value of the last such pair |
| JoinTed.XrefLastWins | join-ted.py:54-57 | a key is in the cross-reference exactly when some record has it, and it maps to the last record in input order with that key |
| JoinTed.XrefKeyField | join-ted.py:62-65 | every cross-reference value has the key field, and that field normalises back to the key it is filed under |
| JoinTed.BuildXref | join-ted.py:54-57 | it fails exactly when some record lacks the field, naming the first such record; otherwise it returns the last-wins map |
| JoinTed.Stats | join-ted.py:68-77 | the matched, TED-only and YouTube-only counts partition the key union, and matched plus one-sided gives each file's key count |
| JoinTed.MergedRow | join-ted.py:105-122 | the row handed to `writerow` for one TED record and one YouTube record (either may be `{}`); its properties are stated by `RowPrecedence`, `RowOneSided` and `Values` |
| JoinTed.RowFor | join-ted.py:103-105 | the row of key `k`: `get(k, {})` on both dicts, then `MergedRow`; stated by `RowHeadline`, `RowPrecedence` and `RowOneSided` |
| JoinTed.Values | join-ted.py:105-122 | a data row has 16 values, one more than the header has names |
| JoinTed.UnionKeysAre | join-ted.py:102 | the keys written ascend strictly and are exactly the union of both dicts' keys, one per distinct key |
| JoinTed.RowsAt | join-ted.py:102-122 | row `i` is the merged row of key `i` |
| JoinTed.WriteRows | join-ted.py:102-122 | the writing loop produces one merged row per key, in key order |
| JoinTed.Merge | join-ted.py:54-122 | the result of `main`: it succeeds exactly when every record of each file has its key field, and otherwise fails naming the TED field when a TED record lacks it, else the YouTube field; `MergeShape`, `MergeRowAt`, `MergeRowsAscend` and `MergeKeyHasRow` state what a success holds |
| JoinTed.Join | join-ted.py:54-122 | `main` builds both dicts, computes the statistics, writes the header and then the rows, or fails on the first missing key field |
| JoinTed.MergeFailsOnMissingField | join-ted.py:55 | a record without `headline` or `Descrip` is an error, not a skipped row; the TED file fails first |
| JoinTed.MergeShape | join-ted.py:81-102 | the header is written first and has 15 names (names 10 and 11 fused as "time_strduration"); there is one row per key of the union; the statistics sum to the union's size |
| JoinTed.MergeRowAt | join-ted.py:102-108 | row `i` belongs to the `i`-th union key; that key is its `headline` normalised, lies in one of the dicts, and the row is that key's merged row |
| JoinTed.MergeRowsAscend | join-ted.py:102 | the rows' keys strictly ascend, so no key is written twice |
| JoinTed.MergeKeyHasRow | join-ted.py:102 | every key of either dict has a row |
| JoinTed.RowHeadline | join-ted.py:108 | the `headline` value of a merged row normalises back to its key |
| JoinTed.RowPrecedence | join-ted.py:107-108 | for a key in the TED dict, `speaker` and `headline` come from the TED record; otherwise they come from YouTube's `Speaker` and `Descrip` |
| JoinTed.RowOneSided | join-ted.py:103-121 | a TED-only key leaves the YouTube columns empty, and a YouTube-only key leaves every TED column empty |
| Levenshtein.Min3 | tosqlite.py:42 | `min` of three: no more than any argument, and equal to one of them |
| Levenshtein.LevSym | tosqlite.py:30-31 | the distance does not depend on the argument order, so the swap does not change it |
| Levenshtein.LevBounds | tosqlite.py:22-23 | the distance lies between the length difference and the longer length |
| Levenshtein.LevZeroIff | tosqlite.py:16-20 | the distance is 0 exactly for equal strings |
| Levenshtein.TableIsLev | tosqlite.py:35-43 | cell `(i, j)` of the table is the distance of the first `i` and first `j` characters |
| Levenshtein.NextRow | tosqlite.py:37-42 | the inner loop turns row `i` of the table into row `i + 1`, of length `len(s2) + 1` |
| Levenshtein.Distance | tosqlite.py:35-45 | after the outer loop, `previous_row[-1]` is the distance of the two strings |
| Levenshtein.Ratio | tosqlite.py:33 | `x / z` lies in [0, 1]; it is 0 exactly when `x` is 0 and 1 exactly when `x == z` |
| Levenshtein.Score | tosqlite.py:16-45 | the score lies in [0, 1] and is 0 exactly when the normalised strings are equal |
| Levenshtein.EditDistance | tosqlite.py:16-45 | `edit_distance` computes `Score`, through the empty-string shortcuts, the swap and the row-by-row table |
| Levenshtein.ScoreSymmetric | tosqlite.py:30-31 | `edit_distance(a, b) == edit_distance(b, a)` |
| Levenshtein.ScoreNormalized | tosqlite.py:25-26 | the score depends only on the normalised strings |
| Levenshtein.ScoreSame | tosqlite.py:25-28 | a value against the same text in another letter case, even with other surrounding whitespace, scores 0.0 |
| Levenshtein.ScoreOneBlank | tosqlite.py:32-33 | when exactly one side is blank after normalising, the score is 1.0 |
| Loader.Store.constructor | tosqlite.py:57 | a fresh connection has done nothing yet |
| Loader.Store.CreateFunctionOn | tosqlite.py:58 | registering a function appends one action to the log and changes nothing else |
| Loader.Store.ExecuteOn | tosqlite.py:68 | `execute` appends one action to the log and changes nothing else |
| Loader.Store.CommitOn | tosqlite.py:70 | `commit` appends one action to the log and changes nothing else |
| Loader.HeaderText | tosqlite.py:67 | `','.join(rec)` is "" exactly for an empty record or a single empty field |
| Loader.Step | tosqlite.py:65-83 | one pass of the loop: once set, the header and the placeholder width never change; the count grows by at most one; one or two actions are issued (`StepPending`, `StepInserts` and `StepBatched` state the rest) |
| Loader.Run | tosqlite.py:61-83 | the loop over all records, one `Step` per record; its properties are stated by `LoadFinalState` (the count is the number of records after the header record), `LoadInserts` and `BatchCommits` |
| Loader.LoadRecord | tosqlite.py:66-82 | one pass of the loop on the store: it issues exactly the actions of `Step` and returns its new variables |
| Loader.Load | tosqlite.py:61-84 | the loop and the final commit issue exactly the actions of `LoadLog`, and return the count of `Run` |
| Loader.HeaderTextEmpty | tosqlite.py:66-67 | `','.join(rec)` is empty exactly for an empty record or a single empty field; only those leave `headers` falsy |
| Loader.HeaderIndex | tosqlite.py:66 | the header record is the first whose joined text is not empty |
| Loader.LoadFinalState | tosqlite.py:65-79 | after the loop the header is that record joined with commas, the insert has one placeholder per header field, and `count` is the number of later records; with no such record nothing is counted |
| Loader.LoadInserts | tosqlite.py:65-79 | the rows inserted are exactly the records after the header record, in order; the header is not inserted |
| Loader.LoadInsertStatement | tosqlite.py:72-78 | every insert uses the header columns and one placeholder per header field |
| Loader.StepPending | tosqlite.py:78-81 | one pass of the loop leaves no uncommitted insert when it creates the table or reaches a multiple of 1000, and one more otherwise |
| Loader.BatchCommits | tosqlite.py:80-83 | the uncommitted inserts after the loop are `count % 1000`, so a commit follows every 1000th insert; after the final commit none is uncommitted |
| Loader.Statements | tosqlite.py:91-94 | every statement run is a non-empty piece of the script |
| Loader.Executes | tosqlite.py:94 | one `execute` per statement |
| Loader.ExecutePieces | tosqlite.py:91-94 | the loop executes the non-empty pieces in order and skips the empty ones |
| Loader.RunScript | tosqlite.py:89-95 | the script is stripped, split at `;`, its non-empty pieces executed in order, then committed once |
| Loader.Store.FetchOneOn | tosqlite.py:98 | `fetchone` appends one action to the log and changes nothing else |
| Loader.Store.CloseOn | tosqlite.py:100 | `close` appends one action to the log and changes nothing else |
| Loader.Ingest | tosqlite.py:57-100 | `main` on a fresh database: register `edist` with 2 arguments, load, run the script, run the count query, fetch its row, close |
| Loader.StatementsComplete | tosqlite.py:91-94 | every non-empty piece is executed |
| Loader.ScriptStatementsArePieces | tosqlite.py:89-94 | the pieces join back to the stripped script; the statements are exactly its non-empty pieces, none containing `;` |
| Loader.ScriptSingle | tosqlite.py:89-94 | a non-blank script without `;` runs as a single statement, its stripped text |
| YtCrawl.Extract | ytscrape/ytcrawl.py:31-39 | a success has no surrounding whitespace; the only failure is the missing end tag, naming both tags |
| YtCrawl.ExtractNoStart | ytscrape/ytcrawl.py:33-35 | without the start tag the result is "" |
| YtCrawl.ExtractMissingEnd | ytscrape/ytcrawl.py:36-38 | when the start tag occurs but the end tag does not occur at or after its end, `extract` raises |
| YtCrawl.ExtractBetween | ytscrape/ytcrawl.py:36-39 | otherwise the result is the stripped text between the end of the first start tag and the first end tag after it |
| YtCrawl.ExtractSubstring | ytscrape/ytcrawl.py:39 | the result is the text between the tags with only whitespace cut from either end |
| YtCrawl.ExtractRoundTrip | ytscrape/ytcrawl.py:31-39 | a body wrapped in the tags, with the start tag first found right after `pre` and the end tag first found right after the body, is extracted as the stripped body, whatever follows |
| YtCrawl.Process | ytscrape/ytcrawl.py:47-50 | `process` returns False exactly when `extract` found a non-empty error message |
| YtCrawl.ProcessTrue | ytscrape/ytcrawl.py:47-76 | `process` returns True exactly when there is no error message, the statistics decode to a truthy object, the brag-bar HTML is non-empty and every cell the brag-bar loop inspects has a class |
| YtCrawl.ProcessFails | ytscrape/ytcrawl.py:47-76 | an exception escapes `process` exactly when the error-message tags are broken, or there is no error message and the member is not accepted |
| YtCrawl.ProcessNoGraph | ytscrape/ytcrawl.py:52 | without an error message and without the graph tag, `json.loads("")` raises |
| YtCrawl.Selected | ytscrape/ytcrawl.py:87-90 | the member filter: a regular file of size at least 1, not named `key.done` or `log`, whose name contains "data/"; `SkipNamesRedundant` and `Visit` state its properties |
| YtCrawl.SkipNamesOutsideData | ytscrape/ytcrawl.py:81 | neither skipped name contains "data/" |
| YtCrawl.SkipNamesRedundant | ytscrape/ytcrawl.py:87-90 | a member is selected exactly when it is a file of size at least 1 whose name contains "data/"; the skip list changes nothing |
| YtCrawl.CountSelected | ytscrape/ytcrawl.py:87-92 | no more members are selected than the archive holds |
| YtCrawl.Visit | ytscrape/ytcrawl.py:87-94 | one pass counts a member exactly when it is selected, adds at most one to `processed`, and fails exactly when a selected member fails `process` |
| YtCrawl.Tally | ytscrape/ytcrawl.py:83-94 | when the loop finishes, `count` is the number of selected members and `processed <= count` |
| YtCrawl.Crawl | ytscrape/ytcrawl.py:83-94 | the loop returns the counters of `Tally`, or the first error escaping `process` |
| YtCrawl.TallyFailureSticks | ytscrape/ytcrawl.py:93 | once an error escapes, the later members change nothing |
| YtCrawl.TallySucceeds | ytscrape/ytcrawl.py:86-94 | the loop completes exactly when every selected member gets through `process`, and then `processed` counts the members it accepted |
| YtCrawl.TallyFirstError | ytscrape/ytcrawl.py:93 | the loop fails with the error of the first selected member that fails `process` |
| YtCrawl.ProcessedBounded | ytscrape/ytcrawl.py:83-94 | after any prefix of the archive, `processed <= count <=` the number of members seen |
| YtCrawl.CountClean | ytscrape/ytcrawl.py:47-50 | the selected members without an error message are no more than the selected members |
| YtCrawl.ProcessedAreClean | ytscrape/ytcrawl.py:47-76 | when every selected member gets through `process`, it returns True for exactly those without an error message |
| YtCrawl.CrawlOutcome | ytscrape/ytcrawl.py:42-94 | with the program's `process`, the loop completes exactly when every selected member has well-formed error-message tags and, without an error message, is accepted; then `count` is the number selected and `processed` the number of those without an error message |

## Left out

- File and stream handling is not modelled. That covers argument parsing,
  opening files, `os.remove`, stderr logging, printing and the tar archive.
  Inputs are given as sequences.
- CSV parsing and writing are not modelled, including `QUOTE_NONNUMERIC`.
  - A record is a map or a sequence of strings.
  - A data row is the `Row` value handed to the writer.
  - `ted.get("speaker", yt.get("Speaker"))` can yield `None`, which the
    writer turns into an empty field; the model uses "" for it.
- SQL statements are not rendered to text.
  - The `create table` and `insert` statements are kept as their column text
    and placeholder count.
  - The database's own behaviour is not modelled: tables, transactions,
    statement errors, the contents of `matching_speakers.sql`, and the result
    of the count query.
- `strip()` and `lower()` are modelled on ASCII only, not on full Unicode.
- `str(s1)` of a value that is not a string is not modelled. `edist` is given
  strings.
- Levenshtein.Score: the float score is an exact `real`, not an IEEE double.
- Loader.Load: a record whose fields join to "" makes the program execute
  `create table ted ()`, which SQLite rejects, so the run stops there. The
  model's store accepts every statement, so the model goes on and takes the
  next record as a header candidate.
- Loader.Ingest: the row `fetchone()` returns is not modelled; the log
  records only that it was fetched.
- YtCrawl.Process: `json.loads` is a parameter `decode`. It classifies a
  non-empty statistics text as invalid, falsy, a truthy object or another
  truthy value; the empty text always fails to decode. The BeautifulSoup parse
  is a parameter `classless`: whether the brag bar has a cell the loop
  inspects without a `class` attribute. These are not modelled:
  - the brag-bar labels and values collected;
  - the `ALL_BRAG_BAR` set;
  - the printed JSON;
  - `str(reader.read()).strip()`: in the program `data` is the `b'...'` repr
    of the member's bytes, so it starts with `b'` and a newline reaches
    `extract` as the two characters `\n` (a non-ASCII byte as `\xNN`). The
    model's `data` is the text `extract` sees, whatever produced it; the
    repr itself is not modelled.
- YtCrawl.Crawl: the loop is proved for any `process` function.
  `CrawlOutcome` states what it does with `ProcessWith`, the function the
  program passes.
- YtCrawl.ExtractRoundTrip: the condition on the body is stated as "the end
  tag is first found right after the body". The weaker "the end tag does not
  occur in the body" is not enough. For example, with end tag `aa` and body
  `a`, the first `aa` starts inside the body and the result is "".
