# Hit-level data pipeline: data-quality check, splitter and revenue attribution

This project is a Dafny model of the two AWS Lambda functions that carry the logic of the
hit-level data pipeline, with proofs of what each step promises.

- **Upload Lambda** (`dq_check_split_file.py`).
  - It receives an object-created event for a tab-separated hit-level file.
  - It checks the object's content type and the file's header columns, building a status message as it goes.
  - Only when both checks pass does it split the file:
    - it projects the rows onto the analysis columns;
    - it expands `product_list` on `;` into named sub-fields;
    - it cuts the rows into five ordered chunks the way `np.array_split` does;
    - it writes each chunk as `<today>/<base>_<i>.tsv`;
    - it writes the `<today>/Success.json` marker last.
  - It then publishes the message to an SNS topic.
- **Aggregation Lambda** (`process_parsed_output.py`).
  - It receives an SQS message naming a batch and derives the batch prefix from the marker path.
  - It computes the revenue report (`revenue_calc`):
    - it parses every referrer into a netloc and `&`-separated query parameters;
    - it derives the search engine domain and the search keyword;
    - it sorts the hits by `(ip, date_time)`;
    - it scans them, carrying the most recent domain and keyword forward;
    - it emits one record per purchase;
    - it groups the records by `(domain, keyword)`, sums them and orders the groups by descending revenue.
  - It writes the report to `<prefix>/<today><final_output_file_name>`.
  - It deletes the queue message.

The modules follow the program's structure:

| file | module | what it holds |
|---|---|---|
| `wrappers.dfy` | `Wrappers` | `Option` and `Result` |
| `text.dfy` | `Text` | the Python string operations the code uses (`split`, `'sep'.join`, `strip`, `rsplit`, `replace`, `lower`, `in`, `str(int)`, string ordering) |
| `storage.dfy` | `Storage` | S3 bucket, SNS topic and SQS queue as classes with the state they hold, plus the Lambda response |
| `dq_checks.dfy` | `DqChecks` | `check_file_format`, `check_file_columns` |
| `splitter.dfy` | `Splitter` | `transform_split_files`: projection, `product_list` expansion, `np.array_split`, key naming, the write loop |
| `dq_handler.dfy` | `DqHandler` | the upload Lambda's `lambda_handler` |
| `url_parse.dfy` | `UrlParse` | `urlparse` reduced to `scheme://netloc/path?query#fragment`, `url_parse`, and the derived search columns |
| `attribution.dfy` | `Attribution` | `revenue_calc`: derivation, sort, carry-forward scan, group-sum-sort |
| `aggregator.dfy` | `Aggregator` | the aggregation Lambda's `lambda_handler`, the batch prefix and the report key |

The model follows the code as written. Four of its behaviours are worth knowing:

- **Failed aggregation.** A failed aggregation still acknowledges its message.
  - `lambda_handler` swallows the exceptions of `read_files_s3`, `revenue_calc`, `write_to_s3` and `delete_sqs_msg`.
  - It then deletes the message and returns 200.
  - `Aggregator.LambdaHandler` states exactly that.
- **Search engine domain.** The domain is everything after the *first* `.` of the netloc (`split('.', 1)[-1]`), not a registered-domain computation.
- **Purchase test.** A purchase is a row whose `event_list` equals the number `1`, with a non-null `total_revenue`.
- **Column check.** The check inspects only the first expected column name, because the loop returns on its first iteration.
  - It is modelled as written.
  - `DqChecks.ColumnsOkMissingSecondName` exhibits a header that passes while the second expected name is missing.

## Model

| member | source | states |
|---|---|---|
| Text.Split | dq_check_split_file.py:103 | `str.split(c)` yields at least one piece and no piece contains the separator |
| Text.SplitJoin | dq_check_split_file.py:103 | joining the pieces of a split with the separator gives back the string |
| Text.Join | dq_check_split_file.py:103 | `c.join(parts)` starts with the first part, followed by the separator when there are more; `SplitJoin` and `JoinSplit` prove it is the inverse of `Split` |
| Text.JoinSplit | process_parsed_output.py:94 | splitting a join of separator-free pieces gives back the pieces |
| Text.NoSeparator | dq_check_split_file.py:145 | a string without the separator splits into itself alone |
| Text.SplitAfterPiece | dq_check_split_file.py:103 | a separator-free head followed by the separator splits off as the first piece |
| Text.FirstPiece | dq_check_split_file.py:103 | the first piece is the prefix up to the first separator, or the whole string |
| Text.JoinLast | process_parsed_output.py:94 | a join of two or more pieces ends with separator plus last piece |
| Text.LastPiece | process_parsed_output.py:69 | `split(c)[-1]` holds no separator: it is the whole string without one, otherwise a strictly shorter suffix after a separator |
| Text.SplitLastPiece | process_parsed_output.py:69 | the last piece of `a + c + b` with `b` separator-free is `b` |
| Text.IndexOf | process_parsed_output.py:68 | the index of the first occurrence of a character |
| Text.AfterFirst | process_parsed_output.py:68 | `split(c, 1)[-1]`: the text after the first separator, or the whole string |
| Text.LastIndexOf | process_parsed_output.py:39 | the index of the last occurrence of a character |
| Text.BeforeLast | process_parsed_output.py:39 | `rsplit(c, 1)[0]`: the text before the last separator, or the whole string |
| Text.LastIndexOfConcat | process_parsed_output.py:39 | in `a + c + b` with `b` free of `c`, the last `c` is at the index just past `a` |
| Text.BeforeLastConcat | process_parsed_output.py:39 | `rsplit(c, 1)[0]` of `a + c + b` with `b` free of `c` is `a` |
| Text.StripLeft | process_parsed_output.py:94 | `lstrip(c)`: a suffix; everything removed is `c`; it does not start with `c` |
| Text.StripRight | process_parsed_output.py:94 | `rstrip(c)`: a prefix; everything removed is `c`; it does not end with `c` |
| Text.StripSlice | process_parsed_output.py:94 | `strip(c)` is a slice that removes only `c` at both ends and neither starts nor ends with `c` |
| Text.Strip | process_parsed_output.py:94 | `strip(c)` is no longer than the string and, when non-empty, neither starts nor ends with `c` |
| Text.ReplaceChar | process_parsed_output.py:70 | `replace` of one character keeps the length |
| Text.ReplaceCharAt | process_parsed_output.py:70 | every occurrence of `a` becomes `b`; every other character is kept |
| Text.Lower | process_parsed_output.py:71 | `lower` keeps the length |
| Text.LowerAt | process_parsed_output.py:71 | `lower` maps each character on its own |
| Text.Contains | process_parsed_output.py:67 | substring `in`, defined by trying each suffix; `ContainsAt` states its positional meaning |
| Text.ContainsAt | process_parsed_output.py:67 | substring `in` holds exactly when the pattern occurs at some position |
| Text.NatToString | dq_check_split_file.py:155 | `str(n)` is a non-empty string of decimal digits |
| Text.ParseNatToString | dq_check_split_file.py:155 | `str(n)` reads back as `n` |
| Text.NatToStringInjective | dq_check_split_file.py:155 | distinct numbers have distinct decimal strings |
| Text.LexLeTotal | process_parsed_output.py:72 | string ordering is total |
| Text.LexLeTrans | process_parsed_output.py:72 | string ordering is transitive |
| Text.LexLeAntisym | process_parsed_output.py:72 | string ordering is antisymmetric |
| Storage.ApplyWritesAt | dq_check_split_file.py:155 | after a sequence of puts, a key holds its last write's value, or its old value if never written |
| Storage.KeysOf | dq_check_split_file.py:155 | the keys of a write sequence, in write order |
| Storage.Accepted | dq_check_split_file.py:152-156 | the puts that happen before the first refused one: all accepted; the next one, if any, is refused |
| Storage.Bucket.Put | dq_check_split_file.py:155 | a put stores the value and logs the key unless the store refuses the key, which changes nothing |
| Storage.Topic.Publish | dq_check_split_file.py:123-126 | publishing appends the message to the topic |
| Storage.Queue.Delete | process_parsed_output.py:137-140 | deleting removes the receipt handle from the in-flight set |
| DqChecks.CheckFileFormat | dq_check_split_file.py:84-88 | true exactly when the content type equals the configured file type, no normalisation |
| DqChecks.HeaderFields | dq_check_split_file.py:102-103 | the header fields are the tab pieces of the text before the first newline |
| DqChecks.CheckFileColumns | dq_check_split_file.py:104-111 | a field-count mismatch gives false; with equal counts the result is whether the first expected name is a header field |
| DqChecks.ColumnsIgnoreLaterLines | dq_check_split_file.py:103 | lines after the first never change the column check |
| DqChecks.ColumnsOkMissingSecondName | dq_check_split_file.py:107-111 | a header with the first expected name but not the second passes the column check |
| Splitter.FirstMissing | dq_check_split_file.py:148 | the column a failed selection names is requested and absent |
| Splitter.Restrict | dq_check_split_file.py:148 | a projected row has exactly the selected columns |
| Splitter.Project | dq_check_split_file.py:148 | the selection succeeds exactly when every column exists, else fails naming a missing one; rows and their order are kept, each row holding exactly the selected columns with their values |
| Splitter.MaxPieces | dq_check_split_file.py:149 | the largest `;`-piece count of any row's `product_list` |
| Splitter.AssignColumn | dq_check_split_file.py:149 | assigning a column sets it in every row and appends it to the column list if new |
| Splitter.ExpandProductList | dq_check_split_file.py:149 | the expansion succeeds exactly when `product_list` exists and the widest row has as many pieces as there are sub-field names; the row count is kept |
| Splitter.SubFieldsOfRow | dq_check_split_file.py:149 | sub-field `j` of each row is the `j`-th `;`-piece of its `product_list`, NaN-padded; other columns are untouched |
| Splitter.SubFieldColumns | dq_check_split_file.py:149 | new sub-field names are appended after the existing columns, in order |
| Splitter.ChunkStartClosed | dq_check_split_file.py:152 | chunk `i` of `np.array_split` starts at `i*(R div n) + min(i, R mod n)` |
| Splitter.ChunkStartEnd | dq_check_split_file.py:152 | the last chunk ends at the last row |
| Splitter.ChunkStartMono | dq_check_split_file.py:152 | chunk boundaries are non-decreasing and within the rows |
| Splitter.ArraySplit | dq_check_split_file.py:152 | `np.array_split(rows, n)` yields `n` chunks |
| Splitter.ArraySplitSizes | dq_check_split_file.py:152 | the first `R mod n` chunks hold `R div n + 1` rows and the rest `R div n`; any two sizes differ by at most one |
| Splitter.ArraySplitAt | dq_check_split_file.py:152 | chunk `i` is the row slice between its boundaries |
| Splitter.FlattenPrefix | dq_check_split_file.py:152 | the first `k` chunks concatenate to the rows before chunk `k`'s start |
| Splitter.ArraySplitConcat | dq_check_split_file.py:152 | the chunks concatenated in order are the rows in order; the sizes sum to the row count |
| Splitter.HundredRowsInFives | dq_check_split_file.py:152 | 100 rows split into five chunks of 20 |
| Splitter.BaseName | dq_check_split_file.py:145 | `file_name.split('.')[0]`: the dot-free prefix up to the first `.` |
| Splitter.ChunkKeysDistinct | dq_check_split_file.py:155 | chunk keys with different numbers differ |
| Splitter.MarkerIsNotAChunk | dq_check_split_file.py:159 | the marker key differs from every chunk key |
| Splitter.ChunkKey | dq_check_split_file.py:155 | `<today>/<base>_<n>.tsv`; `ChunkKeyShape`, `ChunkKeysDistinct` and `MarkerIsNotAChunk` state its properties |
| Splitter.ChunkKeyShape | dq_check_split_file.py:155 | a chunk key is in the `<today>/` folder, continues with the base name and `_`, and ends in `.tsv` |
| Splitter.MarkerKey | dq_check_split_file.py:159 | `<today>/Success.json`; `MarkerKeyShape` states its shape |
| Splitter.MarkerKeyShape | dq_check_split_file.py:159 | the marker key is `Success.json` in the `<today>/` folder |
| Splitter.BatchWrites | dq_check_split_file.py:152-161 | one write per chunk, chunk `i` under `<today>/<base>_<i+1>.tsv`, then the `{"Result": "Success"}` marker last |
| Splitter.SplitWrites | dq_check_split_file.py:152-161 | a split makes six writes: five chunks and the marker |
| Splitter.SplitWritesDistinct | dq_check_split_file.py:155-161 | no two writes of a split share a key |
| Splitter.MarkerWrittenIffAll | dq_check_split_file.py:157-161 | the marker is among the writes done so far exactly when all writes are done |
| Splitter.ChunksReassemble | dq_check_split_file.py:148-155 | the written chunks' rows, in key order, are the expanded rows in order |
| Splitter.SplitPlan | dq_check_split_file.py:145-161 | a successful plan is six writes; `SplitPlanSteps` and `SplitPlanSucceeds` state its steps and when it succeeds |
| Splitter.SplitPlanSteps | dq_check_split_file.py:147-149 | a failed selection gives its error, then a failed expansion gives its error; otherwise the plan is the split's writes of the expanded frame |
| Splitter.SplitPlanSucceeds | dq_check_split_file.py:148-149 | the plan succeeds exactly when every analysis column exists, `product_list` is among them, and the widest `product_list` has one piece per sub-field name |
| Splitter.SuccessNoteReportsFive | dq_check_split_file.py:162 | after five chunks the note reads `Success! File has been split in 5 smaller files. Upload is complete.` |
| Splitter.WriteChunks | dq_check_split_file.py:150-156 | the chunk puts go through in order until the first refused one; the bucket holds exactly the accepted writes; the counter ends at chunks + 1 |
| Splitter.WriteBatch | dq_check_split_file.py:150-162 | the chunk writes then the marker go through in order up to the first refused one, which raises; when all succeed the message gains the note |
| Splitter.TransformSplitFiles | dq_check_split_file.py:132-166 | a failed plan writes nothing and raises; otherwise the writes go through in order up to the first refused one, which raises; when all succeed the message gains the note reporting 5 files |
| DqHandler.RunChecks | dq_check_split_file.py:46-62 | the message has one sentence per check, and `dq_flag` holds exactly when both checks pass |
| DqHandler.ChecksMessage | dq_check_split_file.py:48-62 | the message starts with `File format looks good. ` exactly when the format check passed and ends with `File columns look good. ` exactly when the column check passed |
| DqHandler.LambdaHandler | dq_check_split_file.py:46-69 | the split runs only when both checks pass; otherwise nothing is written and the checks message is published; a split that raises publishes nothing; on success the message with its note is published and 200 is returned |
| UrlParse.NetlocEnd | process_parsed_output.py:94 | the netloc ends at the first `/`, `?` or `#` after the `//` |
| UrlParse.AfterScheme | process_parsed_output.py:94 | what follows a valid scheme and its `:` is a suffix of the URL, the whole URL when it has no `:`; `SchemeComposed` gives it for `scheme://…` |
| UrlParse.SchemeComposed | process_parsed_output.py:94 | removing the scheme of `scheme://netloc…` leaves `//netloc…` |
| UrlParse.NetlocComposed | process_parsed_output.py:94 | `//netloc` followed by a delimiter parses to that netloc and the rest |
| UrlParse.QueryComposed | process_parsed_output.py:94 | the query of `path?query` is `query` when the path has no `?` or `#` |
| UrlParse.NetlocAndPath | process_parsed_output.py:94 | the netloc contains no `/`, `?` or `#` |
| UrlParse.QueryOf | process_parsed_output.py:94 | the query holds no `#` |
| UrlParse.SplitUrl | process_parsed_output.py:94 | the parsed netloc contains no `/`, `?` or `#`; the query holds no `#` |
| UrlParse.SplitComposedUrl | process_parsed_output.py:94 | parsing `scheme://netloc/path?query` gives back that netloc and query |
| UrlParse.UrlParseRow | process_parsed_output.py:93-94 | `url_parse`: the referrer's netloc, and at least one parameter, none containing `&`, joining back to the query stripped of `&` |
| UrlParse.EmptyQueryParams | process_parsed_output.py:94 | a query of only `&` (or empty) yields the single parameter `""` |
| UrlParse.NoQueryMark | process_parsed_output.py:94 | a URL without `?` has the empty query |
| UrlParse.SearchCompoundString | process_parsed_output.py:67 | the first parameter, in list order, containing `p=` or `q=`; `None` exactly when none does |
| UrlParse.SearchEngineDomain | process_parsed_output.py:68 | everything after the first `.` of the netloc, or the whole netloc without one |
| UrlParse.SearchKeyword | process_parsed_output.py:69-71 | null exactly when the compound string is null; the keyword holds no `=`, no `+` and no upper-case ASCII letter |
| UrlParse.KeywordOfParam | process_parsed_output.py:69-71 | the keyword of `name=value` is `value` with `+` turned into spaces, lower-cased |
| UrlParse.KeywordExample | process_parsed_output.py:69-71 | `q=Running+Shoes` gives `running shoes` |
| Attribution.DeriveColumns | process_parsed_output.py:66-71 | the derived columns exist exactly when every referrer is non-null; one derived row per hit, in order |
| Attribution.RowLeTotal | process_parsed_output.py:72 | the `(ip, date_time)` order is total |
| Attribution.RowLeTrans | process_parsed_output.py:72 | the `(ip, date_time)` order is transitive |
| Attribution.InsertRow | process_parsed_output.py:72 | inserting a row adds one element; `InsertRowElements` and `InsertRowSorted` give its contents and order |
| Attribution.SortRows | process_parsed_output.py:72 | `sort_values(by=['ip','date_time'])` keeps the row count; `SortRowsCorrect` proves it sorted and a permutation |
| Attribution.InsertRowElements | process_parsed_output.py:72 | inserting a row adds exactly that row |
| Attribution.InsertRowSorted | process_parsed_output.py:72 | inserting into a sorted list keeps it sorted |
| Attribution.SortRowsCorrect | process_parsed_output.py:72 | the sorted rows are in ascending `(ip, date_time)` order and are a permutation of the input |
| Attribution.SortRowsSortedInput | process_parsed_output.py:72 | already sorted rows are left as they are |
| Attribution.Carry | process_parsed_output.py:75-80 | the carried domain and keyword are the empty strings or those of some row with a keyword; `CarryMostRecent` pins which row |
| Attribution.Emitted | process_parsed_output.py:77-84 | the scan emits at most one record per row; `EmittedAt` and `EmittedRevenues` say which |
| Attribution.ScanRows | process_parsed_output.py:74-84 | the scan loop's output is exactly the records `Emitted` specifies |
| Attribution.CarryMostRecent | process_parsed_output.py:75-80 | the carried domain and keyword are those of the most recent row with a keyword, the current row included |
| Attribution.CarryInitial | process_parsed_output.py:75-76 | before any row with a keyword, the carried values are the empty strings |
| Attribution.EmittedPrefix | process_parsed_output.py:77-84 | the scan only appends: the output after a prefix of the rows is a prefix of the final output |
| Attribution.EmittedAt | process_parsed_output.py:81-84 | a qualifying row emits exactly one record, with the carried domain and keyword and its own revenue, right after the earlier rows' records |
| Attribution.EmittedRevenues | process_parsed_output.py:81-84 | the emitted revenues are exactly the revenues of the purchase rows, in scan order |
| Attribution.DistinctCons | process_parsed_output.py:86 | a list with a head has distinct keys exactly when the head's key is new and the tail's keys are distinct |
| Attribution.SumForAppend | process_parsed_output.py:86 | per-key sums add over concatenation |
| Attribution.SumAllAppend | process_parsed_output.py:86 | grand totals add over concatenation |
| Attribution.DistinctSumFor | process_parsed_output.py:86 | with distinct keys, a key's sum is its one entry's revenue |
| Attribution.AddRecord | process_parsed_output.py:86 | adding a record to the groups adds at most one entry; `AddRecordSums` and `AddRecordKeys` give its effect |
| Attribution.GroupSum | process_parsed_output.py:86 | `groupby(...).sum()` has no more entries than records; `GroupSumKeys` and `GroupSumSums` give its keys and sums |
| Attribution.AddRecordSums | process_parsed_output.py:86 | adding a record to the groups adds its revenue to its own key only, and to the total |
| Attribution.AddRecordKeys | process_parsed_output.py:86 | adding a record adds exactly its key to the group keys |
| Attribution.AddRecordDistinct | process_parsed_output.py:86 | adding a record keeps the group keys distinct |
| Attribution.GroupSumKeys | process_parsed_output.py:86 | `groupby` yields one entry per distinct key among the records |
| Attribution.GroupSumSums | process_parsed_output.py:86 | each key's group sum equals that key's revenue sum in the records; the total is kept |
| Attribution.InsertDescOrder | process_parsed_output.py:86 | inserting into a list of non-increasing revenues keeps it non-increasing |
| Attribution.InsertDescElements | process_parsed_output.py:86 | inserting adds exactly that entry |
| Attribution.InsertDesc | process_parsed_output.py:86 | inserting by revenue adds one element; `InsertDescOrder` and `InsertDescElements` give its order and contents |
| Attribution.SortDesc | process_parsed_output.py:86 | `sort_values(ascending=False)` keeps the entry count; `SortDescOrder` proves it ordered and a permutation |
| Attribution.SortDescOrder | process_parsed_output.py:86 | the descending sort is ordered by non-increasing revenue and is a permutation |
| Attribution.SortDescSums | process_parsed_output.py:86 | the descending sort keeps the keys, the per-key sums and the total |
| Attribution.SortDescDistinct | process_parsed_output.py:86 | the descending sort keeps keys distinct |
| Attribution.Report | process_parsed_output.py:86 | the final series is the grouped sums sorted descending; `ReportCorrect` states what it holds |
| Attribution.ReportCorrect | process_parsed_output.py:86 | one entry per distinct `(domain, keyword)`, each holding that key's revenue sum; non-increasing revenue; the grand total equals all emitted revenue |
| Attribution.RevenueReport | process_parsed_output.py:55-90 | `revenue_calc` returns nothing exactly when some referrer is null; an empty batch gives an empty report |
| Attribution.RevenueCalc | process_parsed_output.py:64-88 | the method computes `RevenueReport`: derive, sort, scan, group-sum-sort |
| Attribution.ScanExample | process_parsed_output.py:74-84 | a search, two purchases, a second search and a third purchase emit records under the keyword current at each purchase |
| Attribution.ReportExample | process_parsed_output.py:86 | those records group to `boots: 20`, `shoes: 15`, in that order |
| Attribution.AttributionExample | process_parsed_output.py:74-86 | the scan followed by the group-sum-sort of the same rows gives that report |
| Aggregator.BatchPrefix | process_parsed_output.py:39 | the file path up to its last `/` (followed by a `/`-free name), or the whole path without one |
| Aggregator.BatchPrefixOfPath | process_parsed_output.py:39 | the prefix of `dir/name` with a `/`-free name is `dir` |
| Aggregator.MarkerPrefix | process_parsed_output.py:39 | the batch prefix of a split's marker key is that split's date folder |
| Aggregator.ReportKey | process_parsed_output.py:122-124 | the report key is `prefix + '/' + today + final_output_file_name` |
| Aggregator.ReportKeysDistinct | process_parsed_output.py:122-124 | on one day, different prefixes give different report keys |
| Aggregator.BatchReport | process_parsed_output.py:43-44 | there is no report exactly when reading failed or some referrer is null; an empty batch gives an empty report |
| Aggregator.ComputeReport | process_parsed_output.py:43-44 | the report is `BatchReport` of what was read |
| Aggregator.LambdaHandler | process_parsed_output.py:34-52 | a missing attribute returns nothing and changes nothing; otherwise the report, when there is one, it is not empty and the bucket takes it, is written under the report key; the message is deleted; 200 is returned |

## Left out

- Splitter.ExpandProductList: the NaN padding of `str.split(expand=True)` is modelled. Two edge cases are approximated:
  - zero rows give width 0;
  - a NaN cell counts as one piece.

  pandas' exact result width in these cases is not modelled.
- Splitter.ExpandProductList: duplicate sub-field names are not modelled. `SubFieldsOfRow` assumes the names are distinct.
- CSV parsing, quoting and serialisation (`read_csv`, `to_csv`, `StringIO`) are not modelled.
  - The parsed frame is a parameter.
  - Chunk objects are stored as structured payloads, not as text.
- pandas dtype inference is not modelled.
  - `event_list` and `total_revenue` are taken as already-parsed integers (or NaN).
  - A textual `event_list` such as `"2,1"` never equals `1` in the source; the model does not represent that case.
- Attribution.SortDesc: the order of groups with equal revenue is one fixed choice. The source's tie order is not specified.
- Revenue is an integer. Floating-point sums and rounding are not modelled.
- UrlParse.SplitUrl: only `scheme://netloc/path?query#fragment` is modelled. Not modelled:
  - IPv6 brackets;
  - `;` parameters;
  - the removal of control characters and spaces;
  - scheme validation beyond the characters allowed.
- Text.Lower: only ASCII `A`–`Z` are lower-cased. Unicode case mapping is not modelled.
- `date.today()` is the parameter `today`, already formatted as `str(today)`.
- Logging is not modelled.
- `os.environ` reads are not modelled: the configured values are parameters (`Config`, `outputName`).
- `s3_client.get_object` is reduced to its content type and body text, which are parameters.
- SNS publish and SQS delete are assumed to succeed.
- Aggregator.LambdaHandler: `read` stands for what `read_files_s3` returns. The model does not describe which objects it reads. The source reads every object under `s3://bucket/prefix/`, which includes the marker and other files of the same day.
- Aggregator.LambdaHandler: a `write_to_s3` failure is modelled as a refused key. Other write errors are not distinguished.
- DqHandler.LambdaHandler: exceptions that propagate out of the handler are modelled as a `Failure` result.
  - Only split failures are modelled: a missing column, a sub-field count mismatch, or a refused put.
  - Event-shape errors and `get_object` errors are not modelled.
- `create_cft_yaml.py` (deployment template) is not part of this model.
- `publish_sqs.py` (the dispatcher that enqueues the marker's bucket and key) is not part of this model. `Aggregator.MarkerPrefix` states what its message leads to.
