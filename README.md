# device_mapping: a verified model of the batch reconciliation pipeline

`device_mapping.py` reads raw device labels from a CSV table, drops labels
that cannot name a device (empty, four characters or fewer, all digits, all
CJK ideographs), and sends the rest to two inference providers, DeepSeek and
Gemini, in batches of five. Every label gets its own call to each provider,
run on a thread pool. A call's free-form answer is trimmed, a Markdown code
fence is removed, and the first bracketed array is located by a
depth-counting scan and decoded. A failed call contributes no records.
Within a batch, the Gemini records are indexed by `origin_device_model`.
Every DeepSeek record, taken in the order the calls completed, gets six
`gemini_*` columns from the matching Gemini record, or nulls. The result is
appended to the output CSV through one lazily created writer. That writer
writes a header only if the output file did not exist at start.

The project has one Dafny module per component:

- `Common` (common.dfy): options, results, the scalar JSON values of a record, `dict.get`, and a dict built by insertion.
- `PyText` (pytext.dfy): `str.strip()` and `str.strip(chars)`.
- `LabelFilter` (labels.dfy): header cleaning, the skip rules, and the selection loop.
- `Extractor` (extractor.dfy): `extract_json` and the `*_safe` wrappers.
- `Batching` (batching.dfy): `range(0, len(devices), BATCH_SIZE)` with its slices.
- `Reconciler` (reconciler.dfy): `gm_map` and the row merge.
- `Orchestrator` (orchestrator.dfy): fan-out and fan-in over the thread pool, the output writer as a class `OutputSink`, and the batch loop.

The code that works step by step is written as methods with loops:

- the label-selection loop;
- the bracket scan;
- submitting the calls and collecting their results;
- writing rows;
- the batch loop.

The first three are proved equal to a specification function, and the
properties that matter are proved about those functions. The row-writing
loop and the batch loop are proved to write a prefix of the specified rows,
all of them unless `writerow` refuses a row, in which case they stop at that
row. The writer's header and field-name invariant is kept by the class
`OutputSink`.

The nondeterminism of `as_completed` is an input: each provider round
carries the order in which its calls completed (`ProviderRound.arrival`),
which must be a permutation of the label indices. The HTTP exchange is also
an input: each call's response text, or none where the exchange failed.
`json.loads` is a `Decoder`, a map from the candidate texts that decode to
the record lists they decode to.

Three behaviours of the code worth noting:

- the added columns are named `gemini_*`;
- the header is suppressed whenever the output file existed at start, even when it was empty;
- the output holds one row per DeepSeek record (a provider may answer with several records for one label, or with none).

## Model

| member | source | states |
|---|---|---|
| Common.LastWins | device_mapping.py:89 | a dict comprehension's keys are exactly the keys of its pairs |
| Common.LastWinsAt | device_mapping.py:89 | a dict comprehension keeps the value of the last pair with a given key |
| Common.Get | device_mapping.py:224-225 | `dict.get`: the stored value, or None for a missing key; its uses are stated by `Reconciler.MergeMatched`, `Reconciler.MergeUnmatched` and `Reconciler.MissingKeyMatchesNullKey` |
| Common.SetItem | device_mapping.py:186-189 | `d[k] = v` on a dict's items keeps the keys distinct and adds exactly `k`; a new key is appended after the existing pairs; an existing key keeps its position and takes `v`, and every other pair stays where it was, unchanged |
| Common.DictItems | device_mapping.py:186-189 | the items of the dict `csv.DictReader` builds from a header and a row have distinct keys, exactly the header names |
| Common.LastWinsSetItem | device_mapping.py:186-189 | the dictionary held by the items after `d[k] = v` is the one held before, with `k` mapped to `v` |
| Common.DictItemsLastWins | device_mapping.py:186-189 | the reader's dict maps each header name to the cell under its last occurrence, the same dictionary as inserting the header-cell pairs one by one |
| Common.FirstAt | device_mapping.py:186-189 | the position of a header name's first occurrence: it carries the name and no earlier position does |
| Common.FirstAtSnoc | device_mapping.py:186-189 | appending a header-cell pair moves no name's first occurrence, and a new name first occurs at the appended pair |
| Common.SetItemFirstOrder | device_mapping.py:186-189 | setting the name of an appended pair keeps the dict's items in the order of first occurrence |
| Common.DictItemsFirstOrder | device_mapping.py:186-189 | the reader's dict lists the header names in the order of their first occurrence |
| Common.DictItemsDistinct | device_mapping.py:186-189 | with distinct header names, the dict's items are the header-cell pairs in header order |
| PyText.StartOfKept | device_mapping.py:66 | the forward scan of `strip` stops at the first non-droppable character, having passed only droppable ones |
| PyText.EndOfKept | device_mapping.py:66 | the backward scan of `strip` stops after the last non-droppable character, having passed only droppable ones |
| PyText.Strip | device_mapping.py:66 | the stripped string is no longer than the input and neither starts nor ends with a droppable character |
| PyText.StripIsInterior | device_mapping.py:66 | `strip` returns a contiguous piece of the input and removes only droppable characters at the two ends |
| PyText.StripAround | device_mapping.py:66 | stripping text around a middle part that starts and ends with kept characters cuts only into the outer parts |
| PyText.StripPadding | device_mapping.py:71 | whitespace padding around such a middle part is removed exactly |
| LabelFilter.CleanKey | device_mapping.py:89 | a cleaned header name neither starts nor ends with `"` |
| LabelFilter.CleanedItems | device_mapping.py:88-89 | the cleaned items of the reader's dict have exactly the cleaned header names as keys |
| LabelFilter.CleanRowKeys | device_mapping.py:88-89 | the cleaned row's keys are the cleaned header names |
| LabelFilter.CleanRowKeysAt | device_mapping.py:88-89 | with distinct raw header names, when several clean to the same name, the last such column's cell wins |
| LabelFilter.RepeatedHeaderKeepsFirstPosition | device_mapping.py:88-89 | with the header `x, " x", x` the cleaned row maps `x` to the middle column's cell, because the reader's dict keeps `x` at its first position with the last `x` cell |
| LabelFilter.IsPureDigit | device_mapping.py:91-92 | `isdigit` on ASCII digits, false on the empty string; its use is stated by `LabelFilter.KeptIff` |
| LabelFilter.IsPureChinese | device_mapping.py:94-95 | one or more characters of U+4E00..U+9FFF; its use is stated by `LabelFilter.KeptIff` |
| LabelFilter.ShouldSkip | device_mapping.py:98-107 | the four skip rules in order; stated by `LabelFilter.KeptIff` and `LabelFilter.FilterExamples` |
| LabelFilter.KeptIff | device_mapping.py:98-107 | a label is kept if and only if it has at least five characters, one of them not a digit and one of them not a CJK ideograph |
| LabelFilter.FilterExamples | device_mapping.py:91-107 | "1234", "12345678" and a five-ideograph label are skipped; "TAS-AN00" is kept |
| LabelFilter.LabelOf | device_mapping.py:189-191 | a row yields its `origin_device_model` cell exactly when that cell is present and the filter keeps it |
| LabelFilter.KeptLabels | device_mapping.py:188-192 | the selected labels; no more labels than rows, and the rest is stated by `LabelFilter.KeptLabelsAreKept`, `LabelFilter.KeptLabelsAppend` and `LabelFilter.KeptSingle` |
| LabelFilter.KeptLabelsAreKept | device_mapping.py:188-192 | no label the filter skips is ever selected |
| LabelFilter.KeptLabelsAppend | device_mapping.py:188-192 | selection over `a + b` is selection over `a` followed by selection over `b`, so input order and repeats are kept |
| LabelFilter.KeptSingle | device_mapping.py:189-192 | one row contributes its label exactly when the filter keeps it |
| LabelFilter.SelectLabels | device_mapping.py:185-192 | the selection loop appends exactly the kept labels, in input order |
| Extractor.StripFences | device_mapping.py:66-71 | the text handed to the scan has no surrounding whitespace |
| Extractor.DropLeading | device_mapping.py:68-69 | an anchored `re.sub` removes the pattern once at the start, if present; stated by `Extractor.TaggedFenceSubs` and `Extractor.PlainFenceSubs` |
| Extractor.DropTrailingFence | device_mapping.py:70 | `re.sub(r"```$", "", t)`, where `$` also matches before a final newline; stated by `Extractor.TaggedFenceSubs` and `Extractor.PlainFenceSubs` |
| Extractor.UnfencedIsTrimmed | device_mapping.py:66-67 | text without a leading fence is only trimmed |
| Extractor.TaggedFenceSubs | device_mapping.py:68-70 | the three substitutions remove a ```` ```json ```` fence from around a body |
| Extractor.PlainFenceSubs | device_mapping.py:68-70 | the three substitutions remove a plain ```` ``` ```` fence from around a body that does not start with `json` |
| Extractor.TaggedFenceRemoved | device_mapping.py:66-71 | a whitespace-padded ```` ```json ```` fence around a body yields the trimmed body |
| Extractor.PlainFenceRemoved | device_mapping.py:66-71 | a whitespace-padded plain fence around a body yields the trimmed body |
| Extractor.FirstIndex | device_mapping.py:73 | `find("[")` returns the first position holding `[`, or none when there is no `[` |
| Extractor.CloseFrom | device_mapping.py:78-83 | the scan can only stop on a `]` at or after its start |
| Extractor.Locate | device_mapping.py:73-86 | the locator up to the decode; stated by `Extractor.LocateSpec` and `Extractor.LocateFindsSpan` |
| Extractor.CloseFromSpec | device_mapping.py:77-86 | the scan stops at the first position after the first `[` where the depth returns to zero, and fails only if the depth stays positive |
| Extractor.LocateSpec | device_mapping.py:73-86 | no `[` means the first error; a depth that never returns to zero means the second; otherwise the result is the bracket span starting at the first `[` |
| Extractor.LocateFindsSpan | device_mapping.py:73-84 | an array preceded by prose without `[` is located exactly, whatever follows it |
| Extractor.StrippedBodyLocated | device_mapping.py:66-84 | an array inside surrounding prose is still located exactly after trimming |
| Extractor.FencedArrayLocated | device_mapping.py:65-84 | prose and an array inside a padded ```` ```json ```` fence yields exactly the array text |
| Extractor.BracketInStringClosesEarly | device_mapping.py:77-84 | the scan ignores JSON string quoting: `["]"]` yields `["]` |
| Extractor.NestedArrayKept | device_mapping.py:77-84 | a nested array does not end the span |
| Extractor.ScanArray | device_mapping.py:73-86 | the scan loop returns what the locator specifies |
| Extractor.Loads | device_mapping.py:84 | decoding succeeds exactly on the texts the decoder accepts |
| Extractor.ExtractJson | device_mapping.py:65-86 | `extract_json` fails with the locator's error, fails when decoding fails, and otherwise returns the decoded records |
| Extractor.SafeRecords | device_mapping.py:163-176 | what one safe call contributes; stated by `Extractor.SafeRecordsGenuine` and `Extractor.CallSafe` |
| Extractor.SafeRecordsGenuine | device_mapping.py:163-176 | a failed exchange contributes no records; non-empty records always come from a located array that decoded to exactly them |
| Extractor.CallSafe | device_mapping.py:163-176 | the safe wrapper returns the extracted records, or none on any failure |
| Batching.BatchesFrom | device_mapping.py:199-200 | every batch is non-empty and holds at most `BATCH_SIZE` labels |
| Batching.Batches | device_mapping.py:199-200 | the batches of the run; stated by `Batching.BatchesCover`, `Batching.BatchCount` and `Batching.BatchAt` |
| Batching.ConcatAppend | device_mapping.py:199-200 | helper of `Batching.BatchesCover`: joining the lists of `a + b` joins those of `a`, then those of `b` |
| Batching.ConcatSnoc | device_mapping.py:199-200 | helper of `Orchestrator.GatherRange` and `Orchestrator.RowsAfterBatch`: one more list extends the joined prefix by that list |
| Batching.BatchesCover | device_mapping.py:199-200 | the batches joined back together are the label list: each label is in exactly one batch, in order |
| Batching.BatchCount | device_mapping.py:199 | the number of batches is the ceiling of the label count divided by the batch size |
| Batching.BatchAt | device_mapping.py:199-200 | batch `j` is the slice `devices[i:i + BATCH_SIZE]` at `i = j * BATCH_SIZE`, clamped at the end |
| Batching.RunBatchCount | device_mapping.py:33 | with `BATCH_SIZE = 5` there are `(n + 4) / 5` batches |
| Batching.SevenLabelsTwoBatches | device_mapping.py:199-200 | seven labels make a batch of five and a batch of two |
| Reconciler.GeminiColumns | device_mapping.py:227-232 | the six added column names |
| Reconciler.GeminiIndex | device_mapping.py:217-221 | `gm_map` has a key for each Gemini record carrying `origin_device_model`, and stores under it a record carrying that key |
| Reconciler.GeminiIndexLast | device_mapping.py:217-221 | when several Gemini records carry the same key, `gm_map` keeps the last one |
| Reconciler.Match | device_mapping.py:224-225 | `gm_map.get(odm, {})`; stated by `Reconciler.MergeMatched`, `Reconciler.MergeUnmatched` and `Reconciler.MissingKeyMatchesNullKey` |
| Reconciler.MergeRow | device_mapping.py:223-232 | the merged row keeps every original field, adds exactly the six `gemini_*` columns, and fills each from the matched Gemini record or with null |
| Reconciler.MergeMatched | device_mapping.py:224-232 | when Gemini answered the row's label, the six columns are the fields of its last record for that label |
| Reconciler.MergeUnmatched | device_mapping.py:225-232 | when no Gemini record carries the row's label, for instance when Gemini failed, all six columns are null |
| Reconciler.MissingKeyMatchesNullKey | device_mapping.py:224-225 | a DeepSeek record without `origin_device_model` matches a Gemini record whose key is JSON null |
| Reconciler.MergeAll | device_mapping.py:223-232 | the batch has one merged row per DeepSeek record, in order |
| Orchestrator.Range | device_mapping.py:207 | the label indices of a batch, in submission order |
| Orchestrator.PermutationBounds | device_mapping.py:208 | every completion position names a submitted call |
| Orchestrator.Gather | device_mapping.py:208-209 | the futures' lists joined in completion order; stated by `Orchestrator.GatherRange`, `Orchestrator.GatherPermuted` and `Orchestrator.CollectInOrder` |
| Orchestrator.Collected | device_mapping.py:206-215 | `ds_results` or `gm_results` of one batch; stated by `Orchestrator.ArrivalOrderIrrelevant` and `Orchestrator.FanIn` |
| Orchestrator.GatherAppend | device_mapping.py:208-209 | collecting along `a + b` collects along `a`, then along `b` |
| Orchestrator.GatherSnoc | device_mapping.py:208-209 | collecting one more future appends its result list |
| Orchestrator.GatherRange | device_mapping.py:208-209 | collecting in submission order yields the per-label lists joined in label order |
| Orchestrator.GatherPermuted | device_mapping.py:208-209 | collecting along two orders with the same indices yields the same records with the same multiplicities |
| Orchestrator.PickOut | device_mapping.py:208 | helper of `Orchestrator.GatherPermuted`: removing the last index of one order and the same index from another keeps their multisets equal |
| Orchestrator.RemoveOne | device_mapping.py:208 | helper of `Orchestrator.GatherPermuted`: removing the same element from two equal multisets leaves equal multisets |
| Orchestrator.PerLabel | device_mapping.py:207 | one result list per label |
| Orchestrator.PerLabelAt | device_mapping.py:207 | entry `k` is the safe call's result for label `k` |
| Orchestrator.ArrivalOrderIrrelevant | device_mapping.py:206-215 | whatever order the calls complete in, the collected records are the per-label records, each as often as it was returned |
| Orchestrator.SubmitAll | device_mapping.py:206-207 | one safe call per label, submitted in label order, each yielding its label's records |
| Orchestrator.SubmitOne | device_mapping.py:207 | one submission extends the futures by the next label's result |
| Orchestrator.CollectInOrder | device_mapping.py:208-209 | the results are the futures' lists joined in completion order |
| Orchestrator.FanIn | device_mapping.py:206-215 | the collected records are the results in arrival order, and a permutation of the results in label order |
| Orchestrator.BatchRows | device_mapping.py:223-232 | a batch writes one row per collected DeepSeek record |
| Orchestrator.OutputSink.constructor | device_mapping.py:183 | the run starts with no writer, no rows and no header, remembering whether the file existed |
| Orchestrator.OutputSink.WriteRow | device_mapping.py:234-240 | the first row fixes the field names and writes the header only to a new file; a row is written exactly when its keys fit the field names |
| Orchestrator.WriteRows | device_mapping.py:223-242 | rows are written in order, stopping at the first row whose keys do not fit, and the writer invariant is kept |
| Orchestrator.ProcessBatch | device_mapping.py:203-242 | one batch writes a prefix of its merged rows, all of them unless a row is refused, and the refused row is named |
| Orchestrator.ConcatPrefix | device_mapping.py:199-242 | helper of `Orchestrator.RowsAfterBatch`: the rows of the first `b` batches are a prefix of the run's rows |
| Orchestrator.NextBatch | device_mapping.py:199-200 | the batch at offset `i` is batch `b`, and the batches after it start at `i + BATCH_SIZE` |
| Orchestrator.RowsAfterBatch | device_mapping.py:223-242 | after a batch, the output is a prefix of the run's rows, and an early stop is at the refused row |
| Orchestrator.RunBatchAt | device_mapping.py:199-242 | one pass of the batch loop appends the next batch's rows, or stops at the refused row |
| Orchestrator.RunBatches | device_mapping.py:196-244 | the rows written are a prefix of all batches' rows in batch order, all of them unless a row is refused; the header is written at most once, and never to a file that existed |
| Orchestrator.Run | device_mapping.py:181-244 | the whole run writes a prefix of the run's rows, all of them unless a row is refused, and an early stop is at a row whose keys do not fit the field names; a header is written exactly when the file was new and a row was written |

## Left out

- HTTP is not modelled: requests, headers, payloads, timeouts and `raise_for_status`. Each call is an input: its response text, or none where anything in the exchange raised.
- `json.loads` is not modelled. It is the `Decoder` map from the texts that decode to their records; decoding into anything other than a list of objects with scalar values is not modelled.
- Provider records holding nested objects or arrays are not modelled: a record's values are null, booleans, integers or strings.
- Python's `True == 1` key equality is not modelled: `Bool` and `Num` keys of `gm_map` are distinct.
- Thread scheduling is not modelled. `as_completed` is a permutation of the futures given as input, and no two results interleave, since `extend` runs on the main thread.
- CSV reading is not modelled: encoding, the byte-order mark, ignored bytes and quoting. A row is its header names paired with its cells, and `Common.DictItems` builds the reader's dict from them, repeated header names included.
- A CSV row longer than the header is not modelled. `DictReader` keys the extra cells with None, on which `strip` raises.
- CSV writing is not modelled beyond the set of the writer's field names, whether the header was written, and the rows handed to `writerow`. `flush` is not modelled.
- Column order is not modelled. `DictWriter` takes the first row's keys in order, which fixes the header text and the column order of every output line. Records are maps here, so the field names are a set.
- `print` and `time.sleep(SLEEP_SECONDS)` are not modelled; they do not change what is written.
- The `print` after the `return` in `call_deepseek_safe` is unreachable and is not modelled.
- `str.isdigit` is modelled on ASCII digits only. Python also counts other Unicode decimal and digit characters.
- The source extends each DeepSeek record in place and writes it right away. The model merges the whole batch, then writes it. Merging reads only the Gemini index, so the rows written are the same.
- A row that `writerow` refuses (keys outside the first row's field names) raises ValueError and ends the program. The model stops the run at that row and reports it.
- LabelFilter.KeptLabels: its own contract bounds only the count. Which labels are kept, their order and their multiplicity are stated by `KeptLabelsAreKept`, `KeptLabelsAppend`, `KeptSingle` and `SelectLabels`.
- LabelFilter.CleanKey: its contract states only that the result has no quote at either end. Its shape follows from `PyText.StripIsInterior` applied twice.
