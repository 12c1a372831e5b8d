# Fleet placement statistics, modelled in Dafny

This project models the `Stats` class of `src/stats.py`, a batch tool that
reads two CSV snapshots, one of compute hosts (`hostID`, `numberOfSlots`,
`datacentreID`) and one of VM instances (`instanceID`, `customerID`,
`hostID`), and writes a three-line report:

```
HostClustering:<customer>,<percentage>
DatacentreClustering:<customer>,<percentage>
AvailableHosts:<host>,<host>,...
```

The modules follow the parts of the class:

- `Validation` (validation.dfy) covers the nested `validate_row`. It returns
  the first violation of a raw row: too many values, missing fields, or a
  value that does not parse as an integer. It also defines the per-file error
  lists and the text of the aggregated `Data validation errors` exception.
- `Clustering` (clustering.dfy) covers the two passes of `get_host_clustering`
  and `get_data_center_clustering`. The first pass counts each customer's
  instances in total and per key (host or datacentre). The second pass
  replaces each count by its rounded percentage. This module also holds the
  first-match host lookup of the datacentre variant.
- `Slots` (slots.dfy) covers `get_slot_usage`. For each host it computes
  used, total and available slots, and it stops at the first host that has
  more instances than slots.
- `Report` (report.dfy) covers the selection and formatting of `output_data`:
  the running maximum with a strict `>`, the list of hosts with free slots,
  and the text of the report.
- `StatsCore` (stats.dfy) holds the loader and the `Stats` class. The loader
  validates and keeps every row and groups the errors per file. The class
  stores the rows and the three result dictionaries, and its methods run the
  loops of the source. Each method is proved against the specification
  functions of the other modules.
- `TextUtil` and `Wrappers` are helpers: join and split, decimal text,
  Python 2's base-10 `int()` parser, and `Option`/`Result`.

Modelling conventions:

- A raw row is what `csv.DictReader(..., restkey='extra')` yields. It has
  one optional cell per schema field (`None` for a short line) and an
  optional list of surplus cells.
- Percentages are exact integer hundredths: 66.67 is `6667`. Rounding is
  half up on the exact quotient, `Pct(c, t) = (20000 c + t) div 2t`.
- Python dictionary iteration order is an explicit `order` argument. Each
  such argument lists every key exactly once.
- A `StatsException` is a failure value. The loader's failure carries the
  aggregated message text. The clustering failure carries the instanceID
  and hostID (`Unresolved`), and the slot failure carries the hostID and
  the used and total counts (`Overflow`); `UnresolvedMessage` and
  `OverflowMessage` render them as the source's messages.

## Behaviour worth noting

- `validate_row` raises on the first violation it finds (src/stats.py:32-49).
  Each row therefore yields at most one error.
- The report's tie-break is the dictionary's iteration order with a strict
  `>` (src/stats.py:196, 204): the first customer in that order with the
  largest value wins. The running maximum starts at 0, so a customer whose
  maximum is 0.0 is never selected.
- Available hosts appear in the slot dictionary's iteration order
  (src/stats.py:208).
- The two clustering lines end in `\n`; the `AvailableHosts` line has no
  newline (src/stats.py:213-217). An empty customerID also omits its line,
  because the source tests the id for truthiness (src/stats.py:212, 214).
- After a failed datacentre clustering or slot computation, the result field
  keeps the partial state built so far (src/stats.py:110-123, 168-179). For
  the datacentre field that state is whole instance counts rather than
  percentages; a report written from it prints a count of 1 as `1.0`. The
  model keeps every clustering value in hundredths, so it stores a count n
  as 100 n (`CountsAsHundredths`), and `CountText` shows that 100 n prints as
  `n.0`.
- A rounded share can be 0.00 when a customer has more than 20000 instances
  and only one of them is under some key. Stored percentages therefore lie in
  [0, 100], and `PctRange` states exactly when they are positive.

## Model

| member | source | states |
|---|---|---|
| Validation.ValidateRow | src/stats.py:28-49 | After `None` cells are dropped, "too many values" is reported exactly when more values survive than the schema has fields, and "missing fields" exactly when fewer survive. |
| Validation.ValidateRowChecks | src/stats.py:30-49 | "Too many values" carries the `extra` cells. "Missing fields" names precisely the schema fields without a value. An integer-parse error comes only from a row with the right count and names an `int` field. A non-text error comes only when no integer field failed, and it names the `extra` key with the surplus cells. |
| Validation.ValidateRowAccepts | src/stats.py:28-49 | A row is accepted if and only if every schema field has a value, every `int` field parses, and there are no surplus cells. |
| Validation.FieldTypeErrorChecks | src/stats.py:39-49 | The per-value loop finds no error if and only if every present `int`-typed field parses as an integer. An error it reports names an `int` field whose stored value does not parse. |
| Validation.InstanceRowsFailOnlyStructurally | src/stats.py:68-76 | Instance fields are all text, so an instance row is accepted exactly when its three cells have values and nothing overflows. It is never rejected for a value's type. |
| Validation.MessageShowsDetails | src/stats.py:33-49 | The message of a violation shows the `repr` of every surplus value, every missing field name as `u'name'`, and the bracketed name and value of a field that is not an integer. |
| Validation.RowErrorsCount | src/stats.py:58-65 | A file yields exactly one error per rejected row: the number of errors is the number of rows the validator rejects. |
| Validation.RowErrorsInOrder | src/stats.py:58-65 | Errors are kept in row order: a rejected row's error sits at the position given by the number of rejected rows before it. |
| Validation.RowErrorsCollect | src/stats.py:58-65 | A file yields no error if and only if every row is valid. |
| Validation.RowErrorsFromRows | src/stats.py:60-63 | Every collected error is the validator's verdict on one of the file's rows. |
| Validation.ValidationMessageNamesEveryError | src/stats.py:89-94 | The aggregated exception text has a line `path: message` for every rejected row of the hosts file and of the instances file. |
| Validation.SampleBadSlotCount | tests/tests.py:40-41 | A host row whose `numberOfSlots` is `cant_be_a_string` is rejected with the integer-parse error for that field. |
| Validation.SampleBadSlotCountMessage | tests/tests.py:40-41 | That error's text is the expected `Invalid field <name> [numberOfSlots] ...` line, including the `int()` error message. |
| Validation.SampleMissingFields | tests/tests.py:39 | A host row that has only its hostID is rejected for missing `numberOfSlots` and `datacentreID`. |
| Validation.SampleMissingFieldsMessage | tests/tests.py:39 | That error renders as `Missing fields [u'numberOfSlots', u'datacentreID']`. |
| Validation.SampleTooManyValues | tests/tests.py:38 | A host row with one surplus cell is rejected with "too many values" naming that cell. |
| Validation.SampleTooManyValuesMessage | tests/tests.py:38 | That error renders as `Too many values ['extra_value']`. |
| Validation.SampleInstanceTooManyValues | tests/tests.py:42 | An instance row with a surplus `1` is rejected with the text `Too many values ['1']`. |
| TextUtil.ParseIntText | src/stats.py:171 | `int()` applied to the decimal text of an integer gives that integer back. |
| TextUtil.ParseIntDigits | src/stats.py:44-46 | `int()` of a plain digit string is its decimal value; an empty or blank string does not parse. |
| StatsCore.ReadRows | src/stats.py:54-65 | One file's loop keeps every row, valid or not, in order. It appends each rejected row's error under the file's path, in row order. |
| StatsCore.ErrorReport | src/stats.py:89-94 | The exception text is the header followed by each path's error lines, newline-joined, in the given order of paths. |
| StatsCore.GroupedMessage | src/stats.py:89-94 | Grouping the errors by path and then joining the groups gives the host file's lines followed by the instance file's lines. This holds even when both paths are the same. |
| StatsCore.Load | src/stats.py:51-94 | Loading fails if and only if some row of either file is invalid, and the failure carries the aggregated message. Otherwise the new object holds exactly the rows read and empty result dictionaries. |
| StatsCore.Stats.constructor | src/stats.py:22-26 | The object after loading holds the output path, the rows and three empty result dictionaries. |
| Clustering.CountPass | src/stats.py:146-155 | After the counting pass every stored customer has a positive total and at least one key. |
| Clustering.CountPassCounts | src/stats.py:148-155 | After the counting pass, exactly the customers that own an instance are present. Each total is that customer's number of instances. Each per-key count is the number of that customer's instances under that key. |
| Clustering.CountPassKeys | src/stats.py:148-155 | A customer's keys are exactly the keys of its instances. Customers without instances never appear. |
| Clustering.CountPassSums | src/stats.py:152-155 | A customer's per-key counts add up to its total. |
| Clustering.Bump | src/stats.py:152-155 | One instance adds one to its customer's total and to its key's count, starting from a fresh entry when the customer or the key is absent. Every other customer and key is unchanged. |
| Clustering.Pct | src/stats.py:160 | The rounded percentage is within half a hundredth of count/total×100, ties rounding up. |
| Clustering.PctRange | src/stats.py:157-161 | A share is at most 100.00 and is exactly 100.00 when it is all of the instances. It is 100.00 exactly when the missing part is at most 1/20000 of the total, and positive exactly when it is at least 1/20000 of the total. |
| Clustering.Percentages | src/stats.py:157-161 | The conversion pass keeps every customer, its total and its set of keys. |
| Clustering.ToPercentages | src/stats.py:157-161 | The nested loop that overwrites every count by its percentage yields exactly the converted map. |
| Clustering.PercentagesMeaning | src/stats.py:146-161 | After both passes, each stored value is Pct(count of that customer's instances under that key, count of that customer's instances). It is at most 100.00, and exactly 100.00 when all of the customer's instances share the key. |
| Clustering.SingleKeyIsHundred | src/stats.py:130-134 | A customer whose instances all share one key gets exactly `{key: 100.00}`. |
| Clustering.PercentagesNearlyHundred | src/stats.py:157-161 | A customer's rounded percentages add up to 100.00 within half a hundredth per key. |
| Clustering.DatacentreOf | src/stats.py:115-119 | The lookup finds no datacentre exactly when no host has that hostID. Otherwise it gives the datacentreID of the first host, in host order, with that hostID. |
| Clustering.UnresolvedMessage | src/stats.py:122-123 | The error names the instanceID and the hostID, each in brackets. |
| Clustering.CountsAsHundredths | src/stats.py:110-128 | The partial counts left by a failed pass keep every customer, its total and its keys. Each count n is stored as 100 n in the field's hundredths. |
| Clustering.FirstMatch | src/stats.py:115-119 | The host scan finds the first host whose hostID matches, or reports that none matches. |
| Clustering.FirstUnresolved | src/stats.py:112-123 | This is the first instance whose host is not listed. Every earlier instance's host is listed. |
| StatsCore.CountHostClustering | src/stats.py:146-155 | The counting loop over the instances yields the counting pass over (customerID, hostID) pairs. |
| StatsCore.LookupDatacentre | src/stats.py:115-119 | The scan with `break` returns the datacentreID of the first host with a matching hostID, or `None`. |
| StatsCore.CountDataCenterClustering | src/stats.py:110-128 | The loop fails if and only if some instance's host is unlisted. It then names the first such instance and its hostID and leaves the counts of the earlier instances. Otherwise it yields the counting pass over (customerID, datacentre of first matching host). |
| StatsCore.Stats.GetHostClustering | src/stats.py:136-161 | The field becomes the converted counting pass over the instance rows. It depends only on those rows, so a second call gives the same map. |
| StatsCore.Stats.GetDataCenterClustering | src/stats.py:100-134 | It returns the unresolved-host error exactly when some instance's host is unlisted, naming the first such instance. The field then holds the whole counts of the earlier instances, kept as hundredths. Otherwise the field is the converted per-datacentre pass. |
| Slots.SlotPassEntries | src/stats.py:170-185 | Every stored entry has used equal to the number of instances on that host, used ≤ total, and used + available == total. Its total is the slot count of a host row with that hostID. |
| Slots.SlotPass | src/stats.py:168-185 | A failure always names a host whose used count exceeds its total. |
| Slots.OverflowMessage | src/stats.py:179 | The error names the hostID in brackets and shows `used/total`. |
| Slots.FirstOverflow | src/stats.py:170-179 | This is the first host, in host order, with more instances than slots, or `None` when every host fits. |
| Slots.SlotPassFailure | src/stats.py:170-185 | The computation fails exactly when some host has more instances than slots. It then raises for the first such host, with that host's used and total counts. |
| Slots.NegativeSlotsFail | src/stats.py:171-179 | A host with a negative slot count always makes the computation fail. |
| Slots.SlotPassKeys | src/stats.py:168-185 | Without failure, the stored keys are exactly the hosts' hostIDs, from a freshly cleared map. |
| Slots.SlotPassStops | src/stats.py:178-179 | Once a host overflows, later hosts change nothing. |
| StatsCore.UsedSlots | src/stats.py:173-176 | The inner loop counts the instances placed on the host. |
| StatsCore.ComputeSlotUsage | src/stats.py:168-185 | The loop over the hosts yields exactly the stored entries and the failure of the slot pass. |
| StatsCore.Stats.GetSlotUsage | src/stats.py:163-185 | The field and the returned failure are those of the slot pass over the loaded rows. The object stays valid: every entry has used ≤ total and used + available == total. |
| Report.Largest | src/stats.py:195 | `max(values)` is one of the values and at least every value. |
| Report.LargestShare | src/stats.py:195 | The loop computes that maximum. |
| Report.TopFold | src/stats.py:192-206 | The running maximum selects nobody exactly when the value it reaches is 0. |
| Report.SelectTop | src/stats.py:192-198 | The selection loop computes the running maximum over the iteration order. |
| Report.TopFoldChoice | src/stats.py:192-206 | The selected value is at least every customer's maximum. A customer is selected exactly when that value is positive, and it is the first in iteration order whose maximum equals it; earlier customers are strictly below. |
| Report.TopFoldNone | src/stats.py:192-212 | Over a full iteration order, no customer is selected, so the line is omitted, exactly when every customer's maximum is 0. This includes the case with no customers. |
| Report.ReportedShareAtMostHundred | src/stats.py:194-198 | The reported clustering percentage is at most 100.0. |
| Report.SoleKeyReportsHundred | src/stats.py:194-198 | If some customer has all of its instances under one key, the reported percentage is exactly 100.0. |
| Report.AvailableHosts | src/stats.py:208 | A host is in the list exactly when it is in the given order and its available count is positive. |
| Report.AvailableHostsInOrder | src/stats.py:208 | The list keeps the relative order of the iteration order: any two of its entries appear there in the same order. |
| Report.AvailableHostsDistinct | src/stats.py:208 | Over an iteration order, each host appears in the list at most once. |
| Report.AvailableHostsExact | src/stats.py:208 | Over a full iteration order, the list holds exactly the stored hosts with available > 0. |
| Report.PercentText | src/stats.py:213-215 | A value in hundredths prints as its whole part, a point, and one or two fraction digits that give back the hundredths. A trailing zero appears only for a whole number, as in `60.0`. |
| Report.FractionText | src/stats.py:213-215 | The fraction digits have one digit when the second decimal is zero and two otherwise. Read back, they give the hundredths. |
| Report.CountText | src/stats.py:213-215 | A whole count n, held as 100 n hundredths, prints as `n.0`. |
| Report.Render | src/stats.py:210-217 | The report text is empty exactly when no line is shown. |
| Report.RenderStartsWithHostLine | src/stats.py:212-213 | When shown, the whole host clustering line `HostClustering:<id>,<pct>` plus newline opens the text. Without a datacentre line the host list follows it directly. |
| Report.RenderPlacesDatacentreLine | src/stats.py:212-215 | When shown, the whole datacentre line `DatacentreClustering:<id>,<pct>` plus newline comes right after the host line, or opens the text when the host line is not shown. |
| Report.RenderEndsWithHostList | src/stats.py:216-217 | When present, the `AvailableHosts:` line, comma-joined, closes the text with no newline after it. |
| Report.RenderEndsWithNewline | src/stats.py:212-215 | Without free hosts, a non-empty report ends with a newline. |
| Report.AvailableLineRoundTrip | src/stats.py:217 | Splitting the host list back on commas gives the hosts, provided no hostID contains a comma. |
| Report.SampleReport | tests/tests.py:27 | Host 8 at 60%, datacentre 13 at 100% and free hosts 10, 3, 2, 5, 6 render as the expected report text. |
| Report.SamplePercentTexts | tests/tests.py:27 | Whole percentages print with one decimal, as `60.0` and `100.0`. |
| StatsCore.Stats.OutputData | src/stats.py:187-217 | Given the iteration orders, the text written is the rendering of both running maxima and of the available-host list. Every clustering value is read as hundredths, including the whole counts left by a failed datacentre pass. |

## Left out

- Opening and reading the CSV files, `csv.DictReader` decoding, and its `csv.Error`. The loader receives the rows the reader would produce, one optional cell per field plus the surplus list. The `IOError` cases ("File not found", other errors) are file I/O and are not modelled.
- Writing the report file and the "Unable to write to file" error. `OutputData` returns the text that would be written.
- The command-line block (argparse, logging, and the call sequence).
- Floating point. Counts and percentages are exact integers and hundredths. `round` is modelled as round half up on the exact quotient. `str(float)` is modelled by `PercentText`, which agrees with Python 2's 12-significant-digit `str` for percentages of at most 100 and for whole counts below 10^12 (printed `n.0` after a failed datacentre pass). A count of 10^12 or more prints in exponent form in Python; the model does not cover that.
- The data is taken to be printable ASCII. Under `unicode_literals` (src/stats.py:3), non-ASCII bytes in a cell raise `UnicodeDecodeError` when a message is formatted (src/stats.py:48, 213-217). That error is not modelled.
- StrRepr: Python's `repr` switches quote style for values that hold quote characters and escapes backslashes and non-printable characters. `StrRepr` only adds single quotes.
- ParseInt: the text of `int()`'s `ValueError` is modelled as `invalid literal for int() with base 10: ` followed by the whole value in single quotes. The model does not reproduce how Python's message treats surrounding white space or its 200-character cut of long values.
- Validation.ValidateRow: the source iterates the row's dictionary in hash order when it checks values; the model checks the schema fields in schema order and the surplus list last. The set of missing fields is listed in schema order rather than set order.
- The order of the file groups in the aggregated message: Python 2 dictionary order is unspecified, and the model puts the hosts file first.
- Validation.ValidateRowChecks, Validation.RowErrorsCollect: they require a well-formed schema (distinct field names, none called `extra`). The source's two schemas are fixed and well formed (`SchemasWellFormed`), so the loader always meets this.
- The `self.data` dictionary set at src/stats.py:26 is never used.
- Integer-width concerns do not arise: Python integers are unbounded, as are Dafny's.
