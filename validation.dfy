/**
 * Row validation (the nested `validate_row` of `Stats.__init__`) and the
 * specification of the loader's aggregated error report.
 *
 * A raw row is what `csv.DictReader(f, fieldnames=..., restkey='extra')`
 * yields: one cell per schema field, `None` for a cell missing from a short
 * line, and the surplus cells of a long line as a list under `extra`.
 */
module Validation {
  import opened Wrappers
  import opened TextUtil

  /** The type a schema expects of a field: `basestring` or `int`. */
  datatype FieldType = Text | Integer

  /** An ordered field schema (the `OrderedDict` passed to the validator). */
  type Schema = seq<(string, FieldType)>

  /** The `restkey` under which the reader collects surplus cells. */
  const OverflowKey: string := "extra"

  const HostSchema: Schema := [("hostID", Text), ("numberOfSlots", Integer), ("datacentreID", Text)]

  const InstanceSchema: Schema := [("instanceID", Text), ("customerID", Text), ("hostID", Text)]

  datatype RawRow = RawRow(cells: map<string, Option<string>>, extra: Option<seq<string>>)

  /** The single violation a row is rejected for. */
  datatype RowError =
    | TooManyValues(overflow: Option<seq<string>>)
    | MissingFields(names: seq<string>)
    | NotText(name: string, items: seq<string>)
    | NotInteger(name: string, value: string)

  function Names(schema: Schema): set<string>
  {
    set i | 0 <= i < |schema| :: schema[i].0
  }

  /** Field names are distinct and none collides with the overflow key. */
  predicate WellFormed(schema: Schema)
  {
    |Names(schema)| == |schema| && OverflowKey !in Names(schema)
  }

  /** What the reader guarantees: exactly one cell per schema field (of a well-formed schema). */
  predicate Shaped(row: RawRow, schema: Schema)
  {
    row.cells.Keys == Names(schema)
  }

  /** The fields whose cell survives the filter that drops `None` values. */
  function Present(row: RawRow): set<string>
  {
    set k | k in row.cells && row.cells[k].Some?
  }

  /** `len(r)` after the filter: present fields plus the overflow list if any. */
  function PresentCount(row: RawRow): nat
  {
    |Present(row)| + if row.extra.Some? then 1 else 0
  }

  /** Schema fields without a value, in schema order. */
  function Absent(row: RawRow, schema: Schema): seq<string>
    decreases |schema|
  {
    if |schema| == 0 then []
    else
      var name := schema[0].0;
      (if name in Present(row) then [] else [name]) + Absent(row, schema[1..])
  }

  /**
   * The per-value loop of the validator: every present field whose schema
   * type is `int` must parse as an integer.
   */
  function FieldTypeError(row: RawRow, fields: Schema): (r: Option<RowError>)
    ensures r.Some? ==> r.value.NotInteger?
    decreases |fields|
  {
    if |fields| == 0 then None
    else
      var (name, ty) := fields[0];
      if ty == Integer && name in Present(row) && ParseInt(row.cells[name].value).None? then
        Some(NotInteger(name, row.cells[name].value))
      else FieldTypeError(row, fields[1..])
  }

  /**
   * The per-value loop finds no error exactly when every present `int` field
   * parses, and an error it reports names an `int` field whose stored value
   * does not parse.
   */
  lemma {:induction false} FieldTypeErrorChecks(row: RawRow, fields: Schema)
    ensures var r := FieldTypeError(row, fields);
      && (r.None? <==>
            forall i :: 0 <= i < |fields| && fields[i].1 == Integer && fields[i].0 in Present(row) ==>
              ParseInt(row.cells[fields[i].0].value).Some?)
      && (r.Some? ==>
            && r.value.NotInteger?
            && (exists i :: 0 <= i < |fields| && fields[i] == (r.value.name, Integer))
            && r.value.name in row.cells && row.cells[r.value.name] == Some(r.value.value)
            && ParseInt(r.value.value).None?)
    decreases |fields|
  {
    if |fields| > 0 {
      FieldTypeErrorChecks(row, fields[1..]);
      assert forall i :: 1 <= i < |fields| ==> fields[i] == fields[1..][i - 1];
      var r := FieldTypeError(row, fields);
      if r.Some? && r != FieldTypeError(row, fields[1..]) {
        assert fields[0] == (r.value.name, Integer);
      }
    }
  }

  /**
   * `validate_row`: the first violation found, or None. The checks run in
   * the source's order: too many values, missing fields, then each value.
   * Too many values is reported exactly when more values survive than the
   * schema has fields, and then names the overflow cells; missing fields
   * exactly when fewer survive, naming precisely the schema fields that have
   * no value; otherwise an integer field that does not parse, and only then
   * a surplus that is not text.
   */
  function ValidateRow(row: RawRow, schema: Schema): (r: Option<RowError>)
    requires Shaped(row, schema)
    ensures r.Some? && r.value.TooManyValues? <==> PresentCount(row) > |schema|
    ensures r.Some? && r.value.MissingFields? <==> PresentCount(row) < |schema|
  {
    if PresentCount(row) > |schema| then Some(TooManyValues(row.extra))
    else if PresentCount(row) < |schema| then Some(MissingFields(Absent(row, schema)))
    else
      match FieldTypeError(row, schema)
      case Some(e) => Some(e)
      case None => if row.extra.Some? then Some(NotText(OverflowKey, row.extra.value)) else None
  }

  /**
   * `row[name]` on a row that passed validation; the empty string stands in
   * for a cell that a valid row always has.
   */
  function Cell(row: RawRow, name: string): string
  {
    if name in row.cells && row.cells[name].Some? then row.cells[name].value else ""
  }

  /** A row as the data model wants it: every field is text, integers parse, nothing surplus. */
  predicate RowIsValid(row: RawRow, schema: Schema)
  {
    && row.extra.None?
    && forall i :: 0 <= i < |schema| ==>
         && schema[i].0 in row.cells
         && row.cells[schema[i].0].Some?
         && (schema[i].1 == Integer ==> ParseInt(row.cells[schema[i].0].value).Some?)
  }

  /**
   * What each kind of rejection says about the row: "missing fields" names
   * exactly the schema fields without a value, an integer-parse error comes
   * from a row with every field present and names an `int` field, and a
   * non-text error comes only when every field checked out.
   */
  lemma {:induction false} ValidateRowChecks(row: RawRow, schema: Schema)
    requires WellFormed(schema) && Shaped(row, schema)
    ensures var r := ValidateRow(row, schema);
      && (r.Some? && r.value.TooManyValues? ==> row.extra.Some? && r.value.overflow == row.extra)
      && (r.Some? && r.value.MissingFields? ==>
            forall n :: n in r.value.names <==> n in Names(schema) && n !in Present(row))
      && (r.Some? && r.value.NotInteger? ==>
            && PresentCount(row) == |schema|
            && exists i :: 0 <= i < |schema| && schema[i] == (r.value.name, Integer))
      && (r.Some? && r.value.NotText? ==>
            && FieldTypeError(row, schema).None?
            && row.extra == Some(r.value.items) && r.value.name == OverflowKey)
  {
    PresentBound(row, schema);
    AbsentNames(row, schema);
    FieldTypeErrorChecks(row, schema);
  }

  lemma {:induction false} AbsentNames(row: RawRow, schema: Schema)
    ensures forall n :: n in Absent(row, schema) <==> n in Names(schema) && n !in Present(row)
    decreases |schema|
  {
    if |schema| > 0 {
      AbsentNames(row, schema[1..]);
      assert Names(schema) == {schema[0].0} + Names(schema[1..]);
    }
  }

  /** On a shaped row at most the schema's fields are present. */
  lemma {:induction false} PresentBound(row: RawRow, schema: Schema)
    requires WellFormed(schema) && Shaped(row, schema)
    ensures Present(row) <= Names(schema)
    ensures |Present(row)| <= |schema|
    ensures |Present(row)| == |schema| <==> Present(row) == Names(schema)
  {
    var p, n := Present(row), Names(schema);
    assert n == p + (n - p);
    assert |n| == |p| + |n - p|;
  }

  /** A row is accepted if and only if it is valid. */
  lemma {:induction false} ValidateRowAccepts(row: RawRow, schema: Schema)
    requires WellFormed(schema) && Shaped(row, schema)
    ensures ValidateRow(row, schema).None? <==> RowIsValid(row, schema)
  {
    PresentBound(row, schema);
    FieldTypeErrorChecks(row, schema);
    if RowIsValid(row, schema) {
      assert Names(schema) <= Present(row) by {
        forall n | n in Names(schema) ensures n in Present(row) {
          var i :| 0 <= i < |schema| && schema[i].0 == n;
        }
      }
    }
    if ValidateRow(row, schema).None? {
      assert Present(row) == Names(schema);
      forall i | 0 <= i < |schema|
        ensures schema[i].0 in row.cells && row.cells[schema[i].0].Some?
      {
        assert schema[i].0 in Names(schema);
      }
    }
  }

  /**
   * Instance fields are all text, so an instance row is never rejected for a
   * value's type: it is accepted exactly when its three cells have values and
   * nothing overflows.
   */
  lemma {:induction false} InstanceRowsFailOnlyStructurally(row: RawRow)
    requires Shaped(row, InstanceSchema)
    ensures ValidateRow(row, InstanceSchema).None? <==>
      row.extra.None? && forall i :: 0 <= i < |InstanceSchema| ==> InstanceSchema[i].0 in Present(row)
  {
    SchemasWellFormed();
    ValidateRowAccepts(row, InstanceSchema);
  }

  // ---- error text ----

  /** `repr` of a byte string (quote characters inside are not escaped here). */
  function StrRepr(s: string): string
  {
    "'" + s + "'"
  }

  /** `str` of a list of strings; `prefix` is "u" for unicode strings, "" for byte strings. */
  function ListRepr(items: seq<string>, prefix: string): string
  {
    "[" + Join(Quoted(items, prefix), ", ") + "]"
  }

  /** The `repr` of every item, in order. */
  function Quoted(items: seq<string>, prefix: string): (r: seq<string>)
    ensures |r| == |items|
    ensures forall i :: 0 <= i < |items| ==> r[i] == prefix + StrRepr(items[i])
    decreases |items|
  {
    if |items| == 0 then [] else [prefix + StrRepr(items[0])] + Quoted(items[1..], prefix)
  }

  /** After a heading, a list's text still shows every item's `repr`. */
  lemma {:induction false} ListReprShowsItems(head: string, items: seq<string>, prefix: string)
    ensures forall i :: 0 <= i < |items| ==> Contains(head + ListRepr(items, prefix), prefix + StrRepr(items[i]))
  {
    var quoted := Quoted(items, prefix);
    forall i | 0 <= i < |items| ensures Contains(head + ListRepr(items, prefix), prefix + StrRepr(items[i])) {
      JoinContains(quoted, ", ", i);
      var k :| OccursAt(Join(quoted, ", "), quoted[i], k);
      var text := head + ListRepr(items, prefix);
      var off := |head| + 1;
      assert text == head + "[" + Join(quoted, ", ") + "]";
      assert text[off + k..off + k + |quoted[i]|] == Join(quoted, ", ")[k..k + |quoted[i]|];
      assert OccursAt(text, quoted[i], off + k);
    }
  }

  /** The message the validator raises for a violation. */
  function Message(e: RowError): string
  {
    match e
    case TooManyValues(None) => "Too many values None"
    case TooManyValues(Some(items)) => "Too many values " + ListRepr(items, "")
    case MissingFields(names) => "Missing fields " + ListRepr(names, "u")
    case NotText(name, items) => "Invalid field [" + name + "] [" + ListRepr(items, "") + "]"
    case NotInteger(name, value) =>
      "Invalid field <name> " + ("[" + name + "]") + " <value> " + ("[" + value + "]")
      + " <error> [invalid literal for int() with base 10: " + StrRepr(value) + "]"
  }

  /**
   * A message shows every surplus value, every missing field name, and the
   * name and value of a field that is not an integer.
   */
  lemma {:induction false} MessageShowsDetails(e: RowError)
    ensures e.TooManyValues? && e.overflow.Some? ==>
      forall i :: 0 <= i < |e.overflow.value| ==> Contains(Message(e), StrRepr(e.overflow.value[i]))
    ensures e.MissingFields? ==> forall i :: 0 <= i < |e.names| ==> Contains(Message(e), "u" + StrRepr(e.names[i]))
    ensures e.NotInteger? ==> Contains(Message(e), "[" + e.name + "]") && Contains(Message(e), "[" + e.value + "]")
  {
    match e
    case TooManyValues(None) =>
    case TooManyValues(Some(items)) =>
      ListReprShowsItems("Too many values ", items, "");
      assert forall i :: 0 <= i < |items| ==> "" + StrRepr(items[i]) == StrRepr(items[i]);
    case MissingFields(names) =>
      ListReprShowsItems("Missing fields ", names, "u");
    case NotText(_, _) =>
    case NotInteger(name, value) =>
      NotIntegerMessageShows(name, value);
  }

  lemma {:induction false} NotIntegerMessageShows(name: string, value: string)
    ensures Contains(Message(NotInteger(name, value)), "[" + name + "]")
    ensures Contains(Message(NotInteger(name, value)), "[" + value + "]")
  {
    var head, nameText, mid, valueText := "Invalid field <name> ", "[" + name + "]", " <value> ", "[" + value + "]";
    var tail := " <error> [invalid literal for int() with base 10: " + StrRepr(value) + "]";
    var text := head + nameText + mid + valueText + tail;
    assert Message(NotInteger(name, value)) == text;
    ContainsMiddle(head, nameText, mid + valueText + tail);
    assert head + nameText + (mid + valueText + tail) == text;
    ContainsMiddle(head + nameText + mid, valueText, tail);
  }

  // ---- the loader's error collection ----

  predicate AllShaped(rows: seq<RawRow>, schema: Schema)
  {
    forall i :: 0 <= i < |rows| ==> Shaped(rows[i], schema)
  }

  /** The errors collected for one file: one per rejected row, in row order. */
  function RowErrors(rows: seq<RawRow>, schema: Schema): seq<RowError>
    requires AllShaped(rows, schema)
    decreases |rows|
  {
    if |rows| == 0 then []
    else
      var init := rows[..|rows| - 1];
      RowErrors(init, schema) +
        match ValidateRow(rows[|rows| - 1], schema)
        case None => []
        case Some(e) => [e]
  }

  /** The lines `fpath + ': ' + e.message` for one file's errors. */
  function ErrorLines(path: string, errors: seq<RowError>): seq<string>
  {
    seq(|errors|, i requires 0 <= i < |errors| => path + ": " + Message(errors[i]))
  }

  /** The text of the aggregated exception: the host file's lines, then the instance file's. */
  function ValidationMessage(hostsPath: string, hostRows: seq<RawRow>,
                             instancesPath: string, instanceRows: seq<RawRow>): string
    requires AllShaped(hostRows, HostSchema) && AllShaped(instanceRows, InstanceSchema)
  {
    "Data validation errors\n" +
    Join(ErrorLines(hostsPath, RowErrors(hostRows, HostSchema))
         + ErrorLines(instancesPath, RowErrors(instanceRows, InstanceSchema)), "\n")
  }

  /** Every row of a file passes the validator. */
  predicate AllValid(rows: seq<RawRow>, schema: Schema)
  {
    forall i :: 0 <= i < |rows| ==> RowIsValid(rows[i], schema)
  }

  /** A file has no errors exactly when every row is valid. */
  lemma {:induction false} RowErrorsCollect(rows: seq<RawRow>, schema: Schema)
    requires WellFormed(schema) && AllShaped(rows, schema)
    ensures |RowErrors(rows, schema)| == 0 <==> AllValid(rows, schema)
    decreases |rows|
  {
    if |rows| > 0 {
      var init := rows[..|rows| - 1];
      var last := rows[|rows| - 1];
      RowErrorsLength(rows, schema);
      RowErrorsCollect(init, schema);
      ValidateRowAccepts(last, schema);
      AllValidLast(rows, schema);
    }
  }

  lemma {:induction false} RowErrorsLength(rows: seq<RawRow>, schema: Schema)
    requires |rows| > 0 && AllShaped(rows, schema)
    ensures AllShaped(rows[..|rows| - 1], schema)
    ensures |RowErrors(rows, schema)| ==
      |RowErrors(rows[..|rows| - 1], schema)| + (if ValidateRow(rows[|rows| - 1], schema).None? then 0 else 1)
  {
  }

  lemma {:induction false} AllValidLast(rows: seq<RawRow>, schema: Schema)
    requires |rows| > 0
    ensures AllValid(rows, schema) <==> AllValid(rows[..|rows| - 1], schema) && RowIsValid(rows[|rows| - 1], schema)
  {
    var init := rows[..|rows| - 1];
    assert forall i :: 0 <= i < |init| ==> init[i] == rows[i];
  }

  /** How many rows of a file the validator rejects. */
  function Rejected(rows: seq<RawRow>, schema: Schema): nat
    requires AllShaped(rows, schema)
    decreases |rows|
  {
    if |rows| == 0 then 0
    else Rejected(rows[..|rows| - 1], schema) + if ValidateRow(rows[|rows| - 1], schema).Some? then 1 else 0
  }

  /** One error per rejected row: there are as many errors as rejected rows. */
  lemma {:induction false} RowErrorsCount(rows: seq<RawRow>, schema: Schema)
    requires AllShaped(rows, schema)
    ensures |RowErrors(rows, schema)| == Rejected(rows, schema)
    decreases |rows|
  {
    if |rows| > 0 {
      RowErrorsCount(rows[..|rows| - 1], schema);
    }
  }

  /**
   * Errors are collected in row order: a rejected row's error sits at the
   * position given by the number of rejected rows before it.
   */
  lemma {:induction false} RowErrorsInOrder(rows: seq<RawRow>, schema: Schema, i: nat)
    requires AllShaped(rows, schema)
    requires i < |rows| && ValidateRow(rows[i], schema).Some?
    ensures Rejected(rows[..i], schema) < |RowErrors(rows, schema)|
    ensures RowErrors(rows, schema)[Rejected(rows[..i], schema)] == ValidateRow(rows[i], schema).value
    decreases |rows|
  {
    var n := |rows| - 1;
    var init := rows[..n];
    RowErrorsCount(init, schema);
    if i < n {
      assert rows[..i] == init[..i];
      assert rows[i] == init[i];
      RowErrorsInOrder(init, schema, i);
    } else {
      assert rows[..i] == init;
    }
  }

  /** Every collected error is the verdict of the validator on one of the rows. */
  lemma {:induction false} RowErrorsFromRows(rows: seq<RawRow>, schema: Schema)
    requires AllShaped(rows, schema)
    ensures forall e :: e in RowErrors(rows, schema) ==>
      exists i :: 0 <= i < |rows| && ValidateRow(rows[i], schema) == Some(e)
    decreases |rows|
  {
    if |rows| > 0 {
      var init := rows[..|rows| - 1];
      RowErrorsFromRows(init, schema);
      forall e | e in RowErrors(rows, schema)
        ensures exists i :: 0 <= i < |rows| && ValidateRow(rows[i], schema) == Some(e)
      {
        if e in RowErrors(init, schema) {
          var i :| 0 <= i < |init| && ValidateRow(init[i], schema) == Some(e);
          assert init[i] == rows[i];
        } else {
          assert ValidateRow(rows[|rows| - 1], schema) == Some(e);
        }
      }
    }
  }

  /** The aggregated message has a line `fpath: message` for every rejected row of either file. */
  lemma {:induction false} ValidationMessageNamesEveryError(hostsPath: string, hostRows: seq<RawRow>,
                                                            instancesPath: string, instanceRows: seq<RawRow>)
    requires AllShaped(hostRows, HostSchema) && AllShaped(instanceRows, InstanceSchema)
    ensures forall i :: 0 <= i < |hostRows| && ValidateRow(hostRows[i], HostSchema).Some? ==>
      Contains(ValidationMessage(hostsPath, hostRows, instancesPath, instanceRows),
               hostsPath + ": " + Message(ValidateRow(hostRows[i], HostSchema).value))
    ensures forall i :: 0 <= i < |instanceRows| && ValidateRow(instanceRows[i], InstanceSchema).Some? ==>
      Contains(ValidationMessage(hostsPath, hostRows, instancesPath, instanceRows),
               instancesPath + ": " + Message(ValidateRow(instanceRows[i], InstanceSchema).value))
  {
    HostLinesInMessage(hostsPath, hostRows, instancesPath, instanceRows);
    InstanceLinesInMessage(hostsPath, hostRows, instancesPath, instanceRows);
  }

  lemma {:induction false} HostLinesInMessage(hostsPath: string, hostRows: seq<RawRow>,
                                              instancesPath: string, instanceRows: seq<RawRow>)
    requires AllShaped(hostRows, HostSchema) && AllShaped(instanceRows, InstanceSchema)
    ensures forall i :: 0 <= i < |hostRows| && ValidateRow(hostRows[i], HostSchema).Some? ==>
      Contains(ValidationMessage(hostsPath, hostRows, instancesPath, instanceRows),
               hostsPath + ": " + Message(ValidateRow(hostRows[i], HostSchema).value))
  {
    var hostLines := ErrorLines(hostsPath, RowErrors(hostRows, HostSchema));
    var lines := hostLines + ErrorLines(instancesPath, RowErrors(instanceRows, InstanceSchema));
    assert ValidationMessage(hostsPath, hostRows, instancesPath, instanceRows) == "Data validation errors\n" + Join(lines, "\n");
    SliceOfConcat(hostLines, ErrorLines(instancesPath, RowErrors(instanceRows, InstanceSchema)));
    RowLinesInMessage(lines, 0, hostsPath, hostRows, HostSchema);
  }

  lemma {:induction false} InstanceLinesInMessage(hostsPath: string, hostRows: seq<RawRow>,
                                                  instancesPath: string, instanceRows: seq<RawRow>)
    requires AllShaped(hostRows, HostSchema) && AllShaped(instanceRows, InstanceSchema)
    ensures forall i :: 0 <= i < |instanceRows| && ValidateRow(instanceRows[i], InstanceSchema).Some? ==>
      Contains(ValidationMessage(hostsPath, hostRows, instancesPath, instanceRows),
               instancesPath + ": " + Message(ValidateRow(instanceRows[i], InstanceSchema).value))
  {
    var hostLines := ErrorLines(hostsPath, RowErrors(hostRows, HostSchema));
    var instLines := ErrorLines(instancesPath, RowErrors(instanceRows, InstanceSchema));
    var lines := hostLines + instLines;
    assert ValidationMessage(hostsPath, hostRows, instancesPath, instanceRows) == "Data validation errors\n" + Join(lines, "\n");
    SliceOfConcat(hostLines, instLines);
    RowLinesInMessage(lines, |hostLines|, instancesPath, instanceRows, InstanceSchema);
  }

  /** Every rejected row's line appears in a message whose lines hold its file's lines from `off` on. */
  lemma {:induction false} RowLinesInMessage(lines: seq<string>, off: nat, path: string, rows: seq<RawRow>, schema: Schema)
    requires AllShaped(rows, schema)
    requires var fileLines := ErrorLines(path, RowErrors(rows, schema));
      off + |fileLines| <= |lines| && lines[off..off + |fileLines|] == fileLines
    ensures forall i :: 0 <= i < |rows| && ValidateRow(rows[i], schema).Some? ==>
      Contains("Data validation errors\n" + Join(lines, "\n"), path + ": " + Message(ValidateRow(rows[i], schema).value))
  {
    forall i | 0 <= i < |rows| && ValidateRow(rows[i], schema).Some? {
      RowLineInMessage(lines, off, path, rows, schema, i);
    }
  }

  lemma {:induction false} RowLineInMessage(lines: seq<string>, off: nat, path: string, rows: seq<RawRow>, schema: Schema,
                                            i: nat)
    requires AllShaped(rows, schema)
    requires var fileLines := ErrorLines(path, RowErrors(rows, schema));
      off + |fileLines| <= |lines| && lines[off..off + |fileLines|] == fileLines
    requires i < |rows| && ValidateRow(rows[i], schema).Some?
    ensures Contains("Data validation errors\n" + Join(lines, "\n"), path + ": " + Message(ValidateRow(rows[i], schema).value))
  {
    var errors := RowErrors(rows, schema);
    var fileLines := ErrorLines(path, errors);
    RowErrorsInOrder(rows, schema, i);
    var k := Rejected(rows[..i], schema);
    assert k < |errors| == |fileLines|;
    LineOfSlice(lines, off, fileLines, k);
    LineInMessage(lines, off + k);
  }

  /** Each part of a concatenation is the slice at its own offset. */
  lemma {:induction false} SliceOfConcat(a: seq<string>, b: seq<string>)
    ensures (a + b)[0..|a|] == a
    ensures (a + b)[|a|..|a| + |b|] == b
  {
    assert (a + b)[0..|a|] == a;
    assert (a + b)[|a|..] == b;
  }

  /** A line of a slice is the line at the slice's offset plus its index. */
  lemma {:induction false} LineOfSlice(lines: seq<string>, off: nat, part: seq<string>, k: nat)
    requires off + |part| <= |lines| && lines[off..off + |part|] == part && k < |part|
    ensures lines[off + k] == part[k]
  {
    assert lines[off..off + |part|][k] == lines[off + k];
  }

  /** Every line appears in the header followed by the lines joined by newlines. */
  lemma {:induction false} LineInMessage(lines: seq<string>, i: nat)
    requires i < |lines|
    ensures Contains("Data validation errors\n" + Join(lines, "\n"), lines[i])
  {
    JoinContains(lines, "\n", i);
    ContainsAfterPrefix("Data validation errors\n", Join(lines, "\n"), lines[i]);
  }

  // ---- the rows and messages of the broken sample files ----

  lemma {:induction false} NamesOfThree(schema: Schema)
    requires |schema| == 3
    ensures Names(schema) == {schema[0].0, schema[1].0, schema[2].0}
  {
    forall n | n in Names(schema) ensures n in {schema[0].0, schema[1].0, schema[2].0} {
      var i :| 0 <= i < 3 && schema[i].0 == n;
    }
    assert schema[0].0 in Names(schema) && schema[1].0 in Names(schema) && schema[2].0 in Names(schema);
  }

  /** Three distinct field names, none of them the overflow key. */
  lemma {:induction false} ThreeNamesWellFormed(schema: Schema)
    requires |schema| == 3
    requires schema[0].0 != schema[1].0 && schema[0].0 != schema[2].0 && schema[1].0 != schema[2].0
    requires OverflowKey !in {schema[0].0, schema[1].0, schema[2].0}
    ensures WellFormed(schema)
  {
    NamesOfThree(schema);
    var a, b, c := schema[0].0, schema[1].0, schema[2].0;
    assert {a, b, c} == {a} + {b} + {c};
    assert |{a} + {b}| == 2;
  }

  /** Both file schemas are well formed. */
  lemma {:induction false} SchemasWellFormed()
    ensures WellFormed(HostSchema) && WellFormed(InstanceSchema)
  {
    ThreeNamesWellFormed(HostSchema);
    ThreeNamesWellFormed(InstanceSchema);
  }

  /** A row whose three cells all have values. */
  lemma {:induction false} FullRow(row: RawRow, schema: Schema, a: string, b: string, c: string)
    requires |schema| == 3 && WellFormed(schema)
    requires row.cells == map[schema[0].0 := Some(a), schema[1].0 := Some(b), schema[2].0 := Some(c)]
    ensures Shaped(row, schema)
    ensures Present(row) == Names(schema) && |Present(row)| == 3
  {
    NamesOfThree(schema);
  }

  lemma {:induction false} CantBeAString()
    ensures ParseInt("cant_be_a_string").None?
  {
    var s := "cant_be_a_string";
    assert TrimLeft(s) == s;
    assert TrimRight(s) == s;
    assert !IsDigit(s[0]);
  }

  /** A host row whose slot count is not a number. */
  lemma {:induction false} SampleBadSlotCount()
    ensures var row := RawRow(map["hostID" := Some("4"), "numberOfSlots" := Some("cant_be_a_string"),
                                  "datacentreID" := Some("1")], None);
      && Shaped(row, HostSchema)
      && ValidateRow(row, HostSchema) == Some(NotInteger("numberOfSlots", "cant_be_a_string"))
  {
    var row := RawRow(map["hostID" := Some("4"), "numberOfSlots" := Some("cant_be_a_string"),
                          "datacentreID" := Some("1")], None);
    SchemasWellFormed();
    FullRow(row, HostSchema, "4", "cant_be_a_string", "1");
    CantBeAString();
    assert FieldTypeError(row, HostSchema[2..]) == None;
    assert FieldTypeError(row, HostSchema[1..]) == Some(NotInteger("numberOfSlots", "cant_be_a_string"));
  }

  /** The message for that row, laid out piece by piece. */
  lemma {:induction false} SampleBadSlotCountMessage()
    ensures Message(NotInteger("numberOfSlots", "cant_be_a_string")) ==
      "Invalid field <name> " + ("[" + "numberOfSlots" + "]") + " <value> " + ("[" + "cant_be_a_string" + "]")
      + " <error> [invalid literal for int() with base 10: " + "'cant_be_a_string'" + "]"
  {
    assert StrRepr("cant_be_a_string") == "'cant_be_a_string'";
  }

  /** A host row with only its hostID. */
  lemma {:induction false} SampleMissingFields()
    ensures var row := RawRow(map["hostID" := Some("5"), "numberOfSlots" := None, "datacentreID" := None], None);
      && Shaped(row, HostSchema)
      && ValidateRow(row, HostSchema) == Some(MissingFields(["numberOfSlots", "datacentreID"]))
  {
    var row := RawRow(map["hostID" := Some("5"), "numberOfSlots" := None, "datacentreID" := None], None);
    NamesOfThree(HostSchema);
    assert Present(row) == {"hostID"};
    assert |Present(row)| == 1;
    assert row.cells.Keys == Names(HostSchema);
    assert HostSchema[1..][1..] == HostSchema[2..] && HostSchema[2..][1..] == [];
    assert Absent(row, HostSchema[2..]) == ["datacentreID"];
    assert Absent(row, HostSchema[1..]) == ["numberOfSlots"] + ["datacentreID"];
    assert Absent(row, HostSchema) == [] + Absent(row, HostSchema[1..]);
    assert Absent(row, HostSchema) == ["numberOfSlots", "datacentreID"];
    assert PresentCount(row) == 1;
  }

  /** The message for that row names the missing fields as unicode strings. */
  lemma {:induction false} SampleMissingFieldsMessage()
    ensures Message(MissingFields(["numberOfSlots", "datacentreID"]))
      == "Missing fields " + ("[" + ("u'numberOfSlots'" + ", " + "u'datacentreID'") + "]")
  {
    var items := ["numberOfSlots", "datacentreID"];
    var first, second := "u'numberOfSlots'", "u'datacentreID'";
    assert "u" + StrRepr("datacentreID") == second;
    assert "u" + StrRepr("numberOfSlots") == first;
    assert items[1..] == ["datacentreID"];
    assert Quoted(items[1..], "u") == [second];
    assert Quoted(items, "u") == [first, second];
    assert Join([first, second], ", ") == first + ", " + second;
  }

  /** A host row with one cell too many. */
  lemma {:induction false} SampleTooManyValues()
    ensures var row := RawRow(map["hostID" := Some("6"), "numberOfSlots" := Some("2"), "datacentreID" := Some("1")],
                              Some(["extra_value"]));
      && Shaped(row, HostSchema)
      && ValidateRow(row, HostSchema) == Some(TooManyValues(Some(["extra_value"])))
  {
    var row := RawRow(map["hostID" := Some("6"), "numberOfSlots" := Some("2"), "datacentreID" := Some("1")],
                      Some(["extra_value"]));
    SchemasWellFormed();
    FullRow(row, HostSchema, "6", "2", "1");
  }

  /** The message for that row lists the overflow as byte strings. */
  lemma {:induction false} SampleTooManyValuesMessage()
    ensures Message(TooManyValues(Some(["extra_value"]))) == "Too many values " + ("[" + "'extra_value'" + "]")
  {
    var q := "'extra_value'";
    assert "" + StrRepr("extra_value") == q;
    assert ["extra_value"][1..] == [];
    assert Quoted(["extra_value"], "") == [q];
    assert Join([q], ", ") == q;
  }

  /** An instance row with one cell too many. */
  lemma {:induction false} SampleInstanceTooManyValues()
    ensures var row := RawRow(map["instanceID" := Some("9"), "customerID" := Some("8"), "hostID" := Some("7")],
                              Some(["1"]));
      && Shaped(row, InstanceSchema)
      && ValidateRow(row, InstanceSchema) == Some(TooManyValues(Some(["1"])))
      && Message(ValidateRow(row, InstanceSchema).value) == "Too many values " + ("[" + "'1'" + "]")
  {
    var row := RawRow(map["instanceID" := Some("9"), "customerID" := Some("8"), "hostID" := Some("7")], Some(["1"]));
    SchemasWellFormed();
    FullRow(row, InstanceSchema, "9", "8", "7");
  }
}
