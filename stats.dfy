/**
 * The `Stats` object: it loads and validates the two inputs, then computes
 * host clustering, datacentre clustering and slot usage into its fields and
 * renders the report from them. Each method is proved against the
 * specification functions of the other modules.
 *
 * Reading the CSV files is not modelled: the loader receives the rows the
 * reader produced. Writing the report is not modelled either: `OutputData`
 * returns the text that would be written. Dictionary iteration orders are
 * arguments.
 */
module StatsCore {
  import opened Wrappers
  import opened TextUtil
  import opened Validation
  import opened Clustering
  import opened Slots
  import opened Report

  // ---- the loader's error bookkeeping ----

  /**
   * The `defaultdict(list)` of errors per path after appending `errors` under
   * `path`: a path becomes a key with its first error only.
   */
  function AddErrors(m: map<string, seq<RowError>>, path: string, errors: seq<RowError>): map<string, seq<RowError>>
  {
    if errors == [] then m else m[path := (if path in m then m[path] else []) + errors]
  }

  /** `fpath_errors` after the errors `a` were appended under `p` and then the errors `b` under `q`. */
  function Grouped(p: string, a: seq<RowError>, q: string, b: seq<RowError>): map<string, seq<RowError>>
  {
    AddErrors(AddErrors(map[], p, a), q, b)
  }

  /** The order in which the groups are reported: the hosts file's group first. */
  function GroupOrder(p: string, q: string, m: map<string, seq<RowError>>): (order: seq<string>)
    ensures forall i :: 0 <= i < |order| ==> order[i] in m
  {
    (if p in m then [p] else []) + (if q != p && q in m then [q] else [])
  }

  /** One group's text: its error lines joined by newlines. */
  function GroupText(m: map<string, seq<RowError>>, path: string): string
    requires path in m
  {
    Join(ErrorLines(path, m[path]), "\n")
  }

  function GroupTexts(m: map<string, seq<RowError>>, order: seq<string>): seq<string>
    requires forall i :: 0 <= i < |order| ==> order[i] in m
  {
    seq(|order|, i requires 0 <= i < |order| => GroupText(m, order[i]))
  }

  /** One more path in the order is one more group text. */
  lemma {:induction false} GroupTextsStep(m: map<string, seq<RowError>>, order: seq<string>, k: nat)
    requires k < |order| && forall i :: 0 <= i < |order| ==> order[i] in m
    ensures GroupTexts(m, order[..k + 1]) == GroupTexts(m, order[..k]) + [GroupText(m, order[k])]
  {
  }

  lemma {:induction false} ErrorLinesAppend(p: string, a: seq<RowError>, b: seq<RowError>)
    ensures ErrorLines(p, a + b) == ErrorLines(p, a) + ErrorLines(p, b)
  {
  }

  /**
   * Joining the groups gives the host file's lines followed by the instance
   * file's lines, whether the two paths are different or the same.
   */
  lemma {:induction false} GroupedMessage(p: string, a: seq<RowError>, q: string, b: seq<RowError>)
    requires a != [] || b != []
    ensures var m := Grouped(p, a, q, b);
      Join(GroupTexts(m, GroupOrder(p, q, m)), "\n") == Join(ErrorLines(p, a) + ErrorLines(q, b), "\n")
  {
    var m := Grouped(p, a, q, b);
    var order := GroupOrder(p, q, m);
    var la, lb := ErrorLines(p, a), ErrorLines(q, b);
    assert [] + a == a && [] + b == b;
    if p == q {
      ErrorLinesAppend(p, a, b);
      if a == [] {
        assert a + b == b;
      } else if b == [] {
        assert a + b == a;
      }
      assert m == map[p := a + b];
      assert order == [p];
      assert GroupTexts(m, order) == [Join(la + lb, "\n")];
    } else if a == [] {
      assert la + lb == lb;
      assert [] + b == b && m[q] == b;
      assert order == [q];
      assert GroupTexts(m, order) == [Join(lb, "\n")];
    } else if b == [] {
      assert la + lb == la;
      assert order == [p];
      assert GroupTexts(m, order) == [Join(la, "\n")];
    } else {
      assert [] + b == b && m[q] == b && m[p] == a;
      assert order == [p, q];
      var texts := GroupTexts(m, order);
      assert texts == [Join(la, "\n"), Join(lb, "\n")];
      assert texts[1..] == [Join(lb, "\n")];
      JoinAppend(la, lb, "\n");
    }
  }

  /** Appending one more error under a path extends that path's list, creating it on the first error. */
  lemma {:induction false} AddErrorsAppend(m: map<string, seq<RowError>>, path: string, errors: seq<RowError>, e: RowError)
    ensures var g := AddErrors(m, path, errors);
      AddErrors(m, path, errors + [e]) == g[path := (if path in g then g[path] else []) + [e]]
  {
    var prior := if path in m then m[path] else [];
    assert prior + (errors + [e]) == (prior + errors) + [e];
    if errors == [] {
      assert errors + [e] == [e];
    }
  }

  /** One more row adds its error, if any, to the file's list. */
  lemma {:induction false} RowErrorsStep(rows: seq<RawRow>, schema: Schema, i: nat)
    requires i < |rows| && AllShaped(rows, schema)
    ensures AllShaped(rows[..i], schema) && AllShaped(rows[..i + 1], schema)
    ensures RowErrors(rows[..i + 1], schema) ==
      RowErrors(rows[..i], schema) + match ValidateRow(rows[i], schema) case None => [] case Some(e) => [e]
  {
    assert rows[..i + 1][..i] == rows[..i];
  }

  // ---- the computations, on the loaded rows ----

  /** The counting loop of `get_host_clustering`. */
  method CountHostClustering(instances: seq<RawRow>) returns (counts: Clusters)
    ensures counts == CountPass(HostPlacements(instances))
  {
    ghost var ps := HostPlacements(instances);
    counts := map[];
    for i := 0 to |instances|
      invariant counts == CountPass(ps[..i])
    {
      var customerId := Cell(instances[i], "customerID");
      var hostId := Cell(instances[i], "hostID");
      counts := Bump(counts, customerId, hostId);
      CountPassStep(ps, i);
    }
    assert ps[..|instances|] == ps;
  }

  /** The scan for the first host with that hostID, stopping at the first match. */
  method LookupDatacentre(hosts: seq<RawRow>, hostId: string) returns (dc: Option<string>)
    ensures dc == DatacentreOf(hosts, hostId)
  {
    var j := 0;
    while j < |hosts|
      invariant 0 <= j <= |hosts|
      invariant forall k :: 0 <= k < j ==> Cell(hosts[k], "hostID") != hostId
    {
      if Cell(hosts[j], "hostID") == hostId {
        assert FirstMatch(hosts, hostId) == Some(j);
        return Some(Cell(hosts[j], "datacentreID"));
      }
      j := j + 1;
    }
    return None;
  }

  /**
   * The counting loop of `get_data_center_clustering`: it stops at the
   * first instance whose host is not listed, with the counts so far.
   */
  method CountDataCenterClustering(instances: seq<RawRow>, hosts: seq<RawRow>)
    returns (counts: Clusters, err: Option<Unresolved>)
    ensures err.None? <==> FirstUnresolved(instances, hosts).None?
    ensures err.None? ==> counts == CountPass(DcPlacements(instances, hosts))
    ensures err.Some? ==>
      var k := FirstUnresolved(instances, hosts).value;
      && err.value == Unresolved(Cell(instances[k], "instanceID"), Cell(instances[k], "hostID"))
      && counts == CountPass(DcPlacements(instances, hosts)[..k])
  {
    ghost var ps := DcPlacements(instances, hosts);
    counts := map[];
    for i := 0 to |instances|
      invariant counts == CountPass(ps[..i])
      invariant forall j :: 0 <= j < i ==> DatacentreOf(hosts, Cell(instances[j], "hostID")).Some?
    {
      var customerId := Cell(instances[i], "customerID");
      var hostId := Cell(instances[i], "hostID");
      var dc := LookupDatacentre(hosts, hostId);
      if dc.None? {
        assert FirstUnresolved(instances, hosts) == Some(i);
        return counts, Some(Unresolved(Cell(instances[i], "instanceID"), hostId));
      }
      ResolvedStep(instances, hosts, i);
      counts := Bump(counts, customerId, dc.value);
      assert ps[i] == (customerId, dc.value);
      CountPassStep(ps, i);
    }
    assert ps[..|instances|] == ps;
    return counts, None;
  }

  /** The number of instances placed on `hostId`. */
  method UsedSlots(instances: seq<RawRow>, hostId: string) returns (used: nat)
    ensures used == HostCount(instances, hostId)
  {
    used := 0;
    for j := 0 to |instances|
      invariant used == HostCount(instances[..j], hostId)
    {
      if Cell(instances[j], "hostID") == hostId {
        used := used + 1;
      }
      assert instances[..j + 1][..j] == instances[..j];
    }
    assert instances[..|instances|] == instances;
  }

  /** The loop of `get_slot_usage`: hosts in order, stopping at the first overflow. */
  method ComputeSlotUsage(hosts: seq<RawRow>, instances: seq<RawRow>)
    returns (usage: map<string, Usage>, err: Option<Overflow>)
    ensures SlotState(usage, err) == SlotPass(hosts, instances)
  {
    usage := map[];
    for i := 0 to |hosts|
      invariant SlotPass(hosts[..i], instances) == SlotState(usage, None)
    {
      var slotCount := SlotCount(hosts[i]);
      var hostId := Cell(hosts[i], "hostID");
      var used := UsedSlots(instances, hostId);
      assert hosts[..i + 1][..i] == hosts[..i];
      if used > slotCount {
        SlotPassStops(hosts, instances, i + 1);
        return usage, Some(Overflow(hostId, used, slotCount));
      }
      usage := usage[hostId := Usage(slotCount, used, slotCount - used)];
    }
    assert hosts[..|hosts|] == hosts;
    return usage, None;
  }

  /**
   * The `Stats` object after loading: the validated rows, the output path,
   * and the three result dictionaries.
   */
  class Stats {
    const outputPath: string
    const hostsData: seq<RawRow>
    const instanceData: seq<RawRow>
    var hostClustering: Clusters
    var dataCenterClustering: Clusters
    var slotUsage: map<string, Usage>

    /**
     * Every row passed validation, every customer entry has at least one key,
     * and every slot entry is within capacity with used + available == total.
     */
    ghost predicate Valid()
      reads this
    {
      && AllShaped(hostsData, HostSchema) && AllValid(hostsData, HostSchema)
      && AllShaped(instanceData, InstanceSchema) && AllValid(instanceData, InstanceSchema)
      && SharesNonEmpty(hostClustering) && SharesNonEmpty(dataCenterClustering)
      && forall h :: h in slotUsage ==>
           slotUsage[h].used <= slotUsage[h].total && slotUsage[h].used + slotUsage[h].available == slotUsage[h].total
    }

    constructor (outputPath: string, hostsData: seq<RawRow>, instanceData: seq<RawRow>)
      requires AllShaped(hostsData, HostSchema) && AllValid(hostsData, HostSchema)
      requires AllShaped(instanceData, InstanceSchema) && AllValid(instanceData, InstanceSchema)
      ensures Valid()
      ensures this.outputPath == outputPath && this.hostsData == hostsData && this.instanceData == instanceData
      ensures hostClustering == map[] && dataCenterClustering == map[] && slotUsage == map[]
    {
      this.outputPath := outputPath;
      this.hostsData := hostsData;
      this.instanceData := instanceData;
      hostClustering := map[];
      dataCenterClustering := map[];
      slotUsage := map[];
    }

    /**
     * `get_host_clustering`: count each customer's instances per host, then
     * replace each count by its rounded percentage.
     */
    method GetHostClustering()
      requires Valid()
      modifies this`hostClustering
      ensures Valid()
      ensures hostClustering == Percentages(CountPass(HostPlacements(instanceData)))
    {
      var counts := CountHostClustering(instanceData);
      hostClustering := ToPercentages(counts);
    }

    /**
     * `get_data_center_clustering`. If some instance's host is not listed the
     * computation stops at the first such instance with the counts of the
     * instances before it left behind (whole counts, kept in the field's
     * hundredths scale, so that a count of 1 reads as 1.0); otherwise every
     * customer's counts per datacentre are replaced by rounded percentages.
     */
    method GetDataCenterClustering() returns (err: Option<Unresolved>)
      requires Valid()
      modifies this`dataCenterClustering
      ensures Valid()
      ensures err.None? <==> FirstUnresolved(instanceData, hostsData).None?
      ensures err.None? ==> dataCenterClustering == Percentages(CountPass(DcPlacements(instanceData, hostsData)))
      ensures err.Some? ==>
        var k := FirstUnresolved(instanceData, hostsData).value;
        && err.value == Unresolved(Cell(instanceData[k], "instanceID"), Cell(instanceData[k], "hostID"))
        && dataCenterClustering == CountsAsHundredths(CountPass(DcPlacements(instanceData, hostsData)[..k]))
    {
      var counts;
      counts, err := CountDataCenterClustering(instanceData, hostsData);
      if err.Some? {
        HundredthsNonEmpty(counts);
        dataCenterClustering := CountsAsHundredths(counts);
      } else {
        dataCenterClustering := ToPercentages(counts);
      }
    }

    /**
     * `get_slot_usage`: the stored entries and the failure are those of the
     * slot pass over the hosts in order.
     */
    method GetSlotUsage() returns (err: Option<Overflow>)
      requires Valid()
      modifies this`slotUsage
      ensures Valid()
      ensures SlotState(slotUsage, err) == SlotPass(hostsData, instanceData)
    {
      var usage;
      usage, err := ComputeSlotUsage(hostsData, instanceData);
      slotUsage := usage;
      SlotPassEntries(hostsData, instanceData);
    }

    /**
     * `output_data`, given the iteration order of each dictionary: the text
     * written to the output file.
     */
    method OutputData(hostOrder: seq<string>, dcOrder: seq<string>, slotOrder: seq<string>) returns (text: string)
      requires Valid()
      requires IsOrderOf(hostOrder, hostClustering.Keys)
      requires IsOrderOf(dcOrder, dataCenterClustering.Keys)
      requires IsOrderOf(slotOrder, slotUsage.Keys)
      ensures text == ReportText(hostClustering, hostOrder, dataCenterClustering, dcOrder, slotUsage, slotOrder)
    {
      var hostTop, hostBest := SelectTop(hostClustering, hostOrder);
      var dcTop, dcBest := SelectTop(dataCenterClustering, dcOrder);
      var available := AvailableHosts(slotUsage, slotOrder);
      text := Render(hostTop, hostBest, dcTop, dcBest, available);
    }
  }

  /** Rescaling the counts keeps every customer's keys, so none becomes empty. */
  lemma {:induction false} HundredthsNonEmpty(m: Clusters)
    requires SharesNonEmpty(m)
    ensures SharesNonEmpty(CountsAsHundredths(m))
  {
    var r := CountsAsHundredths(m);
    forall c | c in r ensures r[c].shares != map[] {
      var key :| key in m[c].shares;
      assert key in r[c].shares;
    }
  }

  lemma {:induction false} ResolvedStep(instances: seq<RawRow>, hosts: seq<RawRow>, i: nat)
    requires i < |instances|
    requires forall j :: 0 <= j < i ==> DatacentreOf(hosts, Cell(instances[j], "hostID")).Some?
    requires DatacentreOf(hosts, Cell(instances[i], "hostID")).Some?
    ensures forall j :: 0 <= j < i + 1 ==> DatacentreOf(hosts, Cell(instances[j], "hostID")).Some?
  {
  }

  /** One more placement is one more bump. */
  lemma {:induction false} CountPassStep(ps: seq<Placement>, i: nat)
    requires i < |ps|
    ensures CountPass(ps[..i + 1]) == Bump(CountPass(ps[..i]), ps[i].0, ps[i].1)
  {
    assert ps[..i + 1][..i] == ps[..i];
  }

  /**
   * One file's `with` block: every row is validated and kept, and each
   * rejected row's error is appended to the list under the file's path.
   */
  method ReadRows(path: string, rows: seq<RawRow>, schema: Schema, fpathErrors: map<string, seq<RowError>>)
    returns (data: seq<RawRow>, updated: map<string, seq<RowError>>)
    requires AllShaped(rows, schema)
    ensures data == rows
    ensures updated == AddErrors(fpathErrors, path, RowErrors(rows, schema))
  {
    data := [];
    updated := fpathErrors;
    for i := 0 to |rows|
      invariant data == rows[..i]
      invariant AllShaped(rows[..i], schema)
      invariant updated == AddErrors(fpathErrors, path, RowErrors(rows[..i], schema))
    {
      ReadRowsStep(path, rows, schema, fpathErrors, i);
      var e := ValidateRow(rows[i], schema);
      if e.Some? {
        var errors := if path in updated then updated[path] else [];
        updated := updated[path := errors + [e.value]];
      }
      data := data + [rows[i]];
    }
    assert rows[..|rows|] == rows;
  }

  /** One more row appends its error, if any, under the file's path. */
  lemma {:induction false} ReadRowsStep(path: string, rows: seq<RawRow>, schema: Schema,
                                        fpathErrors: map<string, seq<RowError>>, i: nat)
    requires i < |rows| && AllShaped(rows, schema)
    ensures AllShaped(rows[..i], schema) && AllShaped(rows[..i + 1], schema)
    ensures var g := AddErrors(fpathErrors, path, RowErrors(rows[..i], schema));
      AddErrors(fpathErrors, path, RowErrors(rows[..i + 1], schema)) ==
        match ValidateRow(rows[i], schema)
        case None => g
        case Some(e) => g[path := (if path in g then g[path] else []) + [e]]
  {
    RowErrorsStep(rows, schema, i);
    var before := RowErrors(rows[..i], schema);
    match ValidateRow(rows[i], schema)
    case None =>
      assert RowErrors(rows[..i + 1], schema) == before + [] == before;
    case Some(e) =>
      AddErrorsAppend(fpathErrors, path, before, e);
  }

  /** The exception text: the header, then every group's text, the groups joined by newlines. */
  method ErrorReport(fpathErrors: map<string, seq<RowError>>, order: seq<string>) returns (message: string)
    requires forall i :: 0 <= i < |order| ==> order[i] in fpathErrors
    ensures message == "Data validation errors\n" + Join(GroupTexts(fpathErrors, order), "\n")
  {
    var parts: seq<string> := [];
    for k := 0 to |order|
      invariant parts == GroupTexts(fpathErrors, order[..k])
    {
      var path := order[k];
      GroupTextsStep(fpathErrors, order, k);
      parts := parts + [Join(ErrorLines(path, fpathErrors[path]), "\n")];
    }
    assert order[..|order|] == order;
    message := "Data validation errors\n" + Join(parts, "\n");
  }

  /**
   * `Stats(hosts_fpath, instances_fpath, output_fpath)`: every row of both
   * files is read and validated; if any row was rejected the object is not
   * created and the error names every rejected row, host file first.
   */
  method Load(hostsPath: string, hostRows: seq<RawRow>, instancesPath: string, instanceRows: seq<RawRow>,
              outputPath: string) returns (r: Result<Stats, string>)
    requires AllShaped(hostRows, HostSchema) && AllShaped(instanceRows, InstanceSchema)
    ensures r.Failure? <==> !(AllValid(hostRows, HostSchema) && AllValid(instanceRows, InstanceSchema))
    ensures r.Failure? ==> r.error == ValidationMessage(hostsPath, hostRows, instancesPath, instanceRows)
    ensures r.Success? ==>
      && fresh(r.value) && r.value.Valid()
      && r.value.outputPath == outputPath && r.value.hostsData == hostRows && r.value.instanceData == instanceRows
      && r.value.hostClustering == map[] && r.value.dataCenterClustering == map[] && r.value.slotUsage == map[]
  {
    var fpathErrors: map<string, seq<RowError>> := map[];
    var hostsData, instanceData;
    hostsData, fpathErrors := ReadRows(hostsPath, hostRows, HostSchema, fpathErrors);
    instanceData, fpathErrors := ReadRows(instancesPath, instanceRows, InstanceSchema, fpathErrors);
    ghost var hostErrors, instanceErrors := RowErrors(hostRows, HostSchema), RowErrors(instanceRows, InstanceSchema);
    assert fpathErrors == Grouped(hostsPath, hostErrors, instancesPath, instanceErrors);
    SchemasWellFormed();
    RowErrorsCollect(hostRows, HostSchema);
    RowErrorsCollect(instanceRows, InstanceSchema);
    if fpathErrors != map[] {
      GroupedMessage(hostsPath, hostErrors, instancesPath, instanceErrors);
      var message := ErrorReport(fpathErrors, GroupOrder(hostsPath, instancesPath, fpathErrors));
      return Failure(message);
    }
    var stats := new Stats(outputPath, hostsData, instanceData);
    return Success(stats);
  }
}
