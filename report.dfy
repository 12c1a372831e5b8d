/**
 * Report selection and formatting (`output_data`): the customer with the
 * largest single host percentage, the customer with the largest single
 * datacentre percentage, the hosts with free slots, and the text written
 * out. Dictionary iteration order is an explicit `order` argument.
 */
module Report {
  import opened Wrappers
  import opened TextUtil
  import opened Clustering
  import opened Slots

  /** `max(d.values())` of a non-empty map. */
  ghost function Largest(m: map<string, nat>): (v: nat)
    requires m != map[]
    ensures v in m.Values && forall k :: k in m ==> m[k] <= v
    decreases |m|
  {
    var k :| k in m;
    var rest := m - {k};
    assert rest.Keys == m.Keys - {k};
    if rest == map[] then
      assert m.Keys == rest.Keys + {k};
      m[k]
    else
      var r := Largest(rest);
      assert forall j :: j in m ==> j == k || (j in rest && rest[j] == m[j]);
      var w :| w in rest && rest[w] == r;
      assert m[w] == r;
      if m[k] >= r then m[k] else r
  }

  /** The loop behind `max(customer_data['hosts'].values())`. */
  method LargestShare(m: map<string, nat>) returns (v: nat)
    requires m != map[]
    ensures v in m.Values && forall k :: k in m ==> m[k] <= v
    ensures v == Largest(m)
  {
    var k0 :| k0 in m;
    v := m[k0];
    var todo := m.Keys - {k0};
    while todo != {}
      invariant todo <= m.Keys
      invariant v in m.Values
      invariant forall k :: k in m && k !in todo ==> m[k] <= v
      decreases todo
    {
      var k :| k in todo;
      if m[k] > v {
        v := m[k];
      }
      todo := todo - {k};
    }
    var w := Largest(m);
    assert v <= w && w <= v;
  }

  /** `order` lists every key of the dictionary exactly once: an iteration order. */
  predicate IsOrderOf(order: seq<string>, keys: set<string>)
  {
    && (forall i, j :: 0 <= i < j < |order| ==> order[i] != order[j])
    && (forall i :: 0 <= i < |order| ==> order[i] in keys)
    && (forall k :: k in keys ==> k in order)
  }

  predicate SharesNonEmpty(cl: Clusters)
  {
    forall c :: c in cl ==> cl[c].shares != map[]
  }

  /**
   * The running maximum over `order`, starting from (None, 0) and replacing it
   * only on a strictly larger customer maximum.
   */
  ghost function TopFold(cl: Clusters, order: seq<string>): (r: (Option<string>, nat))
    requires SharesNonEmpty(cl)
    requires forall i :: 0 <= i < |order| ==> order[i] in cl
    ensures r.0.None? <==> r.1 == 0
    decreases |order|
  {
    if |order| == 0 then (None, 0)
    else
      var prev := TopFold(cl, order[..|order| - 1]);
      var c := order[|order| - 1];
      var mx := Largest(cl[c].shares);
      if mx > prev.1 then (Some(c), mx) else prev
  }

  /** The selection loop of `output_data` over one clustering. */
  method SelectTop(cl: Clusters, order: seq<string>) returns (top: Option<string>, best: nat)
    requires SharesNonEmpty(cl)
    requires forall i :: 0 <= i < |order| ==> order[i] in cl
    ensures (top, best) == TopFold(cl, order)
  {
    top, best := None, 0;
    for i := 0 to |order|
      invariant (top, best) == TopFold(cl, order[..i])
    {
      assert order[..i + 1][..i] == order[..i];
      var mx := LargestShare(cl[order[i]].shares);
      if mx > best {
        best := mx;
        top := Some(order[i]);
      }
    }
    assert order[..|order|] == order;
  }

  /**
   * The selected value is at least every customer's maximum; a customer is
   * selected exactly when that value is positive, and it is the first in
   * iteration order that attains it (ties go to the earlier customer).
   */
  lemma {:induction false} TopFoldChoice(cl: Clusters, order: seq<string>)
    requires SharesNonEmpty(cl)
    requires forall i :: 0 <= i < |order| ==> order[i] in cl
    ensures var r := TopFold(cl, order);
      && (forall i :: 0 <= i < |order| ==> Largest(cl[order[i]].shares) <= r.1)
      && (r.0.None? <==> r.1 == 0)
      && (r.0.Some? ==>
            exists i :: 0 <= i < |order| && order[i] == r.0.value
              && Largest(cl[order[i]].shares) == r.1
              && forall j :: 0 <= j < i ==> Largest(cl[order[j]].shares) < r.1)
    decreases |order|
  {
    if |order| > 0 {
      var init := order[..|order| - 1];
      TopFoldChoice(cl, init);
      assert forall i :: 0 <= i < |init| ==> init[i] == order[i];
      var prev := TopFold(cl, init);
      var r := TopFold(cl, order);
      if r != prev {
        var n := |order| - 1;
        assert forall j :: 0 <= j < n ==> Largest(cl[order[j]].shares) <= prev.1 < r.1;
      } else if r.0.Some? {
        var i :| 0 <= i < |init| && init[i] == r.0.value
          && Largest(cl[init[i]].shares) == r.1
          && forall j :: 0 <= j < i ==> Largest(cl[init[j]].shares) < r.1;
        assert order[i] == r.0.value;
      }
    }
  }

  /** Over a full iteration order: nobody is selected exactly when every customer's maximum is 0. */
  lemma {:induction false} TopFoldNone(cl: Clusters, order: seq<string>)
    requires SharesNonEmpty(cl) && IsOrderOf(order, cl.Keys)
    ensures TopFold(cl, order).0.None? <==> forall c :: c in cl ==> Largest(cl[c].shares) == 0
  {
    TopFoldChoice(cl, order);
    if TopFold(cl, order).0.Some? {
      var i :| 0 <= i < |order| && order[i] == TopFold(cl, order).0.value
        && Largest(cl[order[i]].shares) == TopFold(cl, order).1;
    } else {
      forall c | c in cl ensures Largest(cl[c].shares) == 0 {
        var i :| 0 <= i < |order| && order[i] == c;
      }
    }
  }

  /** `[h for h, u in slot_usage.iteritems() if u['available'] > 0]` */
  function AvailableHosts(usage: map<string, Usage>, order: seq<string>): (hs: seq<string>)
    requires forall i :: 0 <= i < |order| ==> order[i] in usage
    ensures forall h :: h in hs <==> h in order && usage[h].available > 0
    decreases |order|
  {
    if |order| == 0 then []
    else
      var h := order[|order| - 1];
      var prev := AvailableHosts(usage, order[..|order| - 1]);
      assert forall x :: x in order <==> x in order[..|order| - 1] || x == h;
      prev + if usage[h].available > 0 then [h] else []
  }

  /** Over a full iteration order the list holds exactly the hosts with free slots. */
  lemma {:induction false} AvailableHostsExact(usage: map<string, Usage>, order: seq<string>)
    requires IsOrderOf(order, usage.Keys)
    ensures forall h :: h in AvailableHosts(usage, order) <==> h in usage && usage[h].available > 0
  {
  }

  /** Any two entries of `hs` appear in `order`, in the same relative order. */
  predicate KeepsOrder(hs: seq<string>, order: seq<string>)
  {
    forall i, j :: 0 <= i < j < |hs| ==> InOrder(hs[i], hs[j], order)
  }

  /** `x` occurs in `order` before an occurrence of `y`. */
  predicate InOrder(x: string, y: string, order: seq<string>)
  {
    exists a, b :: 0 <= a < b < |order| && order[a] == x && order[b] == y
  }

  /** The list keeps the relative order of `order`. */
  lemma {:induction false} AvailableHostsInOrder(usage: map<string, Usage>, order: seq<string>)
    requires forall i :: 0 <= i < |order| ==> order[i] in usage
    ensures KeepsOrder(AvailableHosts(usage, order), order)
    decreases |order|
  {
    if |order| > 0 {
      var init := order[..|order| - 1];
      AvailableHostsInOrder(usage, init);
      var hs, prev := AvailableHosts(usage, order), AvailableHosts(usage, init);
      forall i, j | 0 <= i < j < |hs| ensures InOrder(hs[i], hs[j], order) {
        assert hs[i] == prev[i];
        if j < |prev| {
          assert hs[j] == prev[j];
          assert InOrder(prev[i], prev[j], init);
          var a, b :| 0 <= a < b < |init| && init[a] == prev[i] && init[b] == prev[j];
          assert order[a] == hs[i] && order[b] == hs[j];
        } else {
          assert hs[j] == order[|order| - 1];
          assert prev[i] in prev;
          var a :| 0 <= a < |init| && init[a] == prev[i];
          assert order[a] == hs[i];
        }
      }
    }
  }

  /** Over an iteration order, which lists each host once, no host is listed twice. */
  lemma {:induction false} AvailableHostsDistinct(usage: map<string, Usage>, order: seq<string>)
    requires IsOrderOf(order, usage.Keys)
    ensures var hs := AvailableHosts(usage, order);
      forall i, j :: 0 <= i < j < |hs| ==> hs[i] != hs[j]
  {
    AvailableHostsInOrder(usage, order);
    var hs := AvailableHosts(usage, order);
    forall i, j | 0 <= i < j < |hs| ensures hs[i] != hs[j] {
      assert InOrder(hs[i], hs[j], order);
    }
  }

  /** `str(round(x, 2))` for a percentage given in hundredths: 6000 is "60.0", 6667 is "66.67". */
  function PercentText(h: nat): (r: string)
    ensures var w := NatText(h / 100); |r| > |w| + 1 && r[..|w|] == w && r[|w|] == '.'
    ensures var f := r[|NatText(h / 100)| + 1..];
      && 1 <= |f| <= 2 && AllDigits(f)
      && (if |f| == 1 then 10 * DigitsValue(f) else DigitsValue(f)) == h % 100
      && (h % 100 != 0 ==> f[|f| - 1] != '0')
  {
    var w, f := NatText(h / 100), FractionText(h % 100);
    assert (w + "." + f)[|w| + 1..] == f;
    w + "." + f
  }

  /**
   * The digits after the point: one digit when the second decimal is zero,
   * two otherwise, so a trailing zero appears only for a whole number.
   */
  function FractionText(frac: nat): (f: string)
    requires frac < 100
    ensures 1 <= |f| <= 2 && AllDigits(f)
    ensures (if |f| == 1 then 10 * DigitsValue(f) else DigitsValue(f)) == frac
    ensures frac != 0 ==> f[|f| - 1] != '0'
  {
    if frac == 0 then "0"
    else if frac % 10 == 0 then [DigitChar(frac / 10)]
    else
      var f := [DigitChar(frac / 10), DigitChar(frac % 10)];
      assert f[..1] == [DigitChar(frac / 10)];
      f
  }

  /** A whole count, stored as hundredths, prints as the count with one decimal place. */
  lemma {:induction false} CountText(n: nat)
    ensures PercentText(100 * n) == NatText(n) + ".0"
  {
    assert (100 * n) / 100 == n && (100 * n) % 100 == 0;
  }

  /** A report line is written only for a customer id that is truthy: present and non-empty. */
  predicate Shown(top: Option<string>)
  {
    top.Some? && top.value != ""
  }

  function ClusterLine(title: string, top: Option<string>, pct: nat): string
  {
    if Shown(top) then LineHead(title, top.value) + (PercentText(pct) + "\n") else ""
  }

  /** The start of a clustering line: title, colon, customerID and the comma before the percentage. */
  function LineHead(title: string, customer: string): string
  {
    title + ":" + customer + ","
  }

  function AvailableLine(hosts: seq<string>): string
  {
    if |hosts| > 0 then "AvailableHosts:" + Join(hosts, ",") else ""
  }

  /** The text `output_data` writes: the present lines in order, the last one without a newline. */
  function Render(hostTop: Option<string>, hostPct: nat, dcTop: Option<string>, dcPct: nat,
                  hosts: seq<string>): (text: string)
    ensures text == "" <==> !Shown(hostTop) && !Shown(dcTop) && hosts == []
  {
    ClusterLine("HostClustering", hostTop, hostPct)
      + (ClusterLine("DatacentreClustering", dcTop, dcPct) + AvailableLine(hosts))
  }

  /**
   * The whole host line, when shown, opens the text: title, customer, percentage
   * and newline. Without a datacentre line the host list follows it directly.
   */
  lemma {:induction false} RenderStartsWithHostLine(hostTop: Option<string>, hostPct: nat, dcTop: Option<string>, dcPct: nat,
                                 hosts: seq<string>)
    requires Shown(hostTop)
    ensures var text := Render(hostTop, hostPct, dcTop, dcPct, hosts);
      var line := "HostClustering:" + hostTop.value + "," + PercentText(hostPct) + "\n";
      |text| >= |line| && text[..|line|] == line
      && (!Shown(dcTop) ==> text[|line|..] == AvailableLine(hosts))
  {
    var line := LineHead("HostClustering", hostTop.value) + (PercentText(hostPct) + "\n");
    var rest := ClusterLine("DatacentreClustering", dcTop, dcPct) + AvailableLine(hosts);
    assert line == "HostClustering:" + hostTop.value + "," + PercentText(hostPct) + "\n";
    assert Render(hostTop, hostPct, dcTop, dcPct, hosts) == line + rest;
    assert (line + rest)[..|line|] == line && (line + rest)[|line|..] == rest;
  }

  /**
   * The datacentre line, when shown, comes right after the host line (or opens
   * the text when the host line is not shown).
   */
  lemma {:induction false} RenderPlacesDatacentreLine(hostTop: Option<string>, hostPct: nat, dcTop: Option<string>, dcPct: nat,
                                   hosts: seq<string>)
    requires Shown(dcTop)
    ensures var text := Render(hostTop, hostPct, dcTop, dcPct, hosts);
      var before := if Shown(hostTop) then LineHead("HostClustering", hostTop.value) + PercentText(hostPct) + "\n" else "";
      var line := LineHead("DatacentreClustering", dcTop.value) + PercentText(dcPct) + "\n";
      |text| >= |before| + |line| && text[..|before|] == before && text[|before|..|before| + |line|] == line
  {
    var line := ClusterLine("DatacentreClustering", dcTop, dcPct);
    assert line == LineHead("DatacentreClustering", dcTop.value) + PercentText(dcPct) + "\n";
    if Shown(hostTop) {
      var before := ClusterLine("HostClustering", hostTop, hostPct);
      assert before == LineHead("HostClustering", hostTop.value) + PercentText(hostPct) + "\n";
      MiddleOfConcat(before, line, AvailableLine(hosts));
    } else {
      MiddleOfConcat("", line, AvailableLine(hosts));
    }
  }

  /** The middle part of a concatenation sits right after the first. */
  lemma {:induction false} MiddleOfConcat(a: string, b: string, c: string)
    ensures var s := a + (b + c);
      |s| >= |a| + |b| && s[..|a|] == a && s[|a|..|a| + |b|] == b
  {
    var s := a + (b + c);
    assert s[|a|..] == b + c;
    assert s[|a|..|a| + |b|] == (b + c)[..|b|];
  }

  /** The host list, when present, is the last line and carries no newline. */
  lemma {:induction false} RenderEndsWithHostList(hostTop: Option<string>, hostPct: nat, dcTop: Option<string>, dcPct: nat,
                               hosts: seq<string>)
    requires hosts != []
    ensures var text := Render(hostTop, hostPct, dcTop, dcPct, hosts);
      |text| >= |AvailableLine(hosts)| && text[|text| - |AvailableLine(hosts)|..] == "AvailableHosts:" + Join(hosts, ",")
  {
    SuffixOfConcat(ClusterLine("HostClustering", hostTop, hostPct),
                   ClusterLine("DatacentreClustering", dcTop, dcPct), AvailableLine(hosts));
  }

  /** The last part of a concatenation is its suffix. */
  lemma {:induction false} SuffixOfConcat(a: string, b: string, c: string)
    ensures var s := a + (b + c);
      |s| >= |c| && s[|s| - |c|..] == c
  {
    var s := a + (b + c);
    assert s[|s| - |c|..] == (b + c)[|b|..];
  }

  /** Without free hosts a non-empty report ends with a newline. */
  lemma {:induction false} RenderEndsWithNewline(hostTop: Option<string>, hostPct: nat, dcTop: Option<string>, dcPct: nat)
    requires Render(hostTop, hostPct, dcTop, dcPct, []) != ""
    ensures var text := Render(hostTop, hostPct, dcTop, dcPct, []);
      text[|text| - 1] == '\n'
  {
    var first := ClusterLine("HostClustering", hostTop, hostPct);
    var second := ClusterLine("DatacentreClustering", dcTop, dcPct);
    var text := Render(hostTop, hostPct, dcTop, dcPct, []);
    assert text == first + second;
    if second != "" {
      assert second[|second| - 1] == '\n';
      assert text[|text| - 1] == second[|second| - 1];
    } else {
      assert first[|first| - 1] == '\n';
    }
  }

  /** The host list of the last line splits back into the hosts when no hostID contains a comma. */
  lemma {:induction false} AvailableLineRoundTrip(hosts: seq<string>)
    requires hosts != []
    requires forall i :: 0 <= i < |hosts| ==> ',' !in hosts[i]
    ensures AvailableLine(hosts)[..15] == "AvailableHosts:"
    ensures Split(AvailableLine(hosts)[15..], ',') == hosts
  {
    var line := AvailableLine(hosts);
    assert line[15..] == Join(hosts, [',']);
    SplitJoin(hosts, ',');
  }

  /** The whole output of one run. */
  ghost function ReportText(hostCl: Clusters, hostOrder: seq<string>, dcCl: Clusters, dcOrder: seq<string>,
                            usage: map<string, Usage>, slotOrder: seq<string>): string
    requires SharesNonEmpty(hostCl) && SharesNonEmpty(dcCl)
    requires forall i :: 0 <= i < |hostOrder| ==> hostOrder[i] in hostCl
    requires forall i :: 0 <= i < |dcOrder| ==> dcOrder[i] in dcCl
    requires forall i :: 0 <= i < |slotOrder| ==> slotOrder[i] in usage
  {
    var h := TopFold(hostCl, hostOrder);
    var d := TopFold(dcCl, dcOrder);
    Render(h.0, h.1, d.0, d.1, AvailableHosts(usage, slotOrder))
  }

  /** The reported clustering percentage is never above 100.0. */
  lemma {:induction false} ReportedShareAtMostHundred(ps: seq<Placement>, order: seq<string>)
    requires forall i :: 0 <= i < |order| ==> order[i] in CountPass(ps)
    ensures TopFold(Percentages(CountPass(ps)), order).1 <= 10000
  {
    var p := Percentages(CountPass(ps));
    TopFoldChoice(p, order);
    PercentagesMeaning(ps);
    var r := TopFold(p, order);
    if r.0.Some? {
      var i :| 0 <= i < |order| && order[i] == r.0.value && Largest(p[order[i]].shares) == r.1;
      var k :| k in p[order[i]].shares && p[order[i]].shares[k] == r.1;
    }
  }

  /**
   * A customer whose instances all share one key makes the reported
   * percentage exactly 100.0 (the report line names the first such customer
   * in iteration order).
   */
  lemma {:induction false} SoleKeyReportsHundred(ps: seq<Placement>, order: seq<string>, c: string, k: string)
    requires IsOrderOf(order, CountPass(ps).Keys)
    requires exists i :: 0 <= i < |ps| && ps[i].0 == c
    requires forall i :: 0 <= i < |ps| && ps[i].0 == c ==> ps[i].1 == k
    ensures TopFold(Percentages(CountPass(ps)), order).1 == 10000
  {
    var p := Percentages(CountPass(ps));
    SingleKeyIsHundred(ps, c, k);
    assert Largest(p[c].shares) == 10000;
    TopFoldChoice(p, order);
    var i :| 0 <= i < |order| && order[i] == c;
    ReportedShareAtMostHundred(ps, order);
  }

  /** The report of a run over the sample data: host 8 at 60%, datacentre 13 at 100%, five free hosts. */
  lemma {:induction false} SampleReport()
    ensures Render(Some("8"), 6000, Some("13"), 10000, ["10", "3", "2", "5", "6"])
      == "HostClustering:8,60.0\n" + ("DatacentreClustering:13,100.0\n" + "AvailableHosts:10,3,2,5,6")
  {
    SamplePercentTexts();
    SampleHostList();
    assert ClusterLine("HostClustering", Some("8"), 6000) == "HostClustering:8,60.0\n";
    assert ClusterLine("DatacentreClustering", Some("13"), 10000) == "DatacentreClustering:13,100.0\n";
    assert AvailableLine(["10", "3", "2", "5", "6"]) == "AvailableHosts:10,3,2,5,6";
  }

  /** Whole percentages print with one decimal place. */
  lemma {:induction false} SamplePercentTexts()
    ensures PercentText(6000) == "60.0" && PercentText(10000) == "100.0"
  {
    assert NatText(60) == "60";
    assert NatText(10) == "10";
    assert NatText(100) == "100";
  }

  lemma {:induction false} SampleHostList()
    ensures Join(["10", "3", "2", "5", "6"], ",") == "10,3,2,5,6"
  {
    var hosts := ["10", "3", "2", "5", "6"];
    assert Join(hosts[4..], ",") == "6";
    assert Join(hosts[3..], ",") == "5,6";
    assert Join(hosts[2..], ",") == "2,5,6";
    assert Join(hosts[1..], ",") == "3,2,5,6";
  }
}
