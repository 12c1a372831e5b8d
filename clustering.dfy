/**
 * The clustering engine: per customer, the share of its instances on each
 * host (`get_host_clustering`) or in each datacentre
 * (`get_data_center_clustering`). Both run a counting pass followed by a pass
 * that replaces every count by a percentage rounded to two decimals.
 *
 * Percentages are kept exactly, as integer hundredths: 66.67 is 6667.
 */
module Clustering {
  import opened Wrappers
  import opened TextUtil
  import opened Validation

  /**
   * One customer's entry: `total_instances` and, per cluster key, the count of
   * its instances (after the counting pass) or their percentage in hundredths
   * (after the conversion pass).
   */
  datatype Customer = Customer(total: nat, shares: map<string, nat>)

  type Clusters = map<string, Customer>

  /** One instance as the engine sees it: (customerID, cluster key). */
  type Placement = (string, string)

  /** The datacentre variant's hard error: an instance on a host that is not listed. */
  datatype Unresolved = Unresolved(instanceId: string, hostId: string)

  /** The exception text; it names both the instance and the host it refers to. */
  function UnresolvedMessage(u: Unresolved): (msg: string)
    ensures Contains(msg, "[" + u.instanceId + "]") && Contains(msg, "[" + u.hostId + "]")
  {
    var head, instance, host := "No data center found for instance ", "[" + u.instanceId + "]", "[" + u.hostId + "]";
    ContainsMiddle(head, instance, " on host " + host);
    ContainsMiddle(head + instance + " on host ", host, "");
    assert head + instance + " on host " + host + "" == head + instance + (" on host " + host);
    head + instance + (" on host " + host)
  }

  // ---- counting pass ----

  /**
   * Counts one more instance of customer `c` under key `k`, starting a fresh
   * entry if needed; every other customer and every other key is unchanged.
   */
  function Bump(m: Clusters, c: string, k: string): (r: Clusters)
    ensures r.Keys == m.Keys + {c}
    ensures forall d :: d in m && d != c ==> r[d] == m[d]
    ensures r[c].total == (if c in m then m[c].total else 0) + 1
    ensures r[c].shares.Keys == (if c in m then m[c].shares.Keys else {}) + {k}
    ensures r[c].shares[k] == (if c in m && k in m[c].shares then m[c].shares[k] else 0) + 1
    ensures forall j :: c in m && j in m[c].shares && j != k ==> r[c].shares[j] == m[c].shares[j]
  {
    var cur := if c in m then m[c] else Customer(0, map[]);
    var n := if k in cur.shares then cur.shares[k] else 0;
    m[c := Customer(cur.total + 1, cur.shares[k := n + 1])]
  }

  /**
   * The state after the counting pass over `ps`, starting from an empty map.
   * No entry is ever left with a zero total or without a key.
   */
  function CountPass(ps: seq<Placement>): (m: Clusters)
    ensures Counted(m)
    ensures forall c :: c in m ==> m[c].shares != map[]
    decreases |ps|
  {
    if |ps| == 0 then map[]
    else Bump(CountPass(ps[..|ps| - 1]), ps[|ps| - 1].0, ps[|ps| - 1].1)
  }

  /** How many placements belong to customer `c`. */
  function Occurrences(ps: seq<Placement>, c: string): nat
    decreases |ps|
  {
    if |ps| == 0 then 0
    else Occurrences(ps[..|ps| - 1], c) + if ps[|ps| - 1].0 == c then 1 else 0
  }

  /** How many placements are exactly customer `c` under key `k`. */
  function PairOccurrences(ps: seq<Placement>, c: string, k: string): nat
    decreases |ps|
  {
    if |ps| == 0 then 0
    else PairOccurrences(ps[..|ps| - 1], c, k) + if ps[|ps| - 1] == (c, k) then 1 else 0
  }

  /**
   * After the counting pass exactly the customers that own an instance have an
   * entry; its total is the number of that customer's instances, its keys are
   * exactly the keys of those instances, and each count is the number of that
   * customer's instances under that key.
   */
  lemma {:induction false} CountPassCounts(ps: seq<Placement>)
    ensures forall c :: c in CountPass(ps) <==> Occurrences(ps, c) > 0
    ensures forall c :: c in CountPass(ps) ==> CountPass(ps)[c].total == Occurrences(ps, c)
    ensures forall c, k :: c in CountPass(ps) ==>
      (k in CountPass(ps)[c].shares <==> PairOccurrences(ps, c, k) > 0)
    ensures forall c, k :: c in CountPass(ps) && k in CountPass(ps)[c].shares ==>
      CountPass(ps)[c].shares[k] == PairOccurrences(ps, c, k)
    decreases |ps|
  {
    if |ps| > 0 {
      var init := ps[..|ps| - 1];
      var (c0, k0) := ps[|ps| - 1];
      CountPassCounts(init);
      PairWithinCustomer(init, c0, k0);
      var m, m' := CountPass(init), CountPass(ps);
      assert m' == Bump(m, c0, k0);
      forall c, k | c in m'
        ensures k in m'[c].shares <==> PairOccurrences(ps, c, k) > 0
        ensures k in m'[c].shares ==> m'[c].shares[k] == PairOccurrences(ps, c, k)
      {
        PairWithinCustomer(init, c, k);
        assert PairOccurrences(ps, c, k) == PairOccurrences(init, c, k) + if (c0, k0) == (c, k) then 1 else 0;
      }
    }
  }

  lemma {:induction false} PairWithinCustomer(ps: seq<Placement>, c: string, k: string)
    ensures PairOccurrences(ps, c, k) <= Occurrences(ps, c)
    decreases |ps|
  {
    if |ps| > 0 {
      PairWithinCustomer(ps[..|ps| - 1], c, k);
    }
  }

  lemma {:induction false} PairOccurrencesPositive(ps: seq<Placement>, c: string, k: string)
    ensures PairOccurrences(ps, c, k) > 0 <==> exists i :: 0 <= i < |ps| && ps[i] == (c, k)
    decreases |ps|
  {
    if |ps| > 0 {
      var init := ps[..|ps| - 1];
      PairOccurrencesPositive(init, c, k);
      if exists i :: 0 <= i < |ps| && ps[i] == (c, k) {
        var i :| 0 <= i < |ps| && ps[i] == (c, k);
        if i < |init| { assert init[i] == ps[i]; }
      }
      if exists i :: 0 <= i < |init| && init[i] == (c, k) {
        var i :| 0 <= i < |init| && init[i] == (c, k);
        assert ps[i] == init[i];
      }
    }
  }

  lemma {:induction false} OccurrencesPositive(ps: seq<Placement>, c: string)
    ensures Occurrences(ps, c) > 0 <==> exists i :: 0 <= i < |ps| && ps[i].0 == c
    decreases |ps|
  {
    if |ps| > 0 {
      var init := ps[..|ps| - 1];
      OccurrencesPositive(init, c);
      if exists i :: 0 <= i < |ps| && ps[i].0 == c {
        var i :| 0 <= i < |ps| && ps[i].0 == c;
        if i < |init| { assert init[i] == ps[i]; }
      }
      if exists i :: 0 <= i < |init| && init[i].0 == c {
        var i :| 0 <= i < |init| && init[i].0 == c;
        assert ps[i] == init[i];
      }
    }
  }

  /**
   * The keys of a customer's entry are exactly the keys of its instances, and
   * the customers present are exactly those that own an instance.
   */
  lemma {:induction false} CountPassKeys(ps: seq<Placement>)
    ensures forall c :: c in CountPass(ps) <==> exists i :: 0 <= i < |ps| && ps[i].0 == c
    ensures forall c, k :: c in CountPass(ps) ==>
      (k in CountPass(ps)[c].shares <==> exists i :: 0 <= i < |ps| && ps[i] == (c, k))
  {
    CountPassCounts(ps);
    forall c ensures c in CountPass(ps) <==> exists i :: 0 <= i < |ps| && ps[i].0 == c {
      OccurrencesPositive(ps, c);
    }
    forall c, k | c in CountPass(ps)
      ensures k in CountPass(ps)[c].shares <==> exists i :: 0 <= i < |ps| && ps[i] == (c, k)
    {
      PairOccurrencesPositive(ps, c, k);
    }
  }

  // ---- sums over a map's values ----

  ghost function Sum(m: map<string, nat>): nat
    decreases |m|
  {
    if m == map[] then 0
    else
      var k :| k in m;
      assert |m - {k}| < |m| by { assert (m - {k}).Keys == m.Keys - {k}; }
      m[k] + Sum(m - {k})
  }

  /** Any key can be taken out of the sum first. */
  lemma {:induction false} SumRemove(m: map<string, nat>, k: string)
    requires k in m
    ensures Sum(m) == m[k] + Sum(m - {k})
    decreases |m|
  {
    assert (m - {k}).Keys == m.Keys - {k};
    var j :| j in m && Sum(m) == m[j] + Sum(m - {j});
    if j != k {
      assert (m - {j}).Keys == m.Keys - {j};
      SumRemove(m - {j}, k);
      SumRemove(m - {k}, j);
      assert m - {j} - {k} == m - {k} - {j};
    }
  }

  /** Counting one more under key `k` raises the sum by one. */
  lemma {:induction false} SumBump(m: map<string, nat>, k: string)
    ensures Sum(m[k := (if k in m then m[k] else 0) + 1]) == Sum(m) + 1
  {
    var m' := m[k := (if k in m then m[k] else 0) + 1];
    SumRemove(m', k);
    assert m' - {k} == m - {k};
    if k in m {
      SumRemove(m, k);
    } else {
      assert m - {k} == m;
    }
  }

  /** After the counting pass a customer's per-key counts add up to its total. */
  lemma {:induction false} CountPassSums(ps: seq<Placement>)
    ensures forall c :: c in CountPass(ps) ==> Sum(CountPass(ps)[c].shares) == CountPass(ps)[c].total
    decreases |ps|
  {
    if |ps| > 0 {
      var init := ps[..|ps| - 1];
      CountPassSums(init);
      var (c, k) := ps[|ps| - 1];
      var m := CountPass(init);
      var cur := if c in m then m[c] else Customer(0, map[]);
      SumBump(cur.shares, k);
    }
  }

  // ---- conversion pass ----

  /**
   * `round(count / total * 100, 2)` in hundredths, rounding half up on the
   * exact quotient: floor(10000 * count / total + 1/2).
   */
  function Pct(count: nat, total: nat): (p: nat)
    requires total > 0
    ensures 20000 * count - total < 2 * total * p <= 20000 * count + total
  {
    var a, b := 20000 * count + total, 2 * total;
    assert a == b * (a / b) + a % b;
    (20000 * count + total) / (2 * total)
  }

  lemma {:induction false} MulMonotone(t: int, a: int, b: int)
    requires t >= 0 && a <= b
    ensures t * a <= t * b
  {
    assert t * b - t * a == t * (b - a);
  }

  /**
   * A share of a customer's instances is at most 100.00. It is exactly
   * 100.00 when it is all of them, and more generally exactly when the part
   * left out is at most 1/20000 of the total (99.995 rounds up); it is above
   * zero exactly when it is at least 1/20000 of the total (smaller shares
   * round to 0.0).
   */
  lemma {:induction false} PctRange(count: nat, total: nat)
    requires 0 < total && count <= total
    ensures Pct(count, total) <= 10000
    ensures count == total ==> Pct(count, total) == 10000
    ensures Pct(count, total) == 10000 <==> 20000 * (total - count) <= total
    ensures Pct(count, total) > 0 <==> 20000 * count >= total
  {
    var q, t := Pct(count, total), 2 * total;
    assert t * q <= 20000 * count + total < t * q + t;
    if q >= 10001 {
      MulMonotone(t, 10001, q);
    }
    if q <= 9999 {
      MulMonotone(t, q, 9999);
    }
    if q == 0 {
      assert 20000 * count + total < t;
    } else {
      MulMonotone(t, 1, q);
    }
  }

  /** A map of counts with each count replaced by its percentage of `total`. */
  function PctMap(s: map<string, nat>, total: nat): map<string, nat>
    requires total > 0
  {
    map k | k in s :: Pct(s[k], total)
  }

  /** A customer's counts, each replaced by its percentage of the total. */
  function PctShares(cust: Customer): map<string, nat>
    requires cust.total > 0
  {
    PctMap(cust.shares, cust.total)
  }

  predicate Counted(m: Clusters)
  {
    forall c :: c in m ==> m[c].total > 0
  }

  /** The state after the conversion pass: every customer and every key is kept. */
  function Percentages(m: Clusters): (r: Clusters)
    requires Counted(m)
    ensures r.Keys == m.Keys
    ensures forall c :: c in m ==> r[c].total == m[c].total && r[c].shares.Keys == m[c].shares.Keys
  {
    map c | c in m :: Customer(m[c].total, PctShares(m[c]))
  }

  /** The conversion pass: every count overwritten in place by its percentage. */
  method ToPercentages(m: Clusters) returns (r: Clusters)
    requires Counted(m)
    ensures r == Percentages(m)
  {
    r := m;
    var todo := m.Keys;
    while todo != {}
      invariant todo <= m.Keys && r.Keys == m.Keys
      invariant forall c :: c in m && c !in todo ==> r[c] == Customer(m[c].total, PctShares(m[c]))
      invariant forall c :: c in todo ==> r[c] == m[c]
      decreases todo
    {
      var c :| c in todo;
      var total := r[c].total;
      var shares := r[c].shares;
      var keys := shares.Keys;
      while keys != {}
        invariant keys <= m[c].shares.Keys && shares.Keys == m[c].shares.Keys
        invariant forall k :: k in shares && k !in keys ==> shares[k] == Pct(m[c].shares[k], total)
        invariant forall k :: k in keys ==> shares[k] == m[c].shares[k]
        decreases keys
      {
        var k :| k in keys;
        shares := shares[k := Pct(shares[k], total)];
        keys := keys - {k};
      }
      r := r[c := Customer(total, shares)];
      todo := todo - {c};
    }
  }

  /**
   * Every stored value after both passes is the rounded percentage of that
   * customer's instances under that key, hence at most 100.00, and 100.00
   * exactly when all of the customer's instances share that key.
   */
  lemma {:induction false} PercentagesMeaning(ps: seq<Placement>)
    ensures var p := Percentages(CountPass(ps));
      && p.Keys == CountPass(ps).Keys
      && forall c, k :: c in p && k in p[c].shares ==>
           && Occurrences(ps, c) > 0
           && p[c].shares[k] == Pct(PairOccurrences(ps, c, k), Occurrences(ps, c))
           && p[c].shares[k] <= 10000
           && (PairOccurrences(ps, c, k) == Occurrences(ps, c) ==> p[c].shares[k] == 10000)
  {
    CountPassCounts(ps);
    var m := CountPass(ps);
    forall c, k | c in m && k in m[c].shares
      ensures m[c].shares[k] <= m[c].total
    {
      CountPassSums(ps);
      SumRemove(m[c].shares, k);
    }
    forall c, k | c in m && k in m[c].shares
      ensures PctShares(m[c])[k] <= 10000
      ensures m[c].shares[k] == m[c].total ==> PctShares(m[c])[k] == 10000
    {
      PctRange(m[c].shares[k], m[c].total);
    }
  }

  /** A customer whose instances all share one key has all of its count under that key. */
  lemma {:induction false} SingleKeyCounts(ps: seq<Placement>, c: string, k: string)
    requires exists i :: 0 <= i < |ps| && ps[i].0 == c
    requires forall i :: 0 <= i < |ps| && ps[i].0 == c ==> ps[i].1 == k
    ensures c in CountPass(ps)
    ensures CountPass(ps)[c].shares == map[k := CountPass(ps)[c].total]
  {
    CountPassCounts(ps);
    SameKeyOccurrences(ps, c, k);
    OccurrencesPositive(ps, c);
    var m := CountPass(ps);
    forall k' | k' in m[c].shares ensures k' == k {
      PairOccurrencesPositive(ps, c, k');
    }
    PairOccurrencesPositive(ps, c, k);
  }

  /** A customer whose instances all share one key gets exactly 100.00 there and nothing else. */
  lemma {:induction false} SingleKeyIsHundred(ps: seq<Placement>, c: string, k: string)
    requires exists i :: 0 <= i < |ps| && ps[i].0 == c
    requires forall i :: 0 <= i < |ps| && ps[i].0 == c ==> ps[i].1 == k
    ensures c in Percentages(CountPass(ps))
    ensures Percentages(CountPass(ps))[c].shares == map[k := 10000]
  {
    SingleKeyCounts(ps, c, k);
    var m := CountPass(ps);
    var t := m[c].total;
    PctRange(t, t);
    PctMapSingle(k, t);
    PercentagesAt(m, c);
  }

  lemma {:induction false} PctMapSingle(k: string, t: nat)
    requires t > 0
    ensures PctMap(map[k := t], t) == map[k := Pct(t, t)]
  {
  }

  lemma {:induction false} PercentagesAt(m: Clusters, c: string)
    requires Counted(m) && c in m
    ensures Percentages(m)[c] == Customer(m[c].total, PctShares(m[c]))
  {
  }

  lemma {:induction false} SameKeyOccurrences(ps: seq<Placement>, c: string, k: string)
    requires forall i :: 0 <= i < |ps| && ps[i].0 == c ==> ps[i].1 == k
    ensures PairOccurrences(ps, c, k) == Occurrences(ps, c)
    decreases |ps|
  {
    if |ps| > 0 {
      var init := ps[..|ps| - 1];
      assert forall i :: 0 <= i < |init| ==> init[i] == ps[i];
      SameKeyOccurrences(init, c, k);
    }
  }

  lemma {:induction false} PctMapRemove(s: map<string, nat>, t: nat, k: string)
    requires t > 0 && k in s
    ensures Sum(PctMap(s, t)) == Pct(s[k], t) + Sum(PctMap(s - {k}, t))
  {
    assert PctMap(s, t) - {k} == PctMap(s - {k}, t);
    SumRemove(PctMap(s, t), k);
  }

  /** `y` hundredths is `x` out of `t` as a percentage, up to half a hundredth for each of `n` roundings. */
  predicate WithinRounding(t: int, x: int, y: int, n: int)
  {
    20000 * x - t * n <= 2 * t * y <= 20000 * x + t * n
  }

  /** One more key: the per-key error bounds add up. */
  lemma {:induction false} BoundStep(t: int, x: int, y: int, a: int, b: int, n: int, sx: int, sy: int, m: int)
    requires t > 0
    requires 20000 * x - t < 2 * t * y <= 20000 * x + t
    requires WithinRounding(t, a, b, n)
    requires sx == x + a && sy == y + b && m == n + 1
    ensures WithinRounding(t, sx, sy, m)
  {
    assert 2 * t * (y + b) == 2 * t * y + 2 * t * b;
    assert t * (n + 1) == t * n + t;
  }

  /** Sum of rounded percentages, with the rounding error bounded key by key. */
  lemma {:induction false} PctSumBound(s: map<string, nat>, t: nat)
    requires t > 0
    ensures WithinRounding(t, Sum(s), Sum(PctMap(s, t)), |s|)
    decreases |s|
  {
    if s != map[] {
      var k :| k in s;
      var s' := s - {k};
      assert s'.Keys == s.Keys - {k};
      assert |s| == |s'| + 1;
      PctSumBound(s', t);
      SumRemove(s, k);
      PctMapRemove(s, t, k);
      BoundStep(t, s[k], Pct(s[k], t), Sum(s'), Sum(PctMap(s', t)), |s'|, Sum(s), Sum(PctMap(s, t)), |s|);
    } else {
      assert PctMap(s, t) == map[];
    }
  }

  /** Dividing the bounds by the total. */
  lemma {:induction false} CancelTotal(t: int, n: int, q: int)
    requires t > 0
    requires WithinRounding(t, t, q, n)
    ensures 20000 - n <= 2 * q <= 20000 + n
  {
    if 2 * q < 20000 - n {
      MulMonotone(t, 2 * q + 1, 20000 - n);
    }
    if 2 * q > 20000 + n {
      MulMonotone(t, 20000 + n + 1, 2 * q);
    }
  }

  /**
   * Percentage conservation: a customer's rounded percentages add up to
   * 100.00 up to half a hundredth per key.
   */
  lemma {:induction false} PercentagesNearlyHundred(cust: Customer)
    requires cust.total > 0 && Sum(cust.shares) == cust.total
    ensures 20000 - |cust.shares| <= 2 * Sum(PctShares(cust)) <= 20000 + |cust.shares|
  {
    PctSumBound(cust.shares, cust.total);
    CancelTotal(cust.total, |cust.shares|, Sum(PctShares(cust)));
  }

  // ---- the two kinds of cluster key ----

  /** (customerID, hostID) of every instance, in instance order. */
  function HostPlacements(instances: seq<RawRow>): (ps: seq<Placement>)
    ensures |ps| == |instances|
  {
    seq(|instances|, i requires 0 <= i < |instances| =>
      (Cell(instances[i], "customerID"), Cell(instances[i], "hostID")))
  }

  /** The index of the first host whose hostID is `hostId`, as the linear scan with `break` finds it. */
  function FirstMatch(hosts: seq<RawRow>, hostId: string): (r: Option<nat>)
    ensures r.Some? ==>
      && r.value < |hosts|
      && Cell(hosts[r.value], "hostID") == hostId
      && forall j :: 0 <= j < r.value ==> Cell(hosts[j], "hostID") != hostId
    ensures r.None? ==> forall j :: 0 <= j < |hosts| ==> Cell(hosts[j], "hostID") != hostId
    decreases |hosts|
  {
    if |hosts| == 0 then None
    else if Cell(hosts[0], "hostID") == hostId then Some(0)
    else
      match FirstMatch(hosts[1..], hostId)
      case None => None
      case Some(j) => Some(j + 1)
  }

  /**
   * The datacentreID of the first host with that hostID, or None when no
   * host has it.
   */
  function DatacentreOf(hosts: seq<RawRow>, hostId: string): (dc: Option<string>)
    ensures dc.None? <==> forall j :: 0 <= j < |hosts| ==> Cell(hosts[j], "hostID") != hostId
    ensures dc.Some? ==>
      exists j :: 0 <= j < |hosts| && Cell(hosts[j], "hostID") == hostId
        && Cell(hosts[j], "datacentreID") == dc.value
        && forall i :: 0 <= i < j ==> Cell(hosts[i], "hostID") != hostId
  {
    match FirstMatch(hosts, hostId)
    case None => None
    case Some(j) => Some(Cell(hosts[j], "datacentreID"))
  }

  /** The index of the first instance whose host is not listed. */
  function FirstUnresolved(instances: seq<RawRow>, hosts: seq<RawRow>): (r: Option<nat>)
    ensures r.Some? ==>
      && r.value < |instances|
      && DatacentreOf(hosts, Cell(instances[r.value], "hostID")).None?
      && forall j :: 0 <= j < r.value ==> DatacentreOf(hosts, Cell(instances[j], "hostID")).Some?
    ensures r.None? ==> forall j :: 0 <= j < |instances| ==> DatacentreOf(hosts, Cell(instances[j], "hostID")).Some?
    decreases |instances|
  {
    if |instances| == 0 then None
    else if DatacentreOf(hosts, Cell(instances[0], "hostID")).None? then Some(0)
    else
      match FirstUnresolved(instances[1..], hosts)
      case None => None
      case Some(j) => Some(j + 1)
  }

  /** (customerID, datacentreID) of every instance whose host is listed. */
  function DcPlacements(instances: seq<RawRow>, hosts: seq<RawRow>): (ps: seq<Placement>)
    ensures |ps| == |instances|
  {
    seq(|instances|, i requires 0 <= i < |instances| =>
      (Cell(instances[i], "customerID"),
       match DatacentreOf(hosts, Cell(instances[i], "hostID"))
       case Some(d) => d
       case None => ""))
  }

  // ---- counts left behind by a failed pass ----

  /**
   * The counting pass stores Python floats (`1.0`), which the report prints
   * as `1.0`. In the hundredths every clustering value is kept in, a count
   * n is 100 n.
   */
  function CountsAsHundredths(m: Clusters): (r: Clusters)
    ensures r.Keys == m.Keys
    ensures forall c :: c in m ==> r[c].total == m[c].total && r[c].shares.Keys == m[c].shares.Keys
    ensures forall c, k :: c in m && k in m[c].shares ==> r[c].shares[k] == 100 * m[c].shares[k]
  {
    map c | c in m :: Customer(m[c].total, map k | k in m[c].shares :: 100 * m[c].shares[k])
  }
}
