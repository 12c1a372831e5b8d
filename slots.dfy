/**
 * The slot accountant (`get_slot_usage`): for each host, in host order, the
 * number of instances placed on it, checked against its slot count.
 */
module Slots {
  import opened Wrappers
  import opened TextUtil
  import opened Validation

  /** The entry stored per hostID: `total`, `used` and `available` slots. */
  datatype Usage = Usage(total: int, used: nat, available: int)

  /** A host with more instances than slots: the computation stops there. */
  datatype Overflow = Overflow(hostId: string, used: nat, total: int)

  /** The text of the exception: the host in brackets, then `used/total`. */
  function OverflowMessage(o: Overflow): (msg: string)
    ensures Contains(msg, "[" + o.hostId + "]")
    ensures Contains(msg, IntText(o.used) + "/" + IntText(o.total))
  {
    var host, counts := "[" + o.hostId + "]", IntText(o.used) + "/" + IntText(o.total);
    ContainsMiddle("Host ", host, " slots " + counts);
    ContainsMiddle("Host " + host + " slots ", counts, "");
    assert "Host " + host + " slots " + counts + "" == "Host " + host + (" slots " + counts);
    "Host " + host + (" slots " + counts)
  }

  /** `int(host['numberOfSlots'])` on a validated host row (which always parses). */
  function SlotCount(host: RawRow): int
  {
    match ParseInt(Cell(host, "numberOfSlots"))
    case Some(n) => n
    case None => 0
  }

  /** The number of instances whose hostID is `hostId`. */
  function HostCount(instances: seq<RawRow>, hostId: string): nat
    decreases |instances|
  {
    if |instances| == 0 then 0
    else HostCount(instances[..|instances| - 1], hostId) + if Cell(instances[|instances| - 1], "hostID") == hostId then 1 else 0
  }

  predicate Overflows(host: RawRow, instances: seq<RawRow>)
  {
    HostCount(instances, Cell(host, "hostID")) > SlotCount(host)
  }

  /** The stored usage map and the failure, if one was raised. */
  datatype SlotState = SlotState(usage: map<string, Usage>, failure: Option<Overflow>)

  /**
   * The state after processing `hosts` in order from an empty map: each host
   * stores its entry under its hostID (a later duplicate overwrites), and the
   * first overflowing host stops the computation with the entries so far.
   */
  function SlotPass(hosts: seq<RawRow>, instances: seq<RawRow>): (r: SlotState)
    ensures r.failure.Some? ==> r.failure.value.used > r.failure.value.total
    decreases |hosts|
  {
    if |hosts| == 0 then SlotState(map[], None)
    else
      var prev := SlotPass(hosts[..|hosts| - 1], instances);
      if prev.failure.Some? then prev
      else
        var host := hosts[|hosts| - 1];
        var total, used := SlotCount(host), HostCount(instances, Cell(host, "hostID"));
        if used > total then SlotState(prev.usage, Some(Overflow(Cell(host, "hostID"), used, total)))
        else SlotState(prev.usage[Cell(host, "hostID") := Usage(total, used, total - used)], None)
  }

  /**
   * Every stored entry counts the instances on its host, never exceeds the
   * host's slots, and has used + available == total; its total is the slot
   * count of a host row with that hostID.
   */
  lemma {:induction false} SlotPassEntries(hosts: seq<RawRow>, instances: seq<RawRow>)
    ensures var u := SlotPass(hosts, instances).usage;
      forall h :: h in u ==>
        && u[h].used <= u[h].total
        && u[h].used + u[h].available == u[h].total
        && u[h].used == HostCount(instances, h)
        && exists j :: 0 <= j < |hosts| && Cell(hosts[j], "hostID") == h && SlotCount(hosts[j]) == u[h].total
    decreases |hosts|
  {
    if |hosts| > 0 {
      var init := hosts[..|hosts| - 1];
      SlotPassEntries(init, instances);
      var u := SlotPass(hosts, instances).usage;
      forall h | h in u
        ensures exists j :: 0 <= j < |hosts| && Cell(hosts[j], "hostID") == h && SlotCount(hosts[j]) == u[h].total
      {
        if h in SlotPass(init, instances).usage && u[h] == SlotPass(init, instances).usage[h] {
          var j :| 0 <= j < |init| && Cell(init[j], "hostID") == h && SlotCount(init[j]) == u[h].total;
          assert hosts[j] == init[j];
        } else {
          assert Cell(hosts[|hosts| - 1], "hostID") == h;
        }
      }
    }
  }

  /** The error a host raises when it has more instances than slots. */
  function OverflowOf(host: RawRow, instances: seq<RawRow>): Overflow
  {
    Overflow(Cell(host, "hostID"), HostCount(instances, Cell(host, "hostID")), SlotCount(host))
  }

  /** The index of the first host, in host order, with more instances than slots. */
  function FirstOverflow(hosts: seq<RawRow>, instances: seq<RawRow>): (r: Option<nat>)
    ensures r.Some? ==>
      && r.value < |hosts|
      && Overflows(hosts[r.value], instances)
      && forall j :: 0 <= j < r.value ==> !Overflows(hosts[j], instances)
    ensures r.None? ==> forall j :: 0 <= j < |hosts| ==> !Overflows(hosts[j], instances)
    decreases |hosts|
  {
    if |hosts| == 0 then None
    else
      var init := hosts[..|hosts| - 1];
      var prev := FirstOverflow(init, instances);
      assert forall j :: 0 <= j < |init| ==> init[j] == hosts[j];
      if prev.Some? then prev
      else if Overflows(hosts[|hosts| - 1], instances) then Some(|hosts| - 1)
      else None
  }

  /**
   * The computation fails exactly when some host has more instances than
   * slots, and then it names the first such host in host order with its
   * used and total counts.
   */
  lemma {:induction false} SlotPassFailure(hosts: seq<RawRow>, instances: seq<RawRow>)
    ensures SlotPass(hosts, instances).failure ==
      match FirstOverflow(hosts, instances)
      case None => None
      case Some(j) => Some(OverflowOf(hosts[j], instances))
    decreases |hosts|
  {
    if |hosts| > 0 {
      var init := hosts[..|hosts| - 1];
      SlotPassFailure(init, instances);
      match FirstOverflow(init, instances)
      case Some(j) => assert init[j] == hosts[j];
      case None =>
    }
  }

  /** A negative slot count can never be met, so it always fails the computation. */
  lemma {:induction false} NegativeSlotsFail(hosts: seq<RawRow>, instances: seq<RawRow>, j: nat)
    requires j < |hosts| && SlotCount(hosts[j]) < 0
    ensures SlotPass(hosts, instances).failure.Some?
  {
    SlotPassFailure(hosts, instances);
    assert Overflows(hosts[j], instances);
  }

  /** The hostIDs of the host rows. */
  function HostIds(hosts: seq<RawRow>): set<string>
  {
    set j | 0 <= j < |hosts| :: Cell(hosts[j], "hostID")
  }

  /** Without failure every host has its entry and nothing else is stored. */
  lemma {:induction false} SlotPassKeys(hosts: seq<RawRow>, instances: seq<RawRow>)
    requires SlotPass(hosts, instances).failure.None?
    ensures SlotPass(hosts, instances).usage.Keys == HostIds(hosts)
    decreases |hosts|
  {
    if |hosts| > 0 {
      var init := hosts[..|hosts| - 1];
      var prev := SlotPass(init, instances);
      assert prev.failure.None?;
      SlotPassKeys(init, instances);
      assert SlotPass(hosts, instances).usage.Keys == prev.usage.Keys + {Cell(hosts[|hosts| - 1], "hostID")};
      HostIdsLast(hosts);
    }
  }

  lemma {:induction false} HostIdsLast(hosts: seq<RawRow>)
    requires |hosts| > 0
    ensures HostIds(hosts) == HostIds(hosts[..|hosts| - 1]) + {Cell(hosts[|hosts| - 1], "hostID")}
  {
    var init := hosts[..|hosts| - 1];
    var last := Cell(hosts[|hosts| - 1], "hostID");
    forall h | h in HostIds(hosts) ensures h in HostIds(init) + {last} {
      var j :| 0 <= j < |hosts| && Cell(hosts[j], "hostID") == h;
      if j < |init| { assert Cell(init[j], "hostID") == h; }
    }
    forall h | h in HostIds(init) ensures h in HostIds(hosts) {
      var j :| 0 <= j < |init| && Cell(init[j], "hostID") == h;
      assert Cell(hosts[j], "hostID") == h;
    }
  }

  /** Once a host has overflowed, later hosts change nothing: the computation has stopped. */
  lemma {:induction false} SlotPassStops(hosts: seq<RawRow>, instances: seq<RawRow>, i: nat)
    requires i <= |hosts| && SlotPass(hosts[..i], instances).failure.Some?
    ensures SlotPass(hosts, instances) == SlotPass(hosts[..i], instances)
    decreases |hosts| - i
  {
    if i < |hosts| {
      var init := hosts[..|hosts| - 1];
      assert init[..i] == hosts[..i];
      SlotPassStops(init, instances, i);
    } else {
      assert hosts[..i] == hosts;
    }
  }
}
