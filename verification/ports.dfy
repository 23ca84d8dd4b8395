/** The port scan's result assembly. Each connect attempt is replaced by a
    given verdict (`isOpen`), and the thread pool by the order in which the
    verdicts arrive (`arrival`, a permutation of the port list). */
module PortScanner {
  import opened Seqs

  /** The probed ports, in the order they are submitted. */
  const CommonPorts: seq<int> := [80, 443, 8080, 8443, 3000, 3001, 22, 21, 25, 53, 110, 993, 995]

  datatype PortFinding = PortFinding(open: seq<int>, closed: seq<int>, total: int)

  lemma CommonPortsDistinct()
    ensures Distinct(CommonPorts)
  {
  }

  /** Sorted open and closed lists over a port list without repeats. */
  function Partition(ports: seq<int>, isOpen: int -> bool): (f: PortFinding)
    requires Distinct(ports)
    ensures Ascending(f.open) && Ascending(f.closed)
    ensures forall p :: p in f.open <==> p in ports && isOpen(p)
    ensures forall p :: p in f.closed <==> p in ports && !isOpen(p)
    ensures f.total == |ports| == |f.open| + |f.closed|
  {
    var open := Select(ports, isOpen, true);
    var closed := Select(ports, isOpen, false);
    SortedSelectionAscending(ports, isOpen, true);
    SortedSelectionAscending(ports, isOpen, false);
    SelectSplits(ports, isOpen);
    SortKeepsMembers(open);
    SortKeepsMembers(closed);
    assert |multiset(Sort(open))| + |multiset(Sort(closed))| == |multiset(ports)|;
    PortFinding(Sort(open), Sort(closed), |ports|)
  }

  /** The finding as a function of the verdicts alone: both lists sorted
      ascending, splitting the probed ports between them. */
  function Findings(isOpen: int -> bool): (f: PortFinding)
    ensures Ascending(f.open) && Ascending(f.closed)
    ensures forall p :: p in f.open <==> p in CommonPorts && isOpen(p)
    ensures forall p :: p in f.closed <==> p in CommonPorts && !isOpen(p)
    ensures f.total == |CommonPorts| == 13
    ensures |f.open| + |f.closed| == f.total
  {
    CommonPortsDistinct();
    Partition(CommonPorts, isOpen)
  }

  /** The open list is the one ascending list holding exactly the probed
      ports found open. */
  lemma OpenPortsDetermined(isOpen: int -> bool, expected: seq<int>)
    requires Ascending(expected)
    requires forall p :: p in expected <==> p in CommonPorts && isOpen(p)
    ensures Findings(isOpen).open == expected
  {
    AscendingByMembers(Findings(isOpen).open, expected);
  }

  /** Collecting verdicts in any arrival order and sorting afterwards gives
      the partition of the port list. */
  method Collect(ports: seq<int>, arrival: seq<int>, isOpen: int -> bool) returns (f: PortFinding)
    requires Distinct(ports)
    requires multiset(arrival) == multiset(ports)
    ensures f == Partition(ports, isOpen)
  {
    var open: seq<int> := [];
    var closed: seq<int> := [];
    var i := 0;
    while i < |arrival|
      invariant 0 <= i <= |arrival|
      invariant open == Select(arrival[..i], isOpen, true)
      invariant closed == Select(arrival[..i], isOpen, false)
    {
      var port := arrival[i];
      SelectPrefixStep(arrival, i, isOpen, true);
      SelectPrefixStep(arrival, i, isOpen, false);
      if isOpen(port) {
        open := open + [port];
      } else {
        closed := closed + [port];
      }
      i := i + 1;
    }
    assert arrival[..i] == arrival;
    ArrivalOrderIrrelevant(arrival, ports, isOpen, true);
    ArrivalOrderIrrelevant(arrival, ports, isOpen, false);
    f := PortFinding(Sort(open), Sort(closed), |ports|);
  }

  /** Sorting what was selected from a permutation of the port list gives
      what sorting the selection from the list itself gives. */
  lemma ArrivalOrderIrrelevant(arrival: seq<int>, ports: seq<int>, isOpen: int -> bool, keep: bool)
    requires multiset(arrival) == multiset(ports)
    ensures Sort(Select(arrival, isOpen, keep)) == Sort(Select(ports, isOpen, keep))
  {
    SelectRespectsPermutation(arrival, ports, isOpen, keep);
    SortedUnique(Sort(Select(arrival, isOpen, keep)), Sort(Select(ports, isOpen, keep)));
  }

  /** `scan_ports` after the connects: the verdicts arrive from the thread
      pool in some order, and the result does not depend on that order. */
  method ScanPorts(arrival: seq<int>, isOpen: int -> bool) returns (f: PortFinding)
    requires multiset(arrival) == multiset(CommonPorts)
    ensures f == Findings(isOpen)
  {
    CommonPortsDistinct();
    f := Collect(CommonPorts, arrival, isOpen);
  }
}
