/**
  Resource nodes of the PCI host bridge and the order in which the allocation
  phase serves them.
 */
module HostBridgeNodes {
  import opened Uefi

  const TypeIo: nat := 0
  const TypeMem32: nat := 1
  const TypePMem32: nat := 2
  const TypeMem64: nat := 3
  const TypePMem64: nat := 4
  const TypeBus: nat := 5
  const TypeMax: nat := 6

  datatype ResStatus = ResNone | ResSubmitted | ResAllocated

  /** PCI_RES_NODE. */
  datatype ResNode = ResNode(base: u64, length: u64, alignment: u64, status: ResStatus, tracked: bool)

  /** A node after BeginEnumeration or FreeResources. */
  function Cleared(n: ResNode): ResNode { n.(base := 0, length := 0, alignment := 0, status := ResNone) }

  predicate Wanted(nodes: seq<ResNode>, i: nat)
    requires |nodes| == TypeMax
  {
    i < TypeBus && nodes[i].status != ResNone
  }

  /** Nodes nobody submitted are empty, as BeginEnumeration and the free phase leave them. */
  predicate Tidy(nodes: seq<ResNode>) {
    && |nodes| == TypeMax
    && forall i :: 0 <= i < TypeBus && nodes[i].status == ResNone ==> nodes[i].length == 0 && nodes[i].alignment == 0
  }

  /** Node i is served before node j: larger alignment first, then larger index. */
  predicate ServedBefore(nodes: seq<ResNode>, i: nat, j: nat)
    requires |nodes| == TypeMax && i < TypeMax && j < TypeMax
  {
    nodes[i].alignment > nodes[j].alignment || (nodes[i].alignment == nodes[j].alignment && i > j)
  }

  /** A selection order: each wanted node exactly once, in serving order. */
  ghost predicate IsServingOrder(nodes: seq<ResNode>, order: seq<nat>)
    requires |nodes| == TypeMax
  {
    && (forall k :: 0 <= k < |order| ==> Wanted(nodes, order[k]))
    && (forall i :: 0 <= i < TypeBus && Wanted(nodes, i) ==> i in order)
    && (forall j, k :: 0 <= j < k < |order| ==> ServedBefore(nodes, order[j], order[k]))
  }

  /** The wanted nodes below n. */
  ghost function WantedBelow(nodes: seq<ResNode>, n: nat): set<nat>
    requires |nodes| == TypeMax && n <= TypeBus
  {
    set i | 0 <= i < n && Wanted(nodes, i)
  }

  /** There is only one serving order. */
  lemma {:induction false} ServingOrderIsUnique(nodes: seq<ResNode>, a: seq<nat>, b: seq<nat>)
    requires |nodes| == TypeMax && IsServingOrder(nodes, a) && IsServingOrder(nodes, b)
    ensures a == b
  {
    SameElements(nodes, a, b);
    SortedIsUnique(nodes, a, b);
  }

  lemma SameElements(nodes: seq<ResNode>, a: seq<nat>, b: seq<nat>)
    requires |nodes| == TypeMax && IsServingOrder(nodes, a) && IsServingOrder(nodes, b)
    ensures forall i :: i in a <==> i in b
  {}

  ghost predicate Sorted(nodes: seq<ResNode>, s: seq<nat>)
    requires |nodes| == TypeMax
  {
    && (forall k :: 0 <= k < |s| ==> s[k] < TypeMax)
    && forall j, k :: 0 <= j < k < |s| ==> ServedBefore(nodes, s[j], s[k])
  }

  lemma HeadsAgree(nodes: seq<ResNode>, a: seq<nat>, b: seq<nat>)
    requires |nodes| == TypeMax && Sorted(nodes, a) && Sorted(nodes, b) && a != [] && b != []
    requires a[0] in b && b[0] in a
    ensures a[0] == b[0]
  {}

  lemma TailMembers(nodes: seq<ResNode>, a: seq<nat>, b: seq<nat>, i: nat)
    requires |nodes| == TypeMax && Sorted(nodes, a) && a != [] && b != [] && a[0] == b[0]
    requires i in a ==> i in b
    ensures i in a[1..] ==> i in b[1..]
  {
    if i in a[1..] {
      var k :| 0 <= k < |a| - 1 && a[1..][k] == i;
      assert ServedBefore(nodes, a[0], a[k + 1]);
      assert b == [b[0]] + b[1..];
    }
  }

  lemma {:induction false} SortedIsUnique(nodes: seq<ResNode>, a: seq<nat>, b: seq<nat>)
    requires |nodes| == TypeMax && Sorted(nodes, a) && Sorted(nodes, b)
    requires forall i :: i in a <==> i in b
    ensures a == b
  {
    assert b != [] ==> b[0] in b;
    if a != [] {
      assert a[0] in a;
      HeadsAgree(nodes, a, b);
      forall i: nat ensures i in a[1..] <==> i in b[1..] {
        TailMembers(nodes, a, b, i);
        TailMembers(nodes, b, a, i);
      }
      SortedIsUnique(nodes, a[1..], b[1..]);
      assert a == [a[0]] + a[1..] && b == [b[0]] + b[1..];
    }
  }

  ghost function Members(s: seq<nat>): set<nat> { set i | i in s }

  lemma {:induction false} MembersCount(s: seq<nat>)
    ensures |Members(s)| <= |s|
  {
    if s == [] {
      assert Members(s) == {};
    } else {
      assert s == [s[0]] + s[1..];
      assert Members(s) == {s[0]} + Members(s[1..]);
      MembersCount(s[1..]);
    }
  }

  lemma {:induction false} CardinalityMonotonic(a: set<nat>, b: set<nat>)
    requires a <= b
    ensures |a| <= |b|
  {
    if a != {} {
      var x :| x in a;
      CardinalityMonotonic(a - {x}, b - {x});
    }
  }

  lemma WantedBelowStep(nodes: seq<ResNode>, n: nat)
    requires |nodes| == TypeMax && n < TypeBus
    ensures |WantedBelow(nodes, n + 1)| == |WantedBelow(nodes, n)| + (if Wanted(nodes, n) then 1 else 0)
  {
    hide Wanted;
    if Wanted(nodes, n) {
      assert n !in WantedBelow(nodes, n);
      assert WantedBelow(nodes, n + 1) == WantedBelow(nodes, n) + {n};
    } else {
      assert WantedBelow(nodes, n + 1) == WantedBelow(nodes, n);
    }
  }

  lemma WantedBelowGrows(nodes: seq<ResNode>, m: nat, n: nat)
    requires |nodes| == TypeMax && m < n <= TypeBus && Wanted(nodes, m)
    ensures |WantedBelow(nodes, m)| < |WantedBelow(nodes, n)|
  {
    WantedBelowStep(nodes, m);
    CardinalityMonotonic(WantedBelow(nodes, m + 1), WantedBelow(nodes, n));
  }

  /** Node i is out of the selection: served already, or passed by the outer loop
      because nobody wants it. */
  predicate Handled(nodes: seq<ResNode>, order: seq<nat>, index1: nat, i: nat)
    requires |nodes| == TypeMax && i < TypeBus
  {
    i in order || (i < index1 && !Wanted(nodes, i))
  }

  /** What the inner selection loop picks. */
  ghost predicate IsPick(nodes: seq<ResNode>, order: seq<nat>, index1: nat, i: nat)
    requires |nodes| == TypeMax
  {
    && i < TypeBus && !Handled(nodes, order, index1, i)
    && forall j :: 0 <= j < TypeBus && j != i && !Handled(nodes, order, index1, j) ==> ServedBefore(nodes, i, j)
  }

  /** The picks made while the outer index runs through [0, n): one for every wanted node. */
  ghost predicate Selected(nodes: seq<ResNode>, order: seq<nat>, n: nat)
    requires |nodes| == TypeMax && n <= TypeBus
  {
    if n == 0 then order == []
    else if !Wanted(nodes, n - 1) then Selected(nodes, order, n - 1)
    else
      && order != []
      && Selected(nodes, order[..|order| - 1], n - 1)
      && IsPick(nodes, order[..|order| - 1], n - 1, order[|order| - 1])
  }

  /** There is only one selection. */
  lemma {:induction false} SelectionIsUnique(nodes: seq<ResNode>, a: seq<nat>, b: seq<nat>, n: nat)
    requires |nodes| == TypeMax && n <= TypeBus && Selected(nodes, a, n) && Selected(nodes, b, n)
    ensures a == b
  {
    if n != 0 && !Wanted(nodes, n - 1) {
      SelectionIsUnique(nodes, a, b, n - 1);
    } else if n != 0 {
      SelectionIsUnique(nodes, a[..|a| - 1], b[..|b| - 1], n - 1);
      assert a == a[..|a| - 1] + [a[|a| - 1]] && b == b[..|b| - 1] + [b[|b| - 1]];
    }
  }

  /** The picks so far are distinct, in serving order, and ahead of all that is left. */
  ghost predicate Ahead(nodes: seq<ResNode>, order: seq<nat>, n: nat)
    requires |nodes| == TypeMax
  {
    && Sorted(nodes, order)
    && (forall k :: 0 <= k < |order| ==> order[k] < TypeBus)
    && forall k, i :: 0 <= k < |order| && 0 <= i < TypeBus && !Handled(nodes, order, n, i) ==>
         ServedBefore(nodes, order[k], i)
  }

  lemma {:induction false} SelectedIsAhead(nodes: seq<ResNode>, order: seq<nat>, n: nat)
    requires |nodes| == TypeMax && n <= TypeBus && Selected(nodes, order, n)
    ensures Ahead(nodes, order, n) && |order| == |WantedBelow(nodes, n)|
  {
    if n == 0 {
      assert WantedBelow(nodes, 0) == {};
    } else {
      WantedBelowStep(nodes, n - 1);
      hide Ahead, Handled, WantedBelow, IsPick;
      if Wanted(nodes, n - 1) {
        var last := |order| - 1;
        SelectedIsAhead(nodes, order[..last], n - 1);
        AheadWithPick(nodes, order[..last], n, order[last]);
        assert order == order[..last] + [order[last]];
      } else {
        SelectedIsAhead(nodes, order, n - 1);
        AheadOfMore(nodes, order, n);
      }
    }
  }

  /** The next pick comes behind those before it and ahead of all that are left. */
  lemma AheadWithPick(nodes: seq<ResNode>, order: seq<nat>, n: nat, pick: nat)
    requires |nodes| == TypeMax && 0 < n <= TypeBus && Wanted(nodes, n - 1)
    requires Ahead(nodes, order, n - 1) && IsPick(nodes, order, n - 1, pick)
    ensures Ahead(nodes, order + [pick], n)
  {
    var longer := order + [pick];
    forall k, i | 0 <= k < |longer| && 0 <= i < TypeBus && !Handled(nodes, longer, n, i) ensures ServedBefore(nodes, longer[k], i) {
      assert i != pick && !Handled(nodes, order, n - 1, i) by {
        assert longer[|order|] == pick;
      }
    }
  }

  /** A node nobody wants is handled without being picked. */
  lemma AheadOfMore(nodes: seq<ResNode>, order: seq<nat>, n: nat)
    requires |nodes| == TypeMax && 0 < n <= TypeBus && Ahead(nodes, order, n - 1)
    ensures Ahead(nodes, order, n)
  {
    forall i | 0 <= i < TypeBus && !Handled(nodes, order, n, i) ensures !Handled(nodes, order, n - 1, i) {}
  }

  lemma {:induction false} SelectedPrefix(nodes: seq<ResNode>, order: seq<nat>, n: nat, m: nat)
    requires |nodes| == TypeMax && m <= n <= TypeBus && Selected(nodes, order, n)
    ensures |WantedBelow(nodes, m)| <= |order| && Selected(nodes, order[..|WantedBelow(nodes, m)|], m)
  {
    SelectedIsAhead(nodes, order, n);
    if m == n {
      assert order[..|order|] == order;
    } else if Wanted(nodes, n - 1) {
      var shorter := order[..|order| - 1];
      SelectedPrefix(nodes, shorter, n - 1, m);
      assert shorter[..|WantedBelow(nodes, m)|] == order[..|WantedBelow(nodes, m)|];
    } else {
      SelectedPrefix(nodes, order, n - 1, m);
    }
  }

  lemma {:induction false} SortedCount(nodes: seq<ResNode>, order: seq<nat>)
    requires |nodes| == TypeMax && Sorted(nodes, order)
    ensures |Members(order)| == |order|
  {
    if order == [] {
      assert Members(order) == {};
    } else {
      var rest := order[1..];
      forall k | 0 <= k < |rest| ensures rest[k] != order[0] {
        assert ServedBefore(nodes, order[0], order[k + 1]);
      }
      assert order == [order[0]] + rest;
      assert Members(order) == {order[0]} + Members(rest);
      SortedCount(nodes, rest);
    }
  }

  /** The assertion after the inner loop holds: at every wanted outer index some
      node is left to pick. */
  lemma SomeoneIsLeft(nodes: seq<ResNode>, order: seq<nat>, n: nat)
    requires |nodes| == TypeMax && n < TypeBus && Wanted(nodes, n) && Selected(nodes, order, n)
    ensures exists i :: 0 <= i < TypeBus && !Handled(nodes, order, n, i)
  {
    if forall i :: 0 <= i < TypeBus ==> Handled(nodes, order, n, i) {
      SelectedIsAhead(nodes, order, n);
      var larger := WantedBelow(nodes, n) + {n};
      forall i | i in larger ensures i in Members(order) {
        assert Handled(nodes, order, n, i);
      }
      CardinalityMonotonic(larger, Members(order));
      MembersCount(order);
      assert false;
    }
  }

  /** The requests that are served before node r. */
  ghost function Outranking(nodes: seq<ResNode>, r: nat): set<nat>
    requires |nodes| == TypeMax && r < TypeBus
  {
    set i | 0 <= i < TypeBus && Wanted(nodes, i) && ServedBefore(nodes, i, r)
  }

  /** No node that was not requested outranks too many of the requests below it. */
  ghost predicate NobodyOvertakes(nodes: seq<ResNode>)
    requires |nodes| == TypeMax
  {
    forall r :: 0 <= r < TypeBus && !Wanted(nodes, r) ==> |WantedBelow(nodes, r)| <= |Outranking(nodes, r)|
  }

  ghost predicate OnlyWanted(nodes: seq<ResNode>, order: seq<nat>)
    requires |nodes| == TypeMax
  {
    forall k :: 0 <= k < |order| ==> Wanted(nodes, order[k])
  }

  lemma {:induction false} NobodyOvertakesIsEnough(nodes: seq<ResNode>, order: seq<nat>, n: nat)
    requires |nodes| == TypeMax && n <= TypeBus && Selected(nodes, order, n) && NobodyOvertakes(nodes)
    ensures OnlyWanted(nodes, order)
  {
    if n != 0 && !Wanted(nodes, n - 1) {
      NobodyOvertakesIsEnough(nodes, order, n - 1);
    } else if n != 0 {
      var before, pick := order[..|order| - 1], order[|order| - 1];
      NobodyOvertakesIsEnough(nodes, before, n - 1);
      if !Wanted(nodes, pick) {
        var w := NotYetServed(nodes, before, n - 1, pick);
        assert false;
      }
    }
  }

  lemma NotYetServed(nodes: seq<ResNode>, order: seq<nat>, n: nat, r: nat) returns (w: nat)
    requires |nodes| == TypeMax && n < r < TypeBus && Selected(nodes, order, n) && NobodyOvertakes(nodes)
    requires Wanted(nodes, n) && !Wanted(nodes, r)
    ensures w in Outranking(nodes, r) && !Handled(nodes, order, n, w)
  {
    SelectedIsAhead(nodes, order, n);
    WantedBelowGrows(nodes, n, r);
    if Outranking(nodes, r) <= Members(order) {
      CardinalityMonotonic(Outranking(nodes, r), Members(order));
      MembersCount(order);
      assert false;
    }
    w :| w in Outranking(nodes, r) && w !in Members(order);
  }

  lemma OvertakingIsSeen(nodes: seq<ResNode>, order: seq<nat>, r: nat)
    requires |nodes| == TypeMax && Selected(nodes, order, TypeBus) && OnlyWanted(nodes, order)
    requires r < TypeBus && !Wanted(nodes, r)
    ensures |WantedBelow(nodes, r)| <= |Outranking(nodes, r)|
  {
    SelectedPrefix(nodes, order, TypeBus, r);
    var early := order[..|WantedBelow(nodes, r)|];
    SelectedIsAhead(nodes, early, r);
    assert !Handled(nodes, early, r, r);
    forall i | i in Members(early) ensures i in Outranking(nodes, r) {
      var k :| 0 <= k < |early| && early[k] == i;
      assert order[k] == i;
    }
    CardinalityMonotonic(Members(early), Outranking(nodes, r));
    SortedCount(nodes, early);
  }

  /** A selection serves every request exactly once, in serving order, if and only
      if nobody overtakes. */
  lemma ServesAllIffNobodyOvertakes(nodes: seq<ResNode>, order: seq<nat>)
    requires |nodes| == TypeMax && Selected(nodes, order, TypeBus)
    ensures IsServingOrder(nodes, order) <==> NobodyOvertakes(nodes)
    ensures IsServingOrder(nodes, order) <==> OnlyWanted(nodes, order)
  {
    if NobodyOvertakes(nodes) {
      NobodyOvertakesIsEnough(nodes, order, TypeBus);
    }
    if OnlyWanted(nodes, order) {
      forall r | 0 <= r < TypeBus && !Wanted(nodes, r) ensures |WantedBelow(nodes, r)| <= |Outranking(nodes, r)| {
        OvertakingIsSeen(nodes, order, r);
      }
      AllServed(nodes, order);
    }
  }

  /** As many nodes were served as are wanted, so all of them were. */
  lemma AllServed(nodes: seq<ResNode>, order: seq<nat>)
    requires |nodes| == TypeMax && Selected(nodes, order, TypeBus) && OnlyWanted(nodes, order)
    ensures IsServingOrder(nodes, order)
  {
    SelectedIsAhead(nodes, order, TypeBus);
    SortedCount(nodes, order);
    SameSizeSubset(Members(order), WantedBelow(nodes, TypeBus));
    forall i | 0 <= i < TypeBus && Wanted(nodes, i) ensures i in order {
      assert i in WantedBelow(nodes, TypeBus);
    }
  }

  lemma SameSizeSubset(a: set<nat>, b: set<nat>)
    requires a <= b && |a| == |b|
    ensures a == b
  {
    if a != b {
      var x :| x in b && x !in a;
      CardinalityMonotonic(a, b - {x});
    }
  }

  /** Requests with an alignment of at least 1 are never overtaken. */
  lemma AlignedRequestsAreServed(nodes: seq<ResNode>)
    requires Tidy(nodes) && forall i :: 0 <= i < TypeBus && Wanted(nodes, i) ==> nodes[i].alignment >= 1
    ensures NobodyOvertakes(nodes)
  {
    forall r | 0 <= r < TypeBus && !Wanted(nodes, r) ensures |WantedBelow(nodes, r)| <= |Outranking(nodes, r)| {
      CardinalityMonotonic(WantedBelow(nodes, r), Outranking(nodes, r));
    }
  }

  /** A byte-aligned I/O request, alone, is overtaken by a node nobody requested. */
  lemma UnalignedRequestIsOvertaken(nodes: seq<ResNode>, order: seq<nat>)
    requires Tidy(nodes) && Selected(nodes, order, TypeBus)
    requires nodes[TypeIo].status == ResSubmitted && nodes[TypeIo].alignment == 0
    requires forall i :: TypeIo < i < TypeBus ==> nodes[i].status == ResNone
    ensures order == [TypePMem64] && !IsServingOrder(nodes, order)
  {
    SelectedIsAhead(nodes, order, TypeBus);
    WantedBelowStep(nodes, 0);
    assert WantedBelow(nodes, 0) == {};
    SelectedPrefix(nodes, order, TypeBus, 1);
    assert WantedBelow(nodes, TypeBus) == WantedBelow(nodes, 1);
    assert order[..1] == order;
    assert !Handled(nodes, [], 0, TypePMem64);
  }

  /** The inner selection loop: among the unhandled nodes the last one of maximal
      alignment, or TypeMax if all are handled. */
  method SelectNode(nodes: seq<ResNode>, handled: array<bool>) returns (index: nat)
    requires |nodes| == TypeMax && handled.Length == TypeMax
    ensures index == TypeMax <==> forall i :: 0 <= i < TypeBus ==> handled[i]
    ensures index != TypeMax ==>
              && index < TypeBus && !handled[index]
              && forall i :: 0 <= i < TypeBus && !handled[i] && i != index ==> ServedBefore(nodes, index, i)
  {
    var maxAlignment: u64 := 0;
    index := TypeMax;
    var index2 := TypeIo;
    while index2 < TypeBus
      invariant index2 <= TypeBus
      invariant index == TypeMax ==> maxAlignment == 0 && forall i :: 0 <= i < index2 ==> handled[i]
      invariant index != TypeMax ==>
                  && index < index2 && !handled[index] && maxAlignment == nodes[index].alignment
                  && forall i :: 0 <= i < index2 && !handled[i] && i != index ==> ServedBefore(nodes, index, i)
    {
      if !handled[index2] && maxAlignment <= nodes[index2].alignment {
        maxAlignment := nodes[index2].alignment;
        index := index2;
      }
      index2 := index2 + 1;
    }
  }
}
