/** `allocate_quantity`: splits each requested quantity between departments
    in proportion to their historical usage of the item. */
module Allocation {
  import opened Wrappers
  import opened Records
  import opened Proportion

  /** One entry of the request dictionary: an item identifier and the
      quantity available for it. */
  datatype Request = Request(identifier: string, quantity: real)

  /** A row of an item's allocation table: columns "Department",
      "Proportion (%)" and "Allocated Quantity". */
  datatype AllocationRow = AllocationRow(department: string, proportion: real, allocatedQuantity: int)

  /** An entry of the result dictionary. */
  datatype ItemAllocation = ItemAllocation(identifier: string, rows: seq<AllocationRow>)

  /** `round(0)` on a number: the nearest integer, and on a tie between two
      integers the even one. */
  function RoundHalfEven(x: real): (n: int)
    ensures -0.5 <= n as real - x <= 0.5
    ensures (n as real - x == 0.5 || x - n as real == 0.5) ==> n % 2 == 0
  {
    var f := x.Floor;
    var frac := x - f as real;
    if frac < 0.5 then f
    else if frac > 0.5 then f + 1
    else if f % 2 == 0 then f
    else f + 1
  }

  /** The rounding is the only integer with those two properties. */
  lemma RoundHalfEvenUnique(x: real, n: int)
    requires -0.5 <= n as real - x <= 0.5
    requires (n as real - x == 0.5 || x - n as real == 0.5) ==> n % 2 == 0
    ensures n == RoundHalfEven(x)
  {
  }

  /** `proportions["QUANTITY"] / 100 * quantity`, rounded, for one department. */
  function AllocateShare(share: Share, quantity: real): (row: AllocationRow)
    ensures row.department == share.department && row.proportion == share.percentage
    ensures -0.5 <= row.allocatedQuantity as real - share.percentage / 100.0 * quantity <= 0.5
  {
    AllocationRow(share.department, share.percentage, RoundHalfEven(share.percentage / 100.0 * quantity))
  }

  /** The allocation table of one item: each department gets its percentage
      of `quantity`, rounded on its own. */
  function AllocateRows(shares: seq<Share>, quantity: real): (rows: seq<AllocationRow>)
    ensures |rows| == |shares|
    ensures forall k :: 0 <= k < |rows| ==> rows[k] == AllocateShare(shares[k], quantity)
  {
    seq(|shares|, k requires 0 <= k < |shares| => AllocateShare(shares[k], quantity))
  }

  /** Every requested identifier has well-defined percentages. */
  predicate AllDefined(table: seq<UsageRecord>, request: seq<Request>) {
    forall j :: 0 <= j < |request| ==> ProportionDefined(table, request[j].identifier)
  }

  /** The result entry for one request, given what `calculate_proportion`
      returned for its identifier: nothing for `None`. */
  function Entry(item: Request, proportions: Option<seq<Share>>): (e: seq<ItemAllocation>)
    ensures |e| == if proportions.Some? then 1 else 0
    ensures forall x :: x in e ==> x.identifier == item.identifier
  {
    match proportions
    case None => []
    case Some(shares) => [ItemAllocation(item.identifier, AllocateRows(shares, item.quantity))]
  }

  /** `calculate_proportion` of every requested identifier, in request order. */
  function Lookups(table: seq<UsageRecord>, request: seq<Request>): (ps: seq<Option<seq<Share>>>)
    requires AllDefined(table, request)
    ensures |ps| == |request|
  {
    seq(|request|, j requires 0 <= j < |request| => CalculateProportion(table, request[j].identifier))
  }

  /** The result dictionary for requests whose proportions are `ps`, entries
      in request order. */
  function AllocationsFrom(request: seq<Request>, ps: seq<Option<seq<Share>>>): (r: seq<ItemAllocation>)
    requires |ps| == |request|
    ensures |r| <= |request|
    ensures (forall j :: 0 <= j < |ps| ==> ps[j].Some?) ==> |r| == |request|
  {
    if request == [] then []
    else
      assert forall j :: 0 <= j < |ps[1..]| ==> ps[1..][j] == ps[j + 1];
      Entry(request[0], ps[0]) + AllocationsFrom(request[1..], ps[1..])
  }


  /** The result dictionary of `allocate_quantity`. */
  function Allocations(table: seq<UsageRecord>, request: seq<Request>): (allocations: seq<ItemAllocation>)
    requires AllDefined(table, request)
    ensures |allocations| <= |request|
  {
    AllocationsFrom(request, Lookups(table, request))
  }

  /** One turn of the loop of `allocate_quantity`: look up the item's
      proportions and, when it has history, build its allocation table. */
  method AllocateItem(table: seq<UsageRecord>, item: Request) returns (entry: seq<ItemAllocation>)
    requires ProportionDefined(table, item.identifier)
    ensures AllDefined(table, [item])
    ensures entry == Allocations(table, [item])
  {
    var proportions := CalculateProportion(table, item.identifier);
    if proportions.None? {
      entry := [];
    } else {
      var rows := AllocateRows(proportions.value, item.quantity);
      entry := [ItemAllocation(item.identifier, rows)];
    }
    AllocationsOfOne(table, item);
  }

  /** `allocate_quantity(df, item_quantities)`. */
  method AllocateQuantity(table: seq<UsageRecord>, request: seq<Request>) returns (allocations: seq<ItemAllocation>)
    requires AllDefined(table, request)
    ensures allocations == Allocations(table, request)
  {
    allocations := [];
    AllDefinedPrefix(table, request, 0);
    for i := 0 to |request|
      invariant AllDefined(table, request[..i])
      invariant allocations == Allocations(table, request[..i])
    {
      var entry := AllocateItem(table, request[i]);
      AllocationsStep(table, request, i);
      allocations := allocations + entry;
    }
    assert request[..|request|] == request;
  }

  /** One turn of the loop: the result for the first `i + 1` requests is the
      result for the first `i` followed by the result for request `i` alone. */
  lemma AllocationsStep(table: seq<UsageRecord>, request: seq<Request>, i: nat)
    requires i < |request| && AllDefined(table, request[..i]) && AllDefined(table, [request[i]])
    ensures AllDefined(table, request[..i + 1])
    ensures Allocations(table, request[..i + 1]) == Allocations(table, request[..i]) + Allocations(table, [request[i]])
  {
    assert request[..i + 1] == request[..i] + [request[i]];
    AllocationsAppend(table, request[..i], [request[i]]);
  }

  // ---------------------------------------------------------------------
  // What `allocate_quantity` promises.

  /** The identifiers of the result, in order. */
  function IdentifiersOf(allocations: seq<ItemAllocation>): (ids: seq<string>)
    ensures |ids| == |allocations|
    ensures forall k :: 0 <= k < |ids| ==> ids[k] == allocations[k].identifier
  {
    seq(|allocations|, k requires 0 <= k < |allocations| => allocations[k].identifier)
  }

  /** The requested identifiers that have history, in request order. */
  function KeptIdentifiers(table: seq<UsageRecord>, request: seq<Request>): (ids: seq<string>)
    ensures forall id :: id in ids <==>
      exists j :: 0 <= j < |request| && request[j].identifier == id && HasHistory(table, id)
  {
    if request == [] then []
    else
      var rest := KeptIdentifiers(table, request[1..]);
      var head := request[0].identifier;
      assert forall j :: 0 <= j < |request[1..]| ==> request[1..][j] == request[j + 1];
      (if HasHistory(table, head) then [head] else []) + rest
  }



  lemma IdentifiersOfAppend(x: seq<ItemAllocation>, y: seq<ItemAllocation>)
    ensures IdentifiersOf(x + y) == IdentifiersOf(x) + IdentifiersOf(y)
  {
  }

  lemma AllDefinedPrefix(table: seq<UsageRecord>, request: seq<Request>, n: nat)
    requires AllDefined(table, request) && n <= |request|
    ensures AllDefined(table, request[..n])
    ensures Lookups(table, request[..n]) == Lookups(table, request)[..n]
  {
    forall j | 0 <= j < n ensures ProportionDefined(table, request[..n][j].identifier) {
      assert request[..n][j] == request[j];
    }
  }

  /** `calculate_proportion` finds history exactly for the identifiers that have some. */
  lemma LookupsHistory(table: seq<UsageRecord>, request: seq<Request>)
    requires AllDefined(table, request)
    ensures forall j :: 0 <= j < |request| ==>
      (Lookups(table, request)[j].Some? <==> HasHistory(table, request[j].identifier))
  {
  }

  lemma {:induction false} AllocationsFromKeys(table: seq<UsageRecord>, request: seq<Request>, ps: seq<Option<seq<Share>>>)
    requires |ps| == |request|
    requires forall j :: 0 <= j < |request| ==> (ps[j].Some? <==> HasHistory(table, request[j].identifier))
    ensures IdentifiersOf(AllocationsFrom(request, ps)) == KeptIdentifiers(table, request)
  {
    if request != [] {
      var rest, qs := request[1..], ps[1..];
      forall j | 0 <= j < |rest| ensures qs[j].Some? <==> HasHistory(table, rest[j].identifier) {
        assert rest[j] == request[j + 1] && qs[j] == ps[j + 1];
      }
      AllocationsFromKeys(table, rest, qs);
      var first := Entry(request[0], ps[0]);
      assert IdentifiersOf(first)
          == if HasHistory(table, request[0].identifier) then [request[0].identifier] else [];
      IdentifiersOfAppend(first, AllocationsFrom(rest, qs));
    }
  }


  /** The keys of the result are exactly the requested identifiers for which
      `calculate_proportion` finds history, in request order; the others are
      omitted. */
  lemma AllocationsKeys(table: seq<UsageRecord>, request: seq<Request>)
    requires AllDefined(table, request)
    ensures IdentifiersOf(Allocations(table, request)) == KeptIdentifiers(table, request)
  {
    LookupsHistory(table, request);
    AllocationsFromKeys(table, request, Lookups(table, request));
  }

  lemma {:induction false} AllocationsFromAppend(
    a: seq<Request>, pa: seq<Option<seq<Share>>>, b: seq<Request>, pb: seq<Option<seq<Share>>>)
    requires |pa| == |a| && |pb| == |b|
    ensures AllocationsFrom(a + b, pa + pb) == AllocationsFrom(a, pa) + AllocationsFrom(b, pb)
  {
    if a == [] {
      assert a + b == b && pa + pb == pb;
    } else {
      assert (a + b)[1..] == a[1..] + b;
      assert (pa + pb)[1..] == pa[1..] + pb;
      AllocationsFromAppend(a[1..], pa[1..], b, pb);
    }
  }


  lemma LookupsAppend(table: seq<UsageRecord>, a: seq<Request>, b: seq<Request>)
    requires AllDefined(table, a) && AllDefined(table, b) && AllDefined(table, a + b)
    ensures Lookups(table, a + b) == Lookups(table, a) + Lookups(table, b)
  {
    var pa, pb := Lookups(table, a), Lookups(table, b);
    forall j | 0 <= j < |a + b| ensures Lookups(table, a + b)[j] == (pa + pb)[j] {
      if j < |a| {
        assert (a + b)[j] == a[j];
      } else {
        assert (a + b)[j] == b[j - |a|];
      }
    }
  }

  /** Requests are handled one by one: the result for two runs of requests is
      the two results in order. */
  lemma AllocationsAppend(table: seq<UsageRecord>, a: seq<Request>, b: seq<Request>)
    requires AllDefined(table, a) && AllDefined(table, b)
    ensures AllDefined(table, a + b)
    ensures Allocations(table, a + b) == Allocations(table, a) + Allocations(table, b)
  {
    assert AllDefined(table, a + b) by {
      forall j | 0 <= j < |a + b| ensures ProportionDefined(table, (a + b)[j].identifier) {
        if j < |a| {
          assert (a + b)[j] == a[j];
        } else {
          assert (a + b)[j] == b[j - |a|];
        }
      }
    }
    var pa, pb := Lookups(table, a), Lookups(table, b);
    LookupsAppend(table, a, b);
    AllocationsFromAppend(a, pa, b, pb);
  }

  /** The result for a single request is that request's entry, if any. */
  lemma AllocationsOfOne(table: seq<UsageRecord>, item: Request)
    requires ProportionDefined(table, item.identifier)
    ensures AllDefined(table, [item])
    ensures Allocations(table, [item]) == Entry(item, CalculateProportion(table, item.identifier))
  {
    var ps := Lookups(table, [item]);
    assert ps[0] == CalculateProportion(table, item.identifier);
    assert [item][..0] == [] && ps[..0] == [];
    assert AllocationsFrom([item], ps) == AllocationsFrom([], []) + Entry(item, ps[0]);
  }

  /** The rows are `calculate_proportion`'s shares in the same order, each
      with its percentage of `quantity` rounded half to even. */
  predicate AllocatedFrom(shares: seq<Share>, quantity: real, rows: seq<AllocationRow>) {
    && |rows| == |shares|
    && forall k :: 0 <= k < |rows| ==>
         && rows[k].department == shares[k].department
         && rows[k].proportion == shares[k].percentage
         && rows[k].allocatedQuantity == RoundHalfEven(shares[k].percentage / 100.0 * quantity)
  }

  lemma AllocateRowsAllocatedFrom(shares: seq<Share>, quantity: real)
    ensures AllocatedFrom(shares, quantity, AllocateRows(shares, quantity))
  {
    var rows := AllocateRows(shares, quantity);
    forall k | 0 <= k < |shares|
      ensures rows[k].allocatedQuantity == RoundHalfEven(shares[k].percentage / 100.0 * quantity)
    {
      assert rows[k] == AllocateShare(shares[k], quantity);
    }
  }

  /** An entry exists only for proportions that were found, and its rows are
      allocated from them. */
  lemma EntryAllocatedFrom(item: Request, proportions: Option<seq<Share>>, entry: ItemAllocation)
    requires entry in Entry(item, proportions)
    ensures entry.identifier == item.identifier
    ensures proportions.Some?
    ensures AllocatedFrom(proportions.value, item.quantity, entry.rows)
  {
    AllocateRowsAllocatedFrom(proportions.value, item.quantity);
  }

  lemma {:induction false} AllocationsFromEntries(request: seq<Request>, ps: seq<Option<seq<Share>>>, k: nat)
    requires |ps| == |request|
    requires k < |AllocationsFrom(request, ps)|
    ensures var entry := AllocationsFrom(request, ps)[k];
      exists j :: 0 <= j < |request| && request[j].identifier == entry.identifier
        && ps[j].Some? && AllocatedFrom(ps[j].value, request[j].quantity, entry.rows)
  {
    var first := Entry(request[0], ps[0]);
    var rest, qs := request[1..], ps[1..];
    var entry := AllocationsFrom(request, ps)[k];
    if k < |first| {
      assert entry == first[k];
      EntryAllocatedFrom(request[0], ps[0], entry);
    } else {
      AllocationsFromEntries(rest, qs, k - |first|);
      assert entry == AllocationsFrom(rest, qs)[k - |first|];
      var j :| 0 <= j < |rest| && rest[j].identifier == entry.identifier
        && qs[j].Some? && AllocatedFrom(qs[j].value, rest[j].quantity, entry.rows);
      assert request[j + 1] == rest[j] && ps[j + 1] == qs[j];
    }
  }


  /** Every entry of the result comes from a requested identifier that has
      history, and carries that item's shares with their allocations. */
  lemma AllocationsEntries(table: seq<UsageRecord>, request: seq<Request>, k: nat)
    requires AllDefined(table, request)
    requires k < |Allocations(table, request)|
    ensures var entry := Allocations(table, request)[k];
      exists j :: 0 <= j < |request| && request[j].identifier == entry.identifier
        && CalculateProportion(table, entry.identifier).Some?
        && AllocatedFrom(CalculateProportion(table, entry.identifier).value, request[j].quantity, entry.rows)
  {
    var ps := Lookups(table, request);
    AllocationsFromEntries(request, ps, k);
    var entry := Allocations(table, request)[k];
    var j :| 0 <= j < |request| && request[j].identifier == entry.identifier
      && ps[j].Some? && AllocatedFrom(ps[j].value, request[j].quantity, entry.rows);
    assert ps[j] == CalculateProportion(table, entry.identifier);
  }

  /** A request quantity of zero allocates nothing to any department. */
  lemma AllocateRowsZero(shares: seq<Share>)
    ensures forall k :: 0 <= k < |shares| ==> AllocateRows(shares, 0.0)[k].allocatedQuantity == 0
  {
  }

  /** The rounded allocations need not add up to the requested quantity:
      three equal shares of one unit each round down to nothing. */
  lemma RoundingDrift()
    ensures var rows := AllocateRows([Share("A", 100.0 / 3.0), Share("B", 100.0 / 3.0), Share("C", 100.0 / 3.0)], 1.0);
      rows[0].allocatedQuantity + rows[1].allocatedQuantity + rows[2].allocatedQuantity == 0
  {
    var third := 100.0 / 3.0 / 100.0 * 1.0;
    assert third == 1.0 / 3.0;
    assert RoundHalfEven(third) == 0;
  }
}
