/** A worked example: an item used 30 units by one department and 70 by
    another, then 50 units of it requested together with an item that has
    no history. */
module Scenario {
  import opened Wrappers
  import opened Text
  import opened Records
  import opened Proportion
  import opened Allocation

  function Flour(department: string, quantity: real): UsageRecord {
    UsageRecord(Date(2024, 3, 1), "F-01", "Flour", department, quantity)
  }

  function History(): seq<UsageRecord> {
    [Flour("Bakery", 30.0), Flour("Kitchen", 70.0)]
  }

  lemma HistoryMatching()
    ensures Matching(History(), Lower("FLOUR")) == History()
    ensures Matching(History(), Lower("flour")) == History()
    ensures Matching(History(), Lower("Sugar")) == []
  {
    assert Lower("FLOUR") == "flour";
    assert Lower("flour") == "flour";
    assert Lower("Flour") == "flour";
    assert Lower("Sugar") == "sugar";
    assert Lower("F-01") == "f-01";
    assert History()[1..][1..] == [];
  }

  lemma HistorySums()
    ensures Total(History()) == 100.0
    ensures Departments(History()) == ["Bakery", "Kitchen"]
    ensures DepartmentSum(History(), "Bakery") == 30.0
    ensures DepartmentSum(History(), "Kitchen") == 70.0
  {
    var h := History();
    assert h[..1] == [h[0]];
    assert h[..1][..0] == [];
  }

  lemma HistoryShares()
    ensures Percentages(History(), ["Bakery", "Kitchen"], 100.0) == [Share("Bakery", 30.0), Share("Kitchen", 70.0)]
    ensures SortDescending([Share("Bakery", 30.0), Share("Kitchen", 70.0)]) == [Share("Kitchen", 70.0), Share("Bakery", 30.0)]
  {
    HistorySums();
    var unsorted := [Share("Bakery", 30.0), Share("Kitchen", 70.0)];
    assert unsorted[1..] == [Share("Kitchen", 70.0)];
    assert unsorted[1..][1..] == [];
    assert SortDescending(unsorted[1..]) == [Share("Kitchen", 70.0)];
  }

  /** The departments come out largest share first: 70% then 30%. */
  lemma ScenarioProportion(identifier: string)
    requires identifier == "FLOUR" || identifier == "flour"
    ensures ProportionDefined(History(), identifier)
    ensures CalculateProportion(History(), identifier) == Some([Share("Kitchen", 70.0), Share("Bakery", 30.0)])
  {
    HistoryMatching();
    HistorySums();
    HistoryShares();
    var m := Matching(History(), Lower(identifier));
    assert m == History();
    assert Total(m) == 100.0;
    assert ProportionDefined(History(), identifier);
    var r := SortDescending(Percentages(m, Departments(m), Total(m)));
    assert r == [Share("Kitchen", 70.0), Share("Bakery", 30.0)];
  }

  lemma SugarHasNoHistory()
    ensures ProportionDefined(History(), "Sugar")
    ensures CalculateProportion(History(), "Sugar") == None
  {
    HistoryMatching();
  }

  lemma ScenarioRows()
    ensures AllocateRows([Share("Kitchen", 70.0), Share("Bakery", 30.0)], 50.0)
         == [AllocationRow("Kitchen", 70.0, 35), AllocationRow("Bakery", 30.0, 15)]
  {
    assert RoundHalfEven(70.0 / 100.0 * 50.0) == 35;
    assert RoundHalfEven(30.0 / 100.0 * 50.0) == 15;
  }

  function Expected(): seq<ItemAllocation> {
    [ItemAllocation("flour", [AllocationRow("Kitchen", 70.0, 35), AllocationRow("Bakery", 30.0, 15)])]
  }

  lemma FlourEntry(flour: Request)
    requires flour == Request("flour", 50.0)
    ensures ProportionDefined(History(), flour.identifier)
    ensures Entry(flour, CalculateProportion(History(), flour.identifier)) == Expected()
  {
    ScenarioProportion("flour");
    ScenarioRows();
  }

  lemma SugarEntry(sugar: Request)
    requires sugar == Request("Sugar", 10.0)
    ensures ProportionDefined(History(), sugar.identifier)
    ensures Entry(sugar, CalculateProportion(History(), sugar.identifier)) == []
  {
    SugarHasNoHistory();
  }

  lemma ScenarioEach(table: seq<UsageRecord>, flour: Request, sugar: Request)
    requires table == History() && flour == Request("flour", 50.0) && sugar == Request("Sugar", 10.0)
    ensures AllDefined(table, [flour]) && AllDefined(table, [sugar])
    ensures Allocations(table, [flour]) == Expected()
    ensures Allocations(table, [sugar]) == []
  {
    FlourEntry(flour);
    SugarEntry(sugar);
    AllocationsOfOne(table, flour);
    AllocationsOfOne(table, sugar);
  }

  /** Joining the results of two requests whose results are known. */
  lemma Joined(table: seq<UsageRecord>, flour: Request, sugar: Request, e: seq<ItemAllocation>)
    requires AllDefined(table, [flour]) && AllDefined(table, [sugar])
    requires Allocations(table, [flour]) == e && Allocations(table, [sugar]) == []
    ensures AllDefined(table, [flour, sugar]) && Allocations(table, [flour, sugar]) == e
  {
    assert [flour] + [sugar] == [flour, sugar];
    AllocationsAppend(table, [flour], [sugar]);
  }

  /** Requesting 50 units of the item with history and 10 of one without
      gives 35 and 15; the item without history is omitted. */
  lemma ScenarioAllocation(table: seq<UsageRecord>, flour: Request, sugar: Request)
    requires table == History() && flour == Request("flour", 50.0) && sugar == Request("Sugar", 10.0)
    ensures AllDefined(table, [flour, sugar])
    ensures Allocations(table, [flour, sugar]) == Expected()
  {
    ScenarioEach(table, flour, sugar);
    Joined(table, flour, sugar, Expected());
  }
}
