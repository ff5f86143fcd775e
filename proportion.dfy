/** `calculate_proportion`: the share of an item's recorded usage that each
    department accounts for, as percentages sorted from largest to smallest. */
module Proportion {
  import opened Wrappers
  import opened Text
  import opened Records

  /** One row of the result: a department and its percentage of the item's usage. */
  datatype Share = Share(department: string, percentage: real)

  /** The record is for the item whose lower-cased identifier is `key`:
      its serial or its name, lower-cased, equals the key. */
  predicate MatchesKey(r: UsageRecord, key: string)
    ensures MatchesKey(r, key) ==> Lower(key) == key
  {
    LowerIdempotent(r.serial);
    LowerIdempotent(r.name);
    Lower(r.serial) == key || Lower(r.name) == key
  }

  /** The records of the item, in table order. */
  function Matching(table: seq<UsageRecord>, key: string): (m: seq<UsageRecord>)
    ensures forall r :: r in m <==> r in table && MatchesKey(r, key)
  {
    if table == [] then []
    else (if MatchesKey(table[0], key) then [table[0]] else []) + Matching(table[1..], key)
  }

  /** The item's records keep their multiplicity: a record that matches
      occurs as often as in the table, and any other record not at all. */
  lemma {:induction false} MatchingMultiplicity(table: seq<UsageRecord>, key: string)
    ensures forall r :: multiset(Matching(table, key))[r] == if MatchesKey(r, key) then multiset(table)[r] else 0
  {
    if table != [] {
      assert table == [table[0]] + table[1..];
      MatchingMultiplicity(table[1..], key);
    }
  }

  /** Total quantity of a run of records. */
  function Total(recs: seq<UsageRecord>): (t: real)
    ensures (forall i :: 0 <= i < |recs| ==> recs[i].quantity >= 0.0) ==> t >= 0.0
  {
    if recs == [] then 0.0 else Total(recs[..|recs| - 1]) + recs[|recs| - 1].quantity
  }

  /** Total quantity of the records of one department (the group-by sum). */
  function DepartmentSum(recs: seq<UsageRecord>, d: string): (s: real)
    ensures (forall i :: 0 <= i < |recs| ==> recs[i].department != d) ==> s == 0.0
  {
    if recs == [] then 0.0
    else
      var last := recs[|recs| - 1];
      DepartmentSum(recs[..|recs| - 1], d) + (if last.department == d then last.quantity else 0.0)
  }

  predicate Distinct(ds: seq<string>) {
    forall i, j :: 0 <= i < j < |ds| ==> ds[i] != ds[j]
  }

  /** The group keys: every department of the records, once each, in order of
      first appearance. */
  function Departments(recs: seq<UsageRecord>): (ds: seq<string>)
    ensures forall d :: d in ds <==> exists i :: 0 <= i < |recs| && recs[i].department == d
    ensures Distinct(ds)
  {
    if recs == [] then []
    else
      var init := recs[..|recs| - 1];
      var d := recs[|recs| - 1].department;
      var ds0 := Departments(init);
      assert forall i :: 0 <= i < |init| ==> init[i] == recs[i];
      if d in ds0 then ds0 else ds0 + [d]
  }

  /** Sum of the group sums over a list of departments. */
  function SumOfDepartmentSums(recs: seq<UsageRecord>, ds: seq<string>): real {
    if ds == [] then 0.0 else DepartmentSum(recs, ds[0]) + SumOfDepartmentSums(recs, ds[1..])
  }

  /** `usage_summary / usage_summary.sum() * 100`, department by department. */
  function Percentages(recs: seq<UsageRecord>, ds: seq<string>, total: real): (r: seq<Share>)
    requires total != 0.0
    ensures |r| == |ds|
    ensures forall k :: 0 <= k < |r| ==> r[k].department == ds[k]
    ensures forall k :: 0 <= k < |r| ==> r[k].percentage == DepartmentSum(recs, ds[k]) / total * 100.0
  {
    if ds == [] then []
    else [Share(ds[0], DepartmentSum(recs, ds[0]) / total * 100.0)] + Percentages(recs, ds[1..], total)
  }

  function SumOfPercentages(s: seq<Share>): real {
    if s == [] then 0.0 else s[0].percentage + SumOfPercentages(s[1..])
  }

  predicate SortedDescending(s: seq<Share>) {
    forall i, j :: 0 <= i < j < |s| ==> s[i].percentage >= s[j].percentage
  }

  predicate DistinctDepartments(s: seq<Share>) {
    forall i, j :: 0 <= i < j < |s| ==> s[i].department != s[j].department
  }

  /** Places `x` before the first share whose percentage it reaches. */
  function Insert(x: Share, s: seq<Share>): (r: seq<Share>)
    ensures multiset(r) == multiset(s) + multiset{x}
  {
    if s == [] || x.percentage >= s[0].percentage then [x] + s
    else
      assert s == [s[0]] + s[1..];
      [s[0]] + Insert(x, s[1..])
  }

  /** No share of the list exceeds `bound`. */
  predicate AtMost(s: seq<Share>, bound: real) {
    forall k :: 0 <= k < |s| ==> s[k].percentage <= bound
  }

  lemma {:induction false} InsertAtMost(x: Share, s: seq<Share>, bound: real)
    requires x.percentage <= bound && AtMost(s, bound)
    ensures AtMost(Insert(x, s), bound)
  {
    if s != [] && x.percentage < s[0].percentage {
      InsertAtMost(x, s[1..], bound);
      var rest := Insert(x, s[1..]);
      assert forall k :: 0 < k < |rest| + 1 ==> ([s[0]] + rest)[k] == rest[k - 1];
    }
  }

  lemma ConsSorted(a: Share, s: seq<Share>)
    requires SortedDescending(s) && AtMost(s, a.percentage)
    ensures SortedDescending([a] + s)
  {
    var r := [a] + s;
    forall i, j | 0 <= i < j < |r| ensures r[i].percentage >= r[j].percentage {
      assert r[j] == s[j - 1];
      if i > 0 {
        assert r[i] == s[i - 1];
      }
    }
  }

  lemma TailSorted(s: seq<Share>)
    requires s != [] && SortedDescending(s)
    ensures SortedDescending(s[1..]) && AtMost(s[1..], s[0].percentage)
  {
    var tail := s[1..];
    forall k | 0 <= k < |tail| ensures tail[k].percentage <= s[0].percentage {
      assert tail[k] == s[k + 1];
    }
  }

  lemma {:induction false} InsertSorted(x: Share, s: seq<Share>)
    requires SortedDescending(s)
    ensures SortedDescending(Insert(x, s))
  {
    if s != [] && x.percentage < s[0].percentage {
      TailSorted(s);
      InsertSorted(x, s[1..]);
      InsertAtMost(x, s[1..], s[0].percentage);
      ConsSorted(s[0], Insert(x, s[1..]));
    } else {
      assert AtMost(s, x.percentage) by {
        if s != [] {
          TailSorted(s);
          forall k | 0 < k < |s| ensures s[k].percentage <= x.percentage {
            assert s[k] == s[1..][k - 1];
          }
        }
      }
      ConsSorted(x, s);
    }
  }


  /** Stands for `sort_values(ascending=False)`; this insertion sort keeps
      input order among ties, which the code leaves unspecified. */
  function SortDescending(s: seq<Share>): (r: seq<Share>)
    ensures multiset(r) == multiset(s)
    ensures SortedDescending(r)
  {
    if s == [] then []
    else
      assert s == [s[0]] + s[1..];
      var rest := SortDescending(s[1..]);
      InsertSorted(s[0], rest);
      Insert(s[0], rest)
  }

  /** The percentages are defined: the item has no records, or its records
      do not total zero (a zero total would divide by zero). */
  predicate ProportionDefined(table: seq<UsageRecord>, identifier: string) {
    var m := Matching(table, Lower(identifier));
    m == [] || Total(m) != 0.0
  }

  /** Some record's serial or name equals the identifier, ignoring case. */
  predicate HasHistory(table: seq<UsageRecord>, identifier: string) {
    exists i :: 0 <= i < |table| && MatchesKey(table[i], Lower(identifier))
  }

  /** `calculate_proportion(df, identifier)`: `None` when no record matches,
      otherwise every department's percentage of the item's total usage,
      largest first. */
  function CalculateProportion(table: seq<UsageRecord>, identifier: string): (r: Option<seq<Share>>)
    requires ProportionDefined(table, identifier)
    ensures r.Some? <==> HasHistory(table, identifier)
    ensures r.Some? ==> |r.value| > 0 && SortedDescending(r.value)
  {
    var m := Matching(table, Lower(identifier));
    if m == [] then None
    else
      assert m[0] in table;
      var ds := Departments(m);
      assert m[0].department in ds;
      Some(SortDescending(Percentages(m, ds, Total(m))))
  }

  // ---------------------------------------------------------------------
  // The group-by sums add up to the item's total.


  lemma {:induction false} DepartmentSumSnoc(recs: seq<UsageRecord>, r: UsageRecord, d: string)
    ensures DepartmentSum(recs + [r], d) == DepartmentSum(recs, d) + (if r.department == d then r.quantity else 0.0)
  {
    assert (recs + [r])[..|recs|] == recs;
  }

  lemma {:induction false} SumOfDepartmentSumsSnoc(recs: seq<UsageRecord>, ds: seq<string>, d: string)
    ensures SumOfDepartmentSums(recs, ds + [d]) == SumOfDepartmentSums(recs, ds) + DepartmentSum(recs, d)
  {
    if ds == [] {
      assert [d][1..] == [];
    } else {
      assert (ds + [d])[1..] == ds[1..] + [d];
      SumOfDepartmentSumsSnoc(recs, ds[1..], d);
    }
  }

  /** Adding one record to the table adds its quantity to exactly one group
      sum among distinct departments, if its department is among them. */
  lemma {:induction false} SumOfDepartmentSumsAddRecord(recs: seq<UsageRecord>, r: UsageRecord, ds: seq<string>)
    requires Distinct(ds)
    ensures SumOfDepartmentSums(recs + [r], ds)
         == SumOfDepartmentSums(recs, ds) + (if r.department in ds then r.quantity else 0.0)
  {
    if ds != [] {
      assert Distinct(ds[1..]) by {
        forall i, j | 0 <= i < j < |ds[1..]| ensures ds[1..][i] != ds[1..][j] {
          assert ds[1..][i] == ds[i + 1] && ds[1..][j] == ds[j + 1];
        }
      }
      assert ds[0] !in ds[1..] by {
        forall k | 0 <= k < |ds[1..]| ensures ds[1..][k] != ds[0] {
          assert ds[1..][k] == ds[k + 1];
        }
      }
      assert ds == [ds[0]] + ds[1..];
      SumOfDepartmentSumsAddRecord(recs, r, ds[1..]);
      DepartmentSumSnoc(recs, r, ds[0]);
    }
  }

  /** Summing `groupby("DEPARTMENT_CAT")["QUANTITY"].sum()` over its groups
      gives back the total quantity of the records. */
  lemma {:induction false} GroupSumsAddUpToTotal(recs: seq<UsageRecord>)
    ensures SumOfDepartmentSums(recs, Departments(recs)) == Total(recs)
  {
    if recs != [] {
      var init := recs[..|recs| - 1];
      var r := recs[|recs| - 1];
      assert recs == init + [r];
      var ds0 := Departments(init);
      GroupSumsAddUpToTotal(init);
      SumOfDepartmentSumsAddRecord(init, r, ds0);
      if r.department !in ds0 {
        SumOfDepartmentSumsSnoc(recs, ds0, r.department);
        DepartmentSumSnoc(init, r, r.department);
      }
    }
  }

  lemma PercentageOfSum(a: real, b: real, total: real)
    requires total != 0.0
    ensures a / total * 100.0 + b / total * 100.0 == (a + b) / total * 100.0
  {
    assert a / total + b / total == (a + b) / total;
  }

  lemma {:induction false} PercentagesSum(recs: seq<UsageRecord>, ds: seq<string>, total: real)
    requires total != 0.0
    ensures SumOfPercentages(Percentages(recs, ds, total)) == SumOfDepartmentSums(recs, ds) / total * 100.0
  {
    if ds != [] {
      var r := Percentages(recs, ds, total);
      assert r[1..] == Percentages(recs, ds[1..], total);
      PercentagesSum(recs, ds[1..], total);
      PercentageOfSum(DepartmentSum(recs, ds[0]), SumOfDepartmentSums(recs, ds[1..]), total);
    }
  }

  // ---------------------------------------------------------------------
  // Sorting keeps the sum and the departments.

  lemma {:induction false} InsertSum(x: Share, s: seq<Share>)
    ensures SumOfPercentages(Insert(x, s)) == x.percentage + SumOfPercentages(s)
  {
    if s != [] && x.percentage < s[0].percentage {
      var r := Insert(x, s[1..]);
      assert ([s[0]] + r)[1..] == r;
      InsertSum(x, s[1..]);
    } else {
      assert ([x] + s)[1..] == s;
    }
  }

  lemma {:induction false} SortSum(s: seq<Share>)
    ensures SumOfPercentages(SortDescending(s)) == SumOfPercentages(s)
  {
    if s != [] {
      SortSum(s[1..]);
      InsertSum(s[0], SortDescending(s[1..]));
    }
  }

  lemma ConsDistinct(a: Share, s: seq<Share>)
    requires DistinctDepartments(s)
    requires forall y :: y in s ==> y.department != a.department
    ensures DistinctDepartments([a] + s)
  {
    var r := [a] + s;
    forall i, j | 0 <= i < j < |r| ensures r[i].department != r[j].department {
      if i > 0 {
        assert r[i] == s[i - 1] && r[j] == s[j - 1];
      } else {
        assert r[j] in s;
      }
    }
  }

  lemma TailDistinct(s: seq<Share>)
    requires s != [] && DistinctDepartments(s)
    ensures DistinctDepartments(s[1..])
    ensures forall y :: y in s[1..] ==> y.department != s[0].department
  {
    var tail := s[1..];
    forall i, j | 0 <= i < j < |tail| ensures tail[i].department != tail[j].department {
      assert tail[i] == s[i + 1] && tail[j] == s[j + 1];
    }
    forall y | y in tail ensures y.department != s[0].department {
      var k :| 0 <= k < |tail| && tail[k] == y;
      assert s[k + 1] == y;
    }
  }

  lemma {:induction false} InsertDistinct(x: Share, s: seq<Share>)
    requires DistinctDepartments(s)
    requires forall y :: y in s ==> y.department != x.department
    ensures DistinctDepartments(Insert(x, s))
  {
    if s != [] && x.percentage < s[0].percentage {
      var tail := s[1..];
      TailDistinct(s);
      assert forall y :: y in tail ==> y in s;
      InsertDistinct(x, tail);
      var rest := Insert(x, tail);
      assert x.department != s[0].department by {
        assert s[0] in s;
      }
      forall y | y in rest ensures y.department != s[0].department {
        assert y in multiset(rest);
      }
      ConsDistinct(s[0], rest);
      assert Insert(x, s) == [s[0]] + rest;
    } else {
      ConsDistinct(x, s);
    }
  }


  lemma {:induction false} SortDistinct(s: seq<Share>)
    requires DistinctDepartments(s)
    ensures DistinctDepartments(SortDescending(s))
  {
    if s != [] {
      var tail := s[1..];
      TailDistinct(s);
      SortDistinct(tail);
      var rest := SortDescending(tail);
      forall y | y in rest ensures y.department != s[0].department {
        assert y in multiset(rest);
      }
      InsertDistinct(s[0], rest);
    }
  }


  // ---------------------------------------------------------------------
  // What `calculate_proportion` promises.

  /** Matching ignores case: identifiers that lower-case alike give the same result. */
  lemma ProportionIgnoresCase(table: seq<UsageRecord>, a: string, b: string)
    requires Lower(a) == Lower(b)
    requires ProportionDefined(table, a)
    ensures ProportionDefined(table, b)
    ensures CalculateProportion(table, a) == CalculateProportion(table, b)
  {
  }

  /** In particular an identifier gives the same result as its lower-cased form. */
  lemma ProportionOfLowered(table: seq<UsageRecord>, identifier: string)
    requires ProportionDefined(table, identifier)
    ensures ProportionDefined(table, Lower(identifier))
    ensures CalculateProportion(table, Lower(identifier)) == CalculateProportion(table, identifier)
  {
    LowerIdempotent(identifier);
  }

  /** The departments of a list of shares, in order. */
  function DepartmentsOf(s: seq<Share>): (ds: seq<string>)
    ensures |ds| == |s|
    ensures forall k :: 0 <= k < |s| ==> ds[k] == s[k].department
  {
    seq(|s|, k requires 0 <= k < |s| => s[k].department)
  }

  lemma DepartmentsOfMember(s: seq<Share>, d: string)
    ensures d in DepartmentsOf(s) <==> exists y :: y in s && y.department == d
  {
    if d in DepartmentsOf(s) {
      var k :| 0 <= k < |s| && DepartmentsOf(s)[k] == d;
      assert s[k] in s;
    }
    if exists y :: y in s && y.department == d {
      var y :| y in s && y.department == d;
      var k :| 0 <= k < |s| && s[k] == y;
      assert DepartmentsOf(s)[k] == d;
    }
  }

  lemma SortKeepsDepartments(s: seq<Share>, d: string)
    ensures d in DepartmentsOf(SortDescending(s)) <==> d in DepartmentsOf(s)
  {
    var r := SortDescending(s);
    DepartmentsOfMember(r, d);
    DepartmentsOfMember(s, d);
    forall y ensures y in r <==> y in s {
      assert y in r <==> y in multiset(r);
      assert y in s <==> y in multiset(s);
    }
  }


  lemma MatchingDepartment(table: seq<UsageRecord>, key: string, d: string)
    ensures (exists i :: 0 <= i < |Matching(table, key)| && Matching(table, key)[i].department == d)
        <==> (exists i :: 0 <= i < |table| && MatchesKey(table[i], key) && table[i].department == d)
  {
    var m := Matching(table, key);
    var inM := exists i :: 0 <= i < |m| && m[i].department == d;
    var inTable := exists i :: 0 <= i < |table| && MatchesKey(table[i], key) && table[i].department == d;
    assert inM ==> inTable by {
      if inM {
        var i :| 0 <= i < |m| && m[i].department == d;
        assert m[i] in table && MatchesKey(m[i], key);
        var k :| 0 <= k < |table| && table[k] == m[i];
        assert MatchesKey(table[k], key) && table[k].department == d;
      }
    }
    assert inTable ==> inM by {
      if inTable {
        var i :| 0 <= i < |table| && MatchesKey(table[i], key) && table[i].department == d;
        assert table[i] in m;
        var j :| 0 <= j < |m| && m[j] == table[i];
        assert m[j].department == d;
      }
    }
  }

  /** The sorted shares of a non-empty group list each department of the
      records once. */
  lemma SharesDepartments(m: seq<UsageRecord>, d: string)
    requires Total(m) != 0.0
    ensures var shares := SortDescending(Percentages(m, Departments(m), Total(m)));
      && DistinctDepartments(shares)
      && (d in DepartmentsOf(shares) <==> exists i :: 0 <= i < |m| && m[i].department == d)
  {
    var ds := Departments(m);
    var unsorted := Percentages(m, ds, Total(m));
    assert DistinctDepartments(unsorted);
    SortDistinct(unsorted);
    assert DepartmentsOf(unsorted) == ds;
    SortKeepsDepartments(unsorted, d);
  }

  lemma MatchingShares(table: seq<UsageRecord>, key: string)
    requires Total(Matching(table, key)) != 0.0
    ensures var m := Matching(table, key);
      var shares := SortDescending(Percentages(m, Departments(m), Total(m)));
      && DistinctDepartments(shares)
      && forall d :: d in DepartmentsOf(shares)
                 <==> (exists i :: 0 <= i < |table| && MatchesKey(table[i], key) && table[i].department == d)
  {
    var m := Matching(table, key);
    var shares := SortDescending(Percentages(m, Departments(m), Total(m)));
    SharesDepartments(m, "");
    forall d ensures d in DepartmentsOf(shares)
                 <==> (exists i :: 0 <= i < |table| && MatchesKey(table[i], key) && table[i].department == d)
    {
      SharesDepartments(m, d);
      MatchingDepartment(table, key, d);
    }
  }


  /** The result lists every department of the item's records, and each once. */
  lemma ProportionDepartments(table: seq<UsageRecord>, identifier: string)
    requires ProportionDefined(table, identifier)
    ensures CalculateProportion(table, identifier).Some? ==>
      var shares := CalculateProportion(table, identifier).value;
      && DistinctDepartments(shares)
      && forall d :: d in DepartmentsOf(shares)
                 <==> (exists i :: 0 <= i < |table| && MatchesKey(table[i], Lower(identifier)) && table[i].department == d)
  {
    var m := Matching(table, Lower(identifier));
    if m != [] {
      MatchingShares(table, Lower(identifier));
    }
  }



  /** Each department's percentage is its group sum over the item's total, times 100. */
  lemma SharesPercentages(m: seq<UsageRecord>)
    requires Total(m) != 0.0
    ensures var shares := SortDescending(Percentages(m, Departments(m), Total(m)));
      forall k :: 0 <= k < |shares| ==>
        shares[k].percentage == DepartmentSum(m, shares[k].department) / Total(m) * 100.0
  {
    var unsorted := Percentages(m, Departments(m), Total(m));
    var shares := SortDescending(unsorted);
    forall k | 0 <= k < |shares|
      ensures shares[k].percentage == DepartmentSum(m, shares[k].department) / Total(m) * 100.0
    {
      assert shares[k] in multiset(unsorted);
    }
  }


  lemma ProportionPercentages(table: seq<UsageRecord>, identifier: string)
    requires ProportionDefined(table, identifier)
    ensures CalculateProportion(table, identifier).Some? ==>
      var shares := CalculateProportion(table, identifier).value;
      var m := Matching(table, Lower(identifier));
      forall k :: 0 <= k < |shares| ==>
        shares[k].percentage == DepartmentSum(m, shares[k].department) / Total(m) * 100.0
  {
    var m := Matching(table, Lower(identifier));
    if m != [] {
      var shares := CalculateProportion(table, identifier).value;
      assert shares == SortDescending(Percentages(m, Departments(m), Total(m)));
      SharesPercentages(m);
    }
  }


  lemma DivSelf(t: real)
    requires t != 0.0
    ensures t / t * 100.0 == 100.0
  {
  }

  /** The percentages of the sorted shares of an item add up to 100. */
  lemma SharesSumToHundred(m: seq<UsageRecord>)
    requires Total(m) != 0.0
    ensures SumOfPercentages(SortDescending(Percentages(m, Departments(m), Total(m)))) == 100.0
  {
    var ds := Departments(m);
    var t := Total(m);
    GroupSumsAddUpToTotal(m);
    PercentagesSum(m, ds, t);
    SortSum(Percentages(m, ds, t));
    DivSelf(t);
  }

  /** The percentages of an item add up to exactly 100. */
  lemma ProportionSumsToHundred(table: seq<UsageRecord>, identifier: string)
    requires ProportionDefined(table, identifier)
    ensures CalculateProportion(table, identifier).Some? ==>
      SumOfPercentages(CalculateProportion(table, identifier).value) == 100.0
  {
    var m := Matching(table, Lower(identifier));
    if m != [] {
      SharesSumToHundred(m);
    }
  }


  lemma {:induction false} DepartmentSumBounds(recs: seq<UsageRecord>, d: string)
    requires forall i :: 0 <= i < |recs| ==> recs[i].quantity >= 0.0
    ensures 0.0 <= DepartmentSum(recs, d) <= Total(recs)
  {
    if recs != [] {
      DepartmentSumBounds(recs[..|recs| - 1], d);
    }
  }

  lemma PercentageOfPart(part: real, total: real)
    requires 0.0 <= part <= total && total != 0.0
    ensures 0.0 <= part / total * 100.0 <= 100.0
  {
    assert part / total <= 1.0;
  }

  /** With no negative quantities in the table, every percentage lies
      between 0 and 100. */
  lemma ProportionBounds(table: seq<UsageRecord>, identifier: string)
    requires forall i :: 0 <= i < |table| ==> table[i].quantity >= 0.0
    requires ProportionDefined(table, identifier)
    ensures CalculateProportion(table, identifier).Some? ==>
      var shares := CalculateProportion(table, identifier).value;
      forall k :: 0 <= k < |shares| ==> 0.0 <= shares[k].percentage <= 100.0
  {
    var m := Matching(table, Lower(identifier));
    if m != [] {
      var shares := CalculateProportion(table, identifier).value;
      assert forall i :: 0 <= i < |m| ==> m[i].quantity >= 0.0 by {
        forall i | 0 <= i < |m| ensures m[i].quantity >= 0.0 {
          assert m[i] in table;
        }
      }
      ProportionPercentages(table, identifier);
      forall k | 0 <= k < |shares| ensures 0.0 <= shares[k].percentage <= 100.0 {
        var d := shares[k].department;
        DepartmentSumBounds(m, d);
        PercentageOfPart(DepartmentSum(m, d), Total(m));
      }
    }
  }
}
