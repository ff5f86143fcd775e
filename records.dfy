/** Usage records and the cleaning that `load_data_from_google_sheet`
    applies to the rows it has fetched: rows whose quantity does not parse
    are dropped, then rows not dated in or after the cutoff year. Fetching
    and parsing themselves are outside the model: a raw row already carries
    the outcome of `pd.to_numeric` and `pd.to_datetime` with coercion, as an
    `Option` whose `None` is NaN or NaT. */
module Records {
  import opened Wrappers

  /** Rows dated before this year are dropped. */
  const CutoffYear: int := 2024

  datatype Date = Date(year: int, month: int, day: int)

  /** A fetched row after coercion of its date and quantity columns. */
  datatype RawRow = RawRow(
    date: Option<Date>,
    serial: string,
    name: string,
    department: string,
    quantity: Option<real>)

  /** A row of the cleaned usage table. */
  datatype UsageRecord = UsageRecord(
    date: Date,
    serial: string,
    name: string,
    department: string,
    quantity: real)

  /** The row survives both cleaning steps. */
  predicate Kept(row: RawRow) {
    row.quantity.Some? && row.date.Some? && row.date.value.year >= CutoffYear
  }

  function ToRecord(row: RawRow): UsageRecord
    requires row.quantity.Some? && row.date.Some?
  {
    UsageRecord(row.date.value, row.serial, row.name, row.department, row.quantity.value)
  }

  /** `dropna(subset=["QUANTITY"])`: drops the rows whose quantity did not parse. */
  function DropUnparsedQuantity(rows: seq<RawRow>): (r: seq<RawRow>)
    ensures forall x :: x in r ==> x in rows && x.quantity.Some?
    ensures forall x :: x in rows && x.quantity.Some? ==> x in r
    ensures |r| <= |rows|
  {
    if rows == [] then []
    else (if rows[0].quantity.Some? then [rows[0]] else []) + DropUnparsedQuantity(rows[1..])
  }

  /** `df[df["DATE"].dt.year >= 2024]`: keeps the rows dated in or after the
      cutoff year; a date that did not parse fails the comparison. */
  function SinceCutoff(rows: seq<RawRow>): (r: seq<UsageRecord>)
    requires forall x :: x in rows ==> x.quantity.Some?
    ensures forall u :: u in r ==> u.date.year >= CutoffYear
    ensures |r| <= |rows|
  {
    if rows == [] then []
    else
      var head := rows[0];
      (if head.date.Some? && head.date.value.year >= CutoffYear then [ToRecord(head)] else [])
      + SinceCutoff(rows[1..])
  }

  /** The cleaned table the rest of the program works on. */
  function Clean(rows: seq<RawRow>): (recs: seq<UsageRecord>)
    ensures forall u :: u in recs ==> u.date.year >= CutoffYear
    ensures |recs| <= |rows|
  {
    SinceCutoff(DropUnparsedQuantity(rows))
  }

  lemma {:induction false} DropUnparsedQuantityAppend(a: seq<RawRow>, b: seq<RawRow>)
    ensures DropUnparsedQuantity(a + b) == DropUnparsedQuantity(a) + DropUnparsedQuantity(b)
  {
    if a != [] {
      assert (a + b)[1..] == a[1..] + b;
      DropUnparsedQuantityAppend(a[1..], b);
    } else {
      assert a + b == b;
    }
  }

  lemma {:induction false} SinceCutoffAppend(a: seq<RawRow>, b: seq<RawRow>)
    requires forall x :: x in a ==> x.quantity.Some?
    requires forall x :: x in b ==> x.quantity.Some?
    ensures SinceCutoff(a + b) == SinceCutoff(a) + SinceCutoff(b)
  {
    if a != [] {
      assert (a + b)[1..] == a[1..] + b;
      SinceCutoffAppend(a[1..], b);
    } else {
      assert a + b == b;
    }
  }

  /** Cleaning works row by row: the cleaned table of two consecutive runs of
      rows is the two cleaned runs in the same order, so surviving rows keep
      their relative order. */
  lemma CleanAppend(a: seq<RawRow>, b: seq<RawRow>)
    ensures Clean(a + b) == Clean(a) + Clean(b)
  {
    DropUnparsedQuantityAppend(a, b);
    SinceCutoffAppend(DropUnparsedQuantity(a), DropUnparsedQuantity(b));
  }

  /** A single row survives exactly when its quantity parses and its date
      parses to a year no earlier than the cutoff, and it survives unchanged. */
  lemma CleanRow(row: RawRow)
    ensures Clean([row]) == if Kept(row) then [ToRecord(row)] else []
  {
    assert [row][1..] == [];
    if row.quantity.Some? {
      assert DropUnparsedQuantity([row]) == [row];
    }
  }

  /** A record is in the cleaned table exactly when some kept row converts to it. */
  lemma {:induction false} CleanMembership(rows: seq<RawRow>, u: UsageRecord)
    ensures u in Clean(rows) <==> exists i :: 0 <= i < |rows| && Kept(rows[i]) && ToRecord(rows[i]) == u
  {
    if rows != [] {
      assert rows == [rows[0]] + rows[1..];
      CleanAppend([rows[0]], rows[1..]);
      CleanRow(rows[0]);
      CleanMembership(rows[1..], u);
      if u in Clean(rows[1..]) {
        var i :| 0 <= i < |rows[1..]| && Kept(rows[1..][i]) && ToRecord(rows[1..][i]) == u;
        assert rows[i + 1] == rows[1..][i];
      }
      if exists i :: 0 <= i < |rows| && Kept(rows[i]) && ToRecord(rows[i]) == u {
        var i :| 0 <= i < |rows| && Kept(rows[i]) && ToRecord(rows[i]) == u;
        if i > 0 {
          assert rows[1..][i - 1] == rows[i];
        }
      }
    }
  }
}
