/**
 The currency step of `main`: `standardize_inr` applied column by column to the
 table built from the batch, inside one try block. Python's `float` and the
 `:,.2f` formatting are not modelled; they are the two functions of a
 `Numerics` value.
 */
module Currency {
  import opened Text
  import opened Records

  /** A table cell: a string, or Python's `None`. */
  datatype Cell = Str(s: string) | Null

  /** A row of the table: the record of one upload. */
  type Row = Dict<Cell>

  /** Python's numerics: whether `float(s)` succeeds, and the text
      `format(float(s), ",.2f")` when it does. */
  datatype Numerics = Numerics(parses: string -> bool, render: string -> string)

  /** What the model needs to know of `float`: it raises `ValueError` on any
      string holding a comma and on any string starting with `INR `. */
  ghost predicate FloatSyntax(n: Numerics) {
    forall s :: (',' in s || "INR " <= s) ==> !n.parses(s)
  }

  /** The currency columns, in the order the loop visits them. */
  const CurrencyFields: seq<string> := ["invoiced_amount", "total_amount", "gst", "subtotal", "item_price", "item_2_price", "item_total", "item_2_total"]

  /** `standardize_inr(value)`: `None` for a falsy value or when `float`
      fails, otherwise `INR ` followed by the formatted number. */
  function StandardizeInr(n: Numerics, v: Cell): (r: Cell)
    ensures r.Str? <==> v.Str? && v.s != "" && n.parses(v.s)
    ensures r.Str? ==> "INR " <= r.s && r.s[4..] == n.render(v.s)
  {
    match v
    case Null => Null
    case Str(s) =>
      if s == "" then Null
      else if n.parses(s) then Str("INR " + n.render(s))
      else Null
  }

  /** A standardised value is rejected by `float`, so a second pass turns it
      into `None`: the step is not idempotent. */
  lemma StandardizeTwice(n: Numerics, v: Cell)
    requires FloatSyntax(n)
    ensures StandardizeInr(n, StandardizeInr(n, v)) == Null
    ensures StandardizeInr(n, v).Str? ==> StandardizeInr(n, StandardizeInr(n, v)) != StandardizeInr(n, v)
  {
    var once := StandardizeInr(n, v);
    if once.Str? {
      assert !n.parses(once.s);
    }
  }

  /** Comma-grouped amounts, including an already standardised one, are
      rejected. */
  lemma GroupedAmountsRejected(n: Numerics)
    requires FloatSyntax(n)
    ensures StandardizeInr(n, Str("1,000")) == Null
    ensures StandardizeInr(n, Str("INR 1,000.00")) == Null
  {
    assert ',' in "1,000";
    assert ',' in "INR 1,000.00";
  }

  ghost predicate ValidRows(rows: seq<Row>) {
    forall i :: 0 <= i < |rows| ==> rows[i].Valid()
  }

  /** The table has a column `f`: some record has the key (pandas builds the
      columns as the union of the records' keys). */
  predicate HasColumn(rows: seq<Row>, f: string) {
    exists i :: 0 <= i < |rows| && f in rows[i].values
  }

  function StandardizeCell(n: Numerics, row: Row, f: string): (r: Row)
    requires row.Valid()
    ensures r.Valid() && r.order == row.order
  {
    if f in row.values then row.Put(f, StandardizeInr(n, row.values[f])) else row
  }

  /** `df[f] = df[f].apply(standardize_inr)` for a column that exists. */
  function StandardizeColumn(n: Numerics, rows: seq<Row>, f: string): (r: seq<Row>)
    requires ValidRows(rows)
    ensures |r| == |rows| && ValidRows(r)
    ensures forall i :: 0 <= i < |rows| ==> r[i].order == rows[i].order
    ensures forall i :: 0 <= i < |rows| && f in rows[i].values ==>
      r[i].Get(f) == Some(StandardizeInr(n, rows[i].values[f]))
    ensures forall i, k :: 0 <= i < |rows| && k != f ==> r[i].Get(k) == rows[i].Get(k)
  {
    seq(|rows|, i requires 0 <= i < |rows| && ValidRows(rows) => StandardizeCell(n, rows[i], f))
  }

  /** The loop over `fields` inside one try block: the first field with no
      column raises `KeyError`, which ends the loop. */
  function StandardizeColumns(n: Numerics, rows: seq<Row>, fields: seq<string>): (r: seq<Row>)
    requires ValidRows(rows)
    ensures |r| == |rows| && ValidRows(r)
    ensures forall i :: 0 <= i < |rows| ==> r[i].order == rows[i].order
    decreases |fields|
  {
    if fields == [] || !HasColumn(rows, fields[0]) then rows
    else StandardizeColumns(n, StandardizeColumn(n, rows, fields[0]), fields[1..])
  }

  /** How many leading fields have a column. */
  function Reached(rows: seq<Row>, fields: seq<string>): (k: nat)
    ensures k <= |fields|
    ensures forall j :: 0 <= j < k ==> HasColumn(rows, fields[j])
    ensures k == |fields| || !HasColumn(rows, fields[k])
  {
    if fields == [] || !HasColumn(rows, fields[0]) then 0
    else 1 + Reached(rows, fields[1..])
  }

  /** Rewriting values leaves the columns, and so `Reached`, unchanged. */
  lemma {:induction false} ReachedSameKeys(rows: seq<Row>, rows': seq<Row>, fields: seq<string>)
    requires |rows| == |rows'|
    requires forall i :: 0 <= i < |rows| ==> rows'[i].values.Keys == rows[i].values.Keys
    ensures Reached(rows', fields) == Reached(rows, fields)
    decreases |fields|
  {
    if fields != [] {
      assert HasColumn(rows', fields[0]) == HasColumn(rows, fields[0]) by {
        if HasColumn(rows, fields[0]) {
          var i :| 0 <= i < |rows| && fields[0] in rows[i].values;
          assert fields[0] in rows'[i].values;
        }
        if HasColumn(rows', fields[0]) {
          var i :| 0 <= i < |rows| && fields[0] in rows'[i].values;
          assert fields[0] in rows[i].values;
        }
      }
      ReachedSameKeys(rows, rows', fields[1..]);
    }
  }

  /** One column pass keeps every record's key set. */
  lemma StandardizeColumnKeys(n: Numerics, rows: seq<Row>, f: string)
    requires ValidRows(rows)
    ensures forall i :: 0 <= i < |rows| ==> StandardizeColumn(n, rows, f)[i].values.Keys == rows[i].values.Keys
  {
    var rows1 := StandardizeColumn(n, rows, f);
    forall i | 0 <= i < |rows|
      ensures rows1[i].values.Keys == rows[i].values.Keys
    {
      assert rows1[i].Valid() && rows[i].Valid();
      assert forall k :: k in rows1[i].values <==> k in rows[i].values;
    }
  }

  /** The currency loop standardises, in every record that has it, each
      field before the first missing column. */
  lemma {:induction false} StandardizeColumnsReached(n: Numerics, rows: seq<Row>, fields: seq<string>)
    requires ValidRows(rows)
    requires Distinct(fields)
    ensures forall i, j :: 0 <= i < |rows| && 0 <= j < Reached(rows, fields) && fields[j] in rows[i].values ==>
      StandardizeColumns(n, rows, fields)[i].Get(fields[j]) == Some(StandardizeInr(n, rows[i].values[fields[j]]))
    decreases |fields|
  {
    if fields != [] && HasColumn(rows, fields[0]) {
      var rows1 := StandardizeColumn(n, rows, fields[0]);
      LoopStep(n, rows, fields);
      StandardizeColumnsReached(n, rows1, fields[1..]);
      StandardizeColumnsOthers(n, rows1, fields[1..]);
      ReachedStep(n, rows, fields, Reached(rows, fields), StandardizeColumns(n, rows1, fields[1..]));
    }
  }

  /** One turn of the loop: when the first field has a column, the loop is
      that column's pass followed by the loop over the remaining fields, and
      it reaches one field more than that remaining loop. */
  lemma LoopStep(n: Numerics, rows: seq<Row>, fields: seq<string>)
    requires ValidRows(rows)
    requires fields != [] && HasColumn(rows, fields[0])
    ensures StandardizeColumns(n, rows, fields) == StandardizeColumns(n, StandardizeColumn(n, rows, fields[0]), fields[1..])
    ensures Reached(rows, fields) == 1 + Reached(StandardizeColumn(n, rows, fields[0]), fields[1..])
    ensures Distinct(fields) ==> Distinct(fields[1..])
  {
    var rows1 := StandardizeColumn(n, rows, fields[0]);
    StandardizeColumnKeys(n, rows, fields[0]);
    ReachedSameKeys(rows, rows1, fields[1..]);
  }

  /** The first of the reached fields is standardised by the first pass and
      left alone by the later ones; the others by the later passes. */
  lemma ReachedStep(n: Numerics, rows: seq<Row>, fields: seq<string>, k: nat, r: seq<Row>)
    requires ValidRows(rows) && Distinct(fields)
    requires 1 <= k <= |fields| && |r| == |rows|
    requires forall i, j :: 0 <= i < |rows| && 0 <= j < k - 1 && fields[1..][j] in StandardizeColumn(n, rows, fields[0])[i].values ==>
      r[i].Get(fields[1..][j]) == Some(StandardizeInr(n, StandardizeColumn(n, rows, fields[0])[i].values[fields[1..][j]]))
    requires forall i, key :: 0 <= i < |rows| && key !in fields[1..][..k - 1] ==>
      r[i].Get(key) == StandardizeColumn(n, rows, fields[0])[i].Get(key)
    ensures forall i, j :: 0 <= i < |rows| && 0 <= j < k && fields[j] in rows[i].values ==>
      r[i].Get(fields[j]) == Some(StandardizeInr(n, rows[i].values[fields[j]]))
  {
    var f := fields[0];
    var rows1 := StandardizeColumn(n, rows, f);
    forall i, j | 0 <= i < |rows| && 0 <= j < k && fields[j] in rows[i].values
      ensures r[i].Get(fields[j]) == Some(StandardizeInr(n, rows[i].values[fields[j]]))
    {
      if j == 0 {
        assert f !in fields[1..][..k - 1] by {
          assert fields[1..][..k - 1] == fields[1..k];
        }
      } else {
        assert fields[1..][j - 1] == fields[j];
        assert fields[j] != f;
        assert rows1[i].Get(fields[j]) == rows[i].Get(fields[j]);
      }
    }
  }

  /** The currency loop leaves every key outside the reached fields as it
      was: the first missing column, the fields after it and every other
      key. */
  lemma {:induction false} StandardizeColumnsOthers(n: Numerics, rows: seq<Row>, fields: seq<string>)
    requires ValidRows(rows)
    ensures forall i, k :: 0 <= i < |rows| && k !in fields[..Reached(rows, fields)] ==>
      StandardizeColumns(n, rows, fields)[i].Get(k) == rows[i].Get(k)
    decreases |fields|
  {
    if fields != [] && HasColumn(rows, fields[0]) {
      var rows1 := StandardizeColumn(n, rows, fields[0]);
      LoopStep(n, rows, fields);
      var done := fields[1..][..Reached(rows1, fields[1..])];
      StandardizeColumnsOthers(n, rows1, fields[1..]);
      PrefixOfTail(fields, Reached(rows, fields));
      OthersStep(n, rows, fields[0], done, StandardizeColumns(n, rows1, fields[1..]));
    }
  }

  /** A prefix is its first element followed by a prefix of the rest. */
  lemma PrefixOfTail(xs: seq<string>, j: nat)
    requires 1 <= j <= |xs|
    ensures xs[..j] == [xs[0]] + xs[1..][..j - 1]
  {
    assert xs[1..][..j - 1] == xs[1..j];
  }

  /** One more column pass in front of a pass that leaves the keys outside
      `done` alone leaves the keys outside `f` and `done` alone. */
  lemma OthersStep(n: Numerics, rows: seq<Row>, f: string, done: seq<string>, r: seq<Row>)
    requires ValidRows(rows)
    requires |r| == |rows|
    requires forall i, k :: 0 <= i < |rows| && k !in done ==> r[i].Get(k) == StandardizeColumn(n, rows, f)[i].Get(k)
    ensures forall i, k :: 0 <= i < |rows| && k !in [f] + done ==> r[i].Get(k) == rows[i].Get(k)
  {
    forall i, k | 0 <= i < |rows| && k !in [f] + done
      ensures r[i].Get(k) == rows[i].Get(k)
    {
      assert k != f && k !in done;
    }
  }

  lemma CurrencyFieldsDistinct()
    ensures Distinct(CurrencyFields)
  {
  }

  /** A parsed record as a table row: every value is a string cell. */
  function RowOf(d: Dict<string>): (r: Row)
    requires d.Valid()
    ensures r.Valid() && r.order == d.order
    ensures forall k :: d.Get(k).Some? <==> r.Get(k).Some?
    ensures forall k :: k in d.values ==> r.Get(k) == Some(Str(d.values[k]))
  {
    Dict(d.order, map k | k in d.values :: Str(d.values[k]))
  }

  /** Lines 100-112 of `Invoice-pro.py` on the whole table: the currency fields up
      to the first one without a column are standardised, in every record
      that has them; nothing else changes. */
  function StandardizeCurrency(n: Numerics, rows: seq<Row>): (r: seq<Row>)
    requires ValidRows(rows)
    ensures |r| == |rows| && ValidRows(r)
    ensures forall i :: 0 <= i < |rows| ==> r[i].order == rows[i].order
    ensures forall i, j :: 0 <= i < |rows| && 0 <= j < Reached(rows, CurrencyFields) && CurrencyFields[j] in rows[i].values ==>
      r[i].Get(CurrencyFields[j]) == Some(StandardizeInr(n, rows[i].values[CurrencyFields[j]]))
    ensures forall i, k :: 0 <= i < |rows| && k !in CurrencyFields[..Reached(rows, CurrencyFields)] ==>
      r[i].Get(k) == rows[i].Get(k)
  {
    CurrencyFieldsDistinct();
    StandardizeColumnsReached(n, rows, CurrencyFields);
    StandardizeColumnsOthers(n, rows, CurrencyFields);
    StandardizeColumns(n, rows, CurrencyFields)
  }
}
