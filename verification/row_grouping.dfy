/** Row filtering and grouping by person (`handleFileUpload`, the
    `raw.slice(1).forEach` step): keep rows with a non-empty person and
    non-zero, numeric coordinates, and collect each person's coordinates in
    row order. */
module RowGrouping {
  import opened Options
  import opened Geometry

  /** One data row after cell extraction: the trimmed `PERSONEL` text and the
      `Number(...)` values of `ENLEM` / `BOYLAM`, None standing for `NaN`. */
  datatype Row = Row(person: string, lat: Option<real>, lng: Option<real>)

  /** The guard `!person || !lat || !lng` does not fire: the person is
      non-empty and both coordinates are numbers other than 0. */
  predicate Usable(row: Row) {
    && row.person != ""
    && row.lat.Some? && row.lat.value != 0.0
    && row.lng.Some? && row.lng.value != 0.0
  }

  function CoordOf(row: Row): Coord
    requires Usable(row)
  {
    Coord(row.lat.value, row.lng.value)
  }

  /** The rows the guard keeps, in input order: a single row is kept exactly
      when it is usable, and `KeepUsableAppend` states that the rows of a
      concatenation are filtered part by part, so order and repetitions are kept. */
  function KeepUsable(rows: seq<Row>): (r: seq<Row>)
    ensures |r| <= |rows|
    ensures forall x :: x in r <==> x in rows && Usable(x)
    ensures |rows| == 1 ==> (r == if Usable(rows[0]) then rows else [])
  {
    if |rows| == 0 then []
    else if Usable(rows[0]) then [rows[0]] + KeepUsable(rows[1..])
    else KeepUsable(rows[1..])
  }

  /** Filtering a concatenation filters each part, keeping the parts in order. */
  lemma {:induction false} KeepUsableAppend(a: seq<Row>, b: seq<Row>)
    ensures KeepUsable(a + b) == KeepUsable(a) + KeepUsable(b)
  {
    if |a| == 0 {
      assert a + b == b;
    } else {
      assert (a + b)[0] == a[0];
      assert (a + b)[1..] == a[1..] + b;
      KeepUsableAppend(a[1..], b);
    }
  }

  /** Filtering already-filtered rows drops nothing. */
  lemma {:induction false} KeepUsableIdempotent(rows: seq<Row>)
    ensures KeepUsable(KeepUsable(rows)) == KeepUsable(rows)
  {
    if |rows| > 0 {
      KeepUsableIdempotent(rows[1..]);
      var tail := KeepUsable(rows[1..]);
      if Usable(rows[0]) {
        assert KeepUsable(rows) == [rows[0]] + tail;
        assert ([rows[0]] + tail)[1..] == tail;
      }
    }
  }

  /** Reference definition: the coordinates of `person`'s usable rows, in row order. */
  function PersonCoords(rows: seq<Row>, person: string): seq<Coord> {
    if |rows| == 0 then []
    else if Usable(rows[0]) && rows[0].person == person then [CoordOf(rows[0])] + PersonCoords(rows[1..], person)
    else PersonCoords(rows[1..], person)
  }

  /** Earlier rows contribute earlier coordinates: row order is kept. */
  lemma {:induction false} PersonCoordsAppend(a: seq<Row>, b: seq<Row>, person: string)
    ensures PersonCoords(a + b, person) == PersonCoords(a, person) + PersonCoords(b, person)
  {
    if |a| > 0 {
      assert (a + b)[1..] == a[1..] + b;
      PersonCoordsAppend(a[1..], b, person);
    } else {
      assert a + b == b;
    }
  }

  /** The persons that own at least one usable row. */
  ghost function Persons(rows: seq<Row>): set<string> {
    set i | 0 <= i < |rows| && Usable(rows[i]) :: rows[i].person
  }

  /** `grouped[person].push(...)` for one row, creating the list when absent. */
  function AddRow(grouped: map<string, seq<Coord>>, row: Row): map<string, seq<Coord>>
    requires Usable(row)
  {
    var sofar := if row.person in grouped then grouped[row.person] else [];
    grouped[row.person := sofar + [CoordOf(row)]]
  }

  /** The `forEach` over rows, continuing from the groups built so far. */
  function GroupFrom(grouped: map<string, seq<Coord>>, rows: seq<Row>): map<string, seq<Coord>>
    decreases |rows|
  {
    if |rows| == 0 then grouped
    else
      var next := if Usable(rows[0]) then AddRow(grouped, rows[0]) else grouped;
      GroupFrom(next, rows[1..])
  }

  /** The loop adds exactly the usable rows' persons as keys. */
  lemma {:induction false} GroupFromKeys(grouped: map<string, seq<Coord>>, rows: seq<Row>)
    ensures GroupFrom(grouped, rows).Keys == grouped.Keys + Persons(rows)
    decreases |rows|
  {
    if |rows| > 0 {
      var next := if Usable(rows[0]) then AddRow(grouped, rows[0]) else grouped;
      GroupFromKeys(next, rows[1..]);
      PersonsCons(rows);
    }
  }

  /** The loop appends each person's coordinates, in row order, to what was there. */
  lemma {:induction false} GroupFromValues(grouped: map<string, seq<Coord>>, rows: seq<Row>, p: string)
    ensures p in GroupFrom(grouped, rows) ==>
      GroupFrom(grouped, rows)[p] == (if p in grouped then grouped[p] else []) + PersonCoords(rows, p)
    decreases |rows|
  {
    if |rows| > 0 {
      var next := if Usable(rows[0]) then AddRow(grouped, rows[0]) else grouped;
      GroupFromValues(next, rows[1..], p);
      var before := if p in grouped then grouped[p] else [];
      if Usable(rows[0]) && rows[0].person == p {
        assert next[p] == before + [CoordOf(rows[0])];
        assert PersonCoords(rows, p) == [CoordOf(rows[0])] + PersonCoords(rows[1..], p);
        assert (before + [CoordOf(rows[0])]) + PersonCoords(rows[1..], p)
            == before + ([CoordOf(rows[0])] + PersonCoords(rows[1..], p));
      } else {
        assert (p in next) == (p in grouped);
        assert p in grouped ==> next[p] == grouped[p];
        assert PersonCoords(rows, p) == PersonCoords(rows[1..], p);
      }
    }
  }

  /** The persons of a non-empty row list: the first row's, if usable, and the rest's. */
  lemma PersonsCons(rows: seq<Row>)
    requires |rows| > 0
    ensures Persons(rows) == (if Usable(rows[0]) then {rows[0].person} else {}) + Persons(rows[1..])
  {
    forall p | p in Persons(rows)
      ensures p in (if Usable(rows[0]) then {rows[0].person} else {}) + Persons(rows[1..])
    {
      var i :| 0 <= i < |rows| && Usable(rows[i]) && rows[i].person == p;
      if i > 0 {
        assert rows[1..][i - 1] == rows[i];
      }
    }
    forall p | p in Persons(rows[1..])
      ensures p in Persons(rows)
    {
      var i :| 0 <= i < |rows[1..]| && Usable(rows[1..][i]) && rows[1..][i].person == p;
      assert rows[i + 1] == rows[1..][i];
    }
  }

  /** Each person's coordinates, in row order, for the persons with usable rows. */
  function Group(rows: seq<Row>): (r: map<string, seq<Coord>>)
    ensures r.Keys == Persons(rows)
    ensures forall p :: p in r ==> r[p] == PersonCoords(rows, p)
  {
    var r := GroupFrom(map[], rows);
    GroupFromKeys(map[], rows);
    assert forall p :: p in r ==> r[p] == PersonCoords(rows, p) by {
      forall p | p in r
        ensures r[p] == PersonCoords(rows, p)
      {
        GroupFromValues(map[], rows, p);
        assert [] + PersonCoords(rows, p) == PersonCoords(rows, p);
      }
    }
    r
  }

  /** Every group holds at least one point, so no person gets an empty route. */
  lemma {:induction false} GroupsNonEmpty(rows: seq<Row>, person: string)
    requires person in Persons(rows)
    ensures |PersonCoords(rows, person)| >= 1
  {
    var i :| 0 <= i < |rows| && Usable(rows[i]) && rows[i].person == person;
    if i == 0 {
      assert PersonCoords(rows, person) == [CoordOf(rows[0])] + PersonCoords(rows[1..], person);
    } else {
      assert rows[1..][i - 1] == rows[i];
      assert person in Persons(rows[1..]);
      GroupsNonEmpty(rows[1..], person);
    }
  }

  /** Grouping the filtered rows gives the same groups: the rows the guard
      drops contribute nothing. */
  lemma {:induction false} GroupIgnoresDroppedRows(rows: seq<Row>, person: string)
    ensures PersonCoords(KeepUsable(rows), person) == PersonCoords(rows, person)
  {
    if |rows| > 0 {
      GroupIgnoresDroppedRows(rows[1..], person);
      if Usable(rows[0]) {
        var kept := KeepUsable(rows);
        assert kept == [rows[0]] + KeepUsable(rows[1..]);
        assert kept[1..] == KeepUsable(rows[1..]);
      }
    }
  }

  // ---------------------------------------------------------------------
  // The grouping as the source writes it: `grouped` is a plain `{}` object,
  // so `grouped[person]` for a person named after an inherited
  // Object.prototype member (e.g. "constructor") is that member, truthy, and
  // the following `.push` throws a TypeError that aborts the whole upload.

  /** The property names every `{}` object inherits from Object.prototype. */
  const InheritedNames: set<string> := {
    "constructor", "hasOwnProperty", "isPrototypeOf", "propertyIsEnumerable",
    "toString", "toLocaleString", "valueOf", "__proto__",
    "__defineGetter__", "__defineSetter__", "__lookupGetter__", "__lookupSetter__"
  }

  /** The `forEach` as written: None when a `.push` throws. */
  function GroupFromAsWritten(grouped: map<string, seq<Coord>>, rows: seq<Row>): (r: Option<map<string, seq<Coord>>>)
    ensures r.None? <==> exists i :: 0 <= i < |rows| && Usable(rows[i]) && rows[i].person in InheritedNames
    ensures r.Some? ==> r.value == GroupFrom(grouped, rows)
    decreases |rows|
  {
    if |rows| == 0 then Some(grouped)
    else if !Usable(rows[0]) then
      var r := GroupFromAsWritten(grouped, rows[1..]);
      assert forall i :: 1 <= i < |rows| ==> rows[i] == rows[1..][i - 1];
      r
    else if rows[0].person in InheritedNames then None
    else
      var r := GroupFromAsWritten(AddRow(grouped, rows[0]), rows[1..]);
      assert forall i :: 1 <= i < |rows| ==> rows[i] == rows[1..][i - 1];
      r
  }

  function GroupAsWritten(rows: seq<Row>): (r: Option<map<string, seq<Coord>>>)
    ensures r.None? <==> exists i :: 0 <= i < |rows| && Usable(rows[i]) && rows[i].person in InheritedNames
    ensures r.Some? ==> r.value == Group(rows)
  {
    GroupFromAsWritten(map[], rows)
  }

  /** A single valid row for a worker named "constructor" makes the source
      throw, where the evidently intended grouping gives that worker one point. */
  lemma ConstructorNameAborts()
    ensures GroupAsWritten([Row("constructor", Some(41.0), Some(28.6))]).None?
    ensures Group([Row("constructor", Some(41.0), Some(28.6))]) == map["constructor" := [Coord(41.0, 28.6)]]
  {
    var rows := [Row("constructor", Some(41.0), Some(28.6))];
    assert Usable(rows[0]) && rows[0].person in InheritedNames;
    assert Persons(rows) == {"constructor"};
    assert PersonCoords(rows, "constructor") == [Coord(41.0, 28.6)];
  }
}
