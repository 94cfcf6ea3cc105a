/**
 * The content of the database file behind a LocationDatabase: whether the
 * `location` table and its postal-code index exist, and the table's rows in
 * insertion order.  Every SQL statement the class issues is a function on
 * this value, and the properties of the load procedure are lemmas about it.
 */
module LocationTable {
  import opened Wrappers

  /**
   * One row of the `location` table.  Coordinates and the descriptive columns
   * are stored, compared and returned, never computed on.
   */
  datatype Row = Row(
    countryCode: string,
    postalCode: string,
    placeName: Option<string>,
    stateName: Option<string>,
    stateCode: Option<string>,
    countyName: Option<string>,
    countyCode: Option<string>,
    communityName: Option<string>,
    communityCode: Option<string>,
    latitude: real,
    longitude: real,
    accuracy: int)

  /** The five columns that a coordinate lookup selects. */
  datatype Coordinates = Coordinates(
    countryCode: string,
    postalCode: string,
    latitude: real,
    longitude: real,
    accuracy: int)

  /** The projection keeps the key columns, so it matches the key of the row it came from. */
  function Project(r: Row): (c: Coordinates)
    ensures Matches(r, c.countryCode, c.postalCode)
  {
    Coordinates(r.countryCode, r.postalCode, r.latitude, r.longitude, r.accuracy)
  }

  /** What the database file holds. */
  datatype Store = Store(tableExists: bool, indexExists: bool, rows: seq<Row>)
  {
    /**
     * The index is built on the table, so it cannot exist without it, and a
     * table that does not exist holds no rows.
     */
    predicate Valid()
    {
      (indexExists ==> tableExists) && (!tableExists ==> rows == [])
    }
  }

  /** A database file that was just created (or an in-memory database). */
  const EmptyStore := Store(false, false, [])

  /** The rows of country `c`, in table order (a `GROUP BY` group). */
  function RowsOf(rows: seq<Row>, c: string): (r: seq<Row>)
    ensures |r| <= |rows|
    ensures forall x :: x in r <==> x in rows && x.countryCode == c
  {
    if rows == [] then []
    else (if rows[0].countryCode == c then [rows[0]] else []) + RowsOf(rows[1..], c)
  }

  /** The rows left by `DELETE FROM location WHERE country_code = c`. */
  function Without(rows: seq<Row>, c: string): (r: seq<Row>)
    ensures |r| <= |rows|
    ensures forall x :: x in r <==> x in rows && x.countryCode != c
  {
    if rows == [] then []
    else (if rows[0].countryCode != c then [rows[0]] else []) + Without(rows[1..], c)
  }

  /**
   * The `WHERE country_code = ? AND postal_code = ?` condition: the row's key
   * pair equals the queried pair exactly, with no normalisation.
   */
  predicate Matches(r: Row, countryCode: string, postalCode: string)
  {
    r.countryCode == countryCode && r.postalCode == postalCode
  }

  /** The position of the first row that matches, in table order. */
  function FirstMatch(rows: seq<Row>, countryCode: string, postalCode: string): (k: Option<nat>)
    ensures k.None? <==> forall i :: 0 <= i < |rows| ==> !Matches(rows[i], countryCode, postalCode)
    ensures k.Some? ==> k.value < |rows| && Matches(rows[k.value], countryCode, postalCode)
    ensures k.Some? ==> forall j :: 0 <= j < k.value ==> !Matches(rows[j], countryCode, postalCode)
  {
    if rows == [] then None
    else if Matches(rows[0], countryCode, postalCode) then Some(0)
    else match FirstMatch(rows[1..], countryCode, postalCode)
      case None => None
      case Some(i) => Some(i + 1)
  }

  /** The country codes present in the table. */
  function CountryCodes(rows: seq<Row>): set<string>
  {
    set r | r in rows :: r.countryCode
  }

  /** `SELECT country_code, count(*) FROM location GROUP BY country_code`. */
  function CountMap(rows: seq<Row>): map<string, nat>
  {
    map c | c in CountryCodes(rows) :: |RowsOf(rows, c)|
  }

  /**
   * The effect of one `add_country_data(batch, countryCode, eraseFirst)` on
   * the file: first use is decided before anything changes; the delete runs
   * only when erasing was asked for and the table already existed; the append
   * creates the table when it is missing; the index is created only on first use.
   */
  function AfterAddCountryData(s: Store, batch: seq<Row>, countryCode: string, eraseFirst: bool): (t: Store)
    ensures t.tableExists
    ensures |batch| <= |t.rows| && t.rows[|t.rows| - |batch|..] == batch
  {
    var firstTime := !s.tableExists;
    var kept := if eraseFirst && !firstTime then Without(s.rows, countryCode) else s.rows;
    Store(true, s.indexExists || firstTime, kept + batch)
  }

  // ---------------------------------------------------------------------------
  // Filters over the row sequence
  // ---------------------------------------------------------------------------

  lemma {:induction false} RowsOfAppend(a: seq<Row>, b: seq<Row>, c: string)
    ensures RowsOf(a + b, c) == RowsOf(a, c) + RowsOf(b, c)
  {
    if a == [] {
      assert a + b == b;
    } else {
      assert (a + b)[1..] == a[1..] + b;
      RowsOfAppend(a[1..], b, c);
    }
  }

  /** Deleting one country leaves every other country's rows as they were, in order. */
  lemma {:induction false} RowsOfWithout(rows: seq<Row>, deleted: string, c: string)
    ensures RowsOf(Without(rows, deleted), c) == if c == deleted then [] else RowsOf(rows, c)
  {
    if rows != [] {
      RowsOfWithout(rows[1..], deleted, c);
      var head := if rows[0].countryCode != deleted then [rows[0]] else [];
      RowsOfAppend(head, Without(rows[1..], deleted), c);
    }
  }

  /** A country is a key of the count map exactly when it has rows, and its count is their number. */
  lemma CountMapCounts(rows: seq<Row>, c: string)
    ensures c in CountMap(rows) <==> exists i :: 0 <= i < |rows| && rows[i].countryCode == c
    ensures c in CountMap(rows) ==> CountMap(rows)[c] == |RowsOf(rows, c)| >= 1
  {
    if c in CountMap(rows) {
      var r :| r in rows && r.countryCode == c;
      assert r in RowsOf(rows, c);
    }
  }

  /** Counting one more row adds one to its country and leaves the other counts alone. */
  lemma CountMapSnoc(rows: seq<Row>, x: Row)
    ensures CountMap(rows + [x]) ==
      CountMap(rows)[x.countryCode := if x.countryCode in CountMap(rows) then CountMap(rows)[x.countryCode] + 1 else 1]
  {
    var m, m' := CountMap(rows), CountMap(rows + [x]);
    var k := x.countryCode;
    var expected := m[k := if k in m then m[k] + 1 else 1];
    CountryCodesSnoc(rows, x);
    assert m'.Keys == expected.Keys;
    forall c | c in m'
      ensures m'[c] == expected[c]
    {
      CountStep(rows, x, c);
      assert m'[c] == |RowsOf(rows + [x], c)|;
      if c != k {
        assert c in m && m[c] == |RowsOf(rows, c)|;
      } else if k in m {
        assert m[c] == |RowsOf(rows, c)|;
      }
    }
    assert m' == expected;
  }

  lemma CountryCodesSnoc(rows: seq<Row>, x: Row)
    ensures CountryCodes(rows + [x]) == CountryCodes(rows) + {x.countryCode}
  {
    forall c | c in CountryCodes(rows + [x]) ensures c in CountryCodes(rows) + {x.countryCode} {
      var r :| r in rows + [x] && r.countryCode == c;
    }
  }

  lemma CountStep(rows: seq<Row>, x: Row, c: string)
    ensures |RowsOf(rows + [x], c)| == |RowsOf(rows, c)| + (if x.countryCode == c then 1 else 0)
    ensures c !in CountryCodes(rows) ==> RowsOf(rows, c) == []
  {
    RowsOfAppend(rows, [x], c);
    assert [x][1..] == [];
    if RowsOf(rows, c) != [] {
      assert RowsOf(rows, c)[0] in RowsOf(rows, c);
    }
  }

  // ---------------------------------------------------------------------------
  // The load procedure
  // ---------------------------------------------------------------------------

  /** A load keeps the file consistent and always leaves the table in place. */
  lemma AddCountryDataValid(s: Store, batch: seq<Row>, countryCode: string, eraseFirst: bool)
    requires s.Valid()
    ensures AfterAddCountryData(s, batch, countryCode, eraseFirst).Valid()
    ensures AfterAddCountryData(s, batch, countryCode, eraseFirst).tableExists
  {
  }

  /** Rows of every other country are kept, in order, and followed by that country's rows of the batch. */
  lemma OtherCountriesUntouched(s: Store, batch: seq<Row>, countryCode: string, eraseFirst: bool, c: string)
    requires c != countryCode
    ensures RowsOf(AfterAddCountryData(s, batch, countryCode, eraseFirst).rows, c) == RowsOf(s.rows, c) + RowsOf(batch, c)
  {
    if eraseFirst && s.tableExists {
      RowsOfAppend(Without(s.rows, countryCode), batch, c);
      RowsOfWithout(s.rows, countryCode, c);
    } else {
      RowsOfAppend(s.rows, batch, c);
    }
  }

  /**
   * A reload with erase on an existing table keeps exactly the old rows of the
   * other countries, in order, and then the batch.
   */
  lemma EraseReplacesFilteredPart(s: Store, batch: seq<Row>, countryCode: string)
    requires s.tableExists
    ensures AfterAddCountryData(s, batch, countryCode, true).rows[..|Without(s.rows, countryCode)|] == Without(s.rows, countryCode)
    ensures AfterAddCountryData(s, batch, countryCode, true).rows[|Without(s.rows, countryCode)|..] == batch
    ensures forall x :: x in AfterAddCountryData(s, batch, countryCode, true).rows <==>
      (x in s.rows && x.countryCode != countryCode) || x in batch
  {
  }

  /** With erase, the country's rows afterwards are exactly those of the batch, on first use too. */
  lemma EraseReloadsCountry(s: Store, batch: seq<Row>, countryCode: string)
    requires s.Valid()
    ensures RowsOf(AfterAddCountryData(s, batch, countryCode, true).rows, countryCode) == RowsOf(batch, countryCode)
  {
    if s.tableExists {
      RowsOfAppend(Without(s.rows, countryCode), batch, countryCode);
      RowsOfWithout(s.rows, countryCode, countryCode);
    } else {
      assert s.rows + batch == batch;
    }
  }

  /** Without erase, or on first use, nothing is deleted: old and new rows of the country coexist. */
  lemma NoEraseAppends(s: Store, batch: seq<Row>, countryCode: string, eraseFirst: bool)
    requires !eraseFirst || !s.tableExists
    ensures AfterAddCountryData(s, batch, countryCode, eraseFirst).rows == s.rows + batch
    ensures forall c :: RowsOf(AfterAddCountryData(s, batch, countryCode, eraseFirst).rows, c) == RowsOf(s.rows, c) + RowsOf(batch, c)
  {
    forall c ensures RowsOf(s.rows + batch, c) == RowsOf(s.rows, c) + RowsOf(batch, c) {
      RowsOfAppend(s.rows, batch, c);
    }
  }

  /** On a new file the first load leaves exactly its batch, with the table and the index created. */
  lemma FirstLoad(batch: seq<Row>, countryCode: string, eraseFirst: bool)
    ensures AfterAddCountryData(EmptyStore, batch, countryCode, eraseFirst) == Store(true, true, batch)
  {
    assert [] + batch == batch;
  }

  /** The index is created by the first load and left as it was by every later one. */
  lemma IndexOnlyOnFirstUse(s: Store, batch: seq<Row>, countryCode: string, eraseFirst: bool)
    requires s.Valid()
    ensures AfterAddCountryData(s, batch, countryCode, eraseFirst).indexExists <==> s.indexExists || !s.tableExists
    ensures s.tableExists ==> AfterAddCountryData(s, batch, countryCode, eraseFirst).indexExists == s.indexExists
    ensures !s.tableExists ==> AfterAddCountryData(s, batch, countryCode, eraseFirst).indexExists
  {
  }

  /** One call of `add_country_data`, as its arguments. */
  datatype Load = Load(batch: seq<Row>, countryCode: string, eraseFirst: bool)

  /** The file after a sequence of loads, applied in order. */
  function Replay(s: Store, loads: seq<Load>): Store
    decreases |loads|
  {
    if loads == [] then s
    else Replay(AfterAddCountryData(s, loads[0].batch, loads[0].countryCode, loads[0].eraseFirst), loads[1..])
  }

  /** Once the table exists, no number of further loads changes whether the index exists. */
  lemma {:induction false} ReplayKeepsIndex(s: Store, loads: seq<Load>)
    requires s.tableExists
    ensures Replay(s, loads).tableExists
    ensures Replay(s, loads).indexExists == s.indexExists
    decreases |loads|
  {
    if loads != [] {
      ReplayKeepsIndex(AfterAddCountryData(s, loads[0].batch, loads[0].countryCode, loads[0].eraseFirst), loads[1..]);
    }
  }

  /**
   * Starting from a new file, the table and the index exist exactly when at
   * least one load has happened: the index is built once, by the first load.
   */
  lemma IndexBuiltOnce(loads: seq<Load>)
    ensures Replay(EmptyStore, loads).Valid()
    ensures Replay(EmptyStore, loads).tableExists <==> loads != []
    ensures Replay(EmptyStore, loads).indexExists <==> loads != []
  {
    if loads != [] {
      var first := AfterAddCountryData(EmptyStore, loads[0].batch, loads[0].countryCode, loads[0].eraseFirst);
      ReplayKeepsIndex(first, loads[1..]);
      ReplayValid(first, loads[1..]);
    }
  }

  lemma {:induction false} ReplayValid(s: Store, loads: seq<Load>)
    requires s.Valid()
    ensures Replay(s, loads).Valid()
    decreases |loads|
  {
    if loads != [] {
      var next := AfterAddCountryData(s, loads[0].batch, loads[0].countryCode, loads[0].eraseFirst);
      AddCountryDataValid(s, loads[0].batch, loads[0].countryCode, loads[0].eraseFirst);
      ReplayValid(next, loads[1..]);
    }
  }

  /**
   * Loading a country twice with erase leaves only the second batch's rows of
   * that country; every other country keeps its old rows and gains those of
   * both batches.
   */
  lemma ReloadTwice(s: Store, first: seq<Row>, second: seq<Row>, countryCode: string, c: string)
    requires s.Valid()
    ensures RowsOf(AfterAddCountryData(AfterAddCountryData(s, first, countryCode, true), second, countryCode, true).rows, countryCode)
      == RowsOf(second, countryCode)
    ensures c != countryCode ==>
      RowsOf(AfterAddCountryData(AfterAddCountryData(s, first, countryCode, true), second, countryCode, true).rows, c)
      == RowsOf(s.rows, c) + RowsOf(first, c) + RowsOf(second, c)
  {
    var mid := AfterAddCountryData(s, first, countryCode, true);
    AddCountryDataValid(s, first, countryCode, true);
    EraseReloadsCountry(mid, second, countryCode);
    if c != countryCode {
      OtherCountriesUntouched(s, first, countryCode, true, c);
      OtherCountriesUntouched(mid, second, countryCode, true, c);
    }
  }

  /**
   * After a reload with erase, a lookup for that country sees only the new
   * batch: it finds nothing exactly when no row of the batch matches, and
   * whatever it finds is a row of the batch.
   */
  lemma ReloadLookupSeesOnlyBatch(s: Store, batch: seq<Row>, countryCode: string, postalCode: string)
    requires s.Valid()
    ensures FirstMatch(AfterAddCountryData(s, batch, countryCode, true).rows, countryCode, postalCode).None?
      <==> forall j :: 0 <= j < |batch| ==> !Matches(batch[j], countryCode, postalCode)
    ensures FirstMatch(AfterAddCountryData(s, batch, countryCode, true).rows, countryCode, postalCode).Some? ==>
      AfterAddCountryData(s, batch, countryCode, true).rows[FirstMatch(AfterAddCountryData(s, batch, countryCode, true).rows, countryCode, postalCode).value] in batch
  {
    var rows := AfterAddCountryData(s, batch, countryCode, true).rows;
    ReloadedRowsOfCountry(s, batch, countryCode);
    if forall j :: 0 <= j < |batch| ==> !Matches(batch[j], countryCode, postalCode) {
      forall i | 0 <= i < |rows| ensures !Matches(rows[i], countryCode, postalCode) {
        if rows[i].countryCode == countryCode {
          assert rows[i] in batch;
          var j :| 0 <= j < |batch| && batch[j] == rows[i];
          assert !Matches(batch[j], countryCode, postalCode);
        }
      }
    } else {
      var j :| 0 <= j < |batch| && Matches(batch[j], countryCode, postalCode);
      assert batch[j] in rows;
      var i :| 0 <= i < |rows| && rows[i] == batch[j];
      assert Matches(rows[i], countryCode, postalCode);
    }
  }

  /** After an erasing load, every row of that country is a row of the batch. */
  lemma ReloadedRowsOfCountry(s: Store, batch: seq<Row>, countryCode: string)
    requires s.Valid()
    ensures forall x :: x in AfterAddCountryData(s, batch, countryCode, true).rows && x.countryCode == countryCode ==> x in batch
  {
    var rows := AfterAddCountryData(s, batch, countryCode, true).rows;
    EraseReloadsCountry(s, batch, countryCode);
    forall x | x in rows && x.countryCode == countryCode ensures x in batch {
      assert x in RowsOf(rows, countryCode);
    }
  }

  /**
   * Loading a country that has no rows yet with a non-empty batch of its own
   * rows makes its count the size of the batch.
   */
  lemma CountAfterFreshLoad(s: Store, batch: seq<Row>, countryCode: string, eraseFirst: bool)
    requires s.Valid()
    requires forall i :: 0 <= i < |s.rows| ==> s.rows[i].countryCode != countryCode
    requires batch != []
    requires forall j :: 0 <= j < |batch| ==> batch[j].countryCode == countryCode
    ensures countryCode in CountMap(AfterAddCountryData(s, batch, countryCode, eraseFirst).rows)
    ensures CountMap(AfterAddCountryData(s, batch, countryCode, eraseFirst).rows)[countryCode] == |batch|
  {
    var t := AfterAddCountryData(s, batch, countryCode, eraseFirst);
    assert batch[0] in t.rows;
    CountMapCounts(t.rows, countryCode);
    RowsOfNone(s.rows, countryCode);
    RowsOfAll(batch, countryCode);
    if eraseFirst && s.tableExists {
      RowsOfAppend(Without(s.rows, countryCode), batch, countryCode);
      RowsOfWithout(s.rows, countryCode, countryCode);
    } else {
      RowsOfAppend(s.rows, batch, countryCode);
    }
  }

  lemma {:induction false} RowsOfNone(rows: seq<Row>, c: string)
    requires forall i :: 0 <= i < |rows| ==> rows[i].countryCode != c
    ensures RowsOf(rows, c) == []
  {
    if rows != [] {
      RowsOfNone(rows[1..], c);
    }
  }

  lemma {:induction false} RowsOfAll(rows: seq<Row>, c: string)
    requires forall i :: 0 <= i < |rows| ==> rows[i].countryCode == c
    ensures RowsOf(rows, c) == rows
  {
    if rows != [] {
      RowsOfAll(rows[1..], c);
    }
  }

  /**
   * A pair that matches no row of the file and no row of any batch loaded
   * since is not found, whatever the loads and their erase flags.
   */
  lemma {:induction false} NeverLoadedIsAbsent(s: Store, loads: seq<Load>, countryCode: string, postalCode: string)
    requires forall i :: 0 <= i < |s.rows| ==> !Matches(s.rows[i], countryCode, postalCode)
    requires forall k, j :: 0 <= k < |loads| && 0 <= j < |loads[k].batch| ==> !Matches(loads[k].batch[j], countryCode, postalCode)
    ensures FirstMatch(Replay(s, loads).rows, countryCode, postalCode).None?
    decreases |loads|
  {
    if loads != [] {
      var t := AfterAddCountryData(s, loads[0].batch, loads[0].countryCode, loads[0].eraseFirst);
      forall i | 0 <= i < |t.rows| ensures !Matches(t.rows[i], countryCode, postalCode) {
        var x := t.rows[i];
        assert x in t.rows;
        if x in s.rows {
          var j :| 0 <= j < |s.rows| && s.rows[j] == x;
        } else {
          var j :| 0 <= j < |loads[0].batch| && loads[0].batch[j] == x;
          assert !Matches(loads[0].batch[j], countryCode, postalCode);
        }
      }
      forall k, j | 0 <= k < |loads[1..]| && 0 <= j < |loads[1..][k].batch|
        ensures !Matches(loads[1..][k].batch[j], countryCode, postalCode)
      {
        assert loads[1..][k] == loads[k + 1];
      }
      NeverLoadedIsAbsent(t, loads[1..], countryCode, postalCode);
    }
  }
}
