/**
 * LocationDatabase: the helper object that owns one connection to the
 * location database.  Its fields are the connection and the content of the
 * database file it is connected to; each SQL statement it issues is a method
 * on those fields, and `add_country_data` is the sequence of them.
 */
module LocDb {
  import opened Wrappers
  import opened LocationTable

  /** The `conn` attribute: never set, an open connection to a file, or that connection closed. */
  datatype Connection = NoConnection | Open(filename: string) | Closed(filename: string)

  /** The error SQLite raises when a query names a table that does not exist. */
  datatype SqlError = NoSuchTable

  class LocationDatabase {
    var conn: Connection
    var tableExists: bool
    var indexExists: bool
    var rows: seq<Row>

    /** The content of the database file. */
    function Contents(): Store
      reads this
    {
      Store(tableExists, indexExists, rows)
    }

    predicate Valid()
      reads this
    {
      Contents().Valid()
    }

    predicate IsOpen()
      reads this
    {
      conn.Open?
    }

    /** A new helper holds no connection. */
    constructor ()
      ensures conn == NoConnection
      ensures Contents() == EmptyStore && Valid()
    {
      conn := NoConnection;
      tableExists, indexExists, rows := false, false, [];
    }

    /**
     * Opens the database file `filename`, creating it when it is absent.  What
     * the file already holds is the parameter `onDisk` (`EmptyStore` for a new
     * file or an in-memory database).
     */
    method Connect(filename: string, onDisk: Store)
      requires onDisk.Valid()
      modifies this
      ensures conn == Open(filename)
      ensures Contents() == onDisk && Valid()
    {
      conn := Open(filename);
      tableExists, indexExists, rows := onDisk.tableExists, onDisk.indexExists, onDisk.rows;
    }

    /** Closes the connection; closing a connection that is already closed does nothing more. */
    method Close()
      requires conn != NoConnection
      modifies this`conn
      ensures conn == Closed(old(conn).filename)
    {
      conn := Closed(conn.filename);
    }

    /** Whether `sqlite_master` lists a table named `location`. */
    function LocTableExists(): (r: bool)
      reads this
      requires IsOpen() && Valid()
      ensures !r ==> rows == [] && !indexExists
    {
      tableExists
    }

    /** First use: the `location` table has never been created in this file. */
    function CheckFirstTime(): (r: bool)
      reads this
      requires IsOpen() && Valid()
      ensures r <==> !LocTableExists()
      ensures r ==> rows == [] && !indexExists
    {
      !LocTableExists()
    }

    /** `DELETE FROM location WHERE country_code = ?`, which needs the table to exist. */
    method DeleteCountryRows(countryCode: string)
      requires IsOpen() && tableExists
      modifies this`rows
      ensures Valid()
      ensures rows == Without(old(rows), countryCode)
    {
      rows := Without(rows, countryCode);
    }

    /** `to_sql(..., if_exists="append")`: creates the table when it is missing, then appends. */
    method AppendRows(batch: seq<Row>)
      requires IsOpen()
      modifies this`tableExists, this`rows
      ensures tableExists && Valid()
      ensures rows == old(rows) + batch
    {
      tableExists := true;
      rows := rows + batch;
    }

    /** `CREATE INDEX IF NOT EXISTS ... ON location(postal_code)`: never fails once the table exists. */
    method CreatePostalCodeIndex()
      requires IsOpen() && tableExists
      modifies this`indexExists
      ensures indexExists && Valid()
    {
      indexExists := true;
    }

    /**
     * Loads one country's batch: decides first use, deletes the country's
     * rows when asked to and the table already existed, appends the batch,
     * and creates the postal-code index when this was the first use.
     * Erasing is the default, as in the source.
     */
    method AddCountryData(batch: seq<Row>, countryCode: string, eraseFirst: bool := true)
      requires IsOpen() && Valid()
      modifies this
      ensures conn == old(conn) && Valid()
      ensures Contents() == AfterAddCountryData(old(Contents()), batch, countryCode, eraseFirst)
    {
      var firstTime := CheckFirstTime();
      if eraseFirst && !firstTime {
        DeleteCountryRows(countryCode);
      }
      AppendRows(batch);
      if firstTime {
        CreatePostalCodeIndex();
      }
    }

    /**
     * The number of rows per country code.  The query fails when the table
     * does not exist.
     */
    method ShowCountryCounts() returns (r: Result<map<string, nat>, SqlError>)
      requires IsOpen()
      ensures r.Err? <==> !tableExists
      ensures r.Ok? ==> r.value == CountMap(rows)
      ensures r.Ok? ==> forall i :: 0 <= i < |rows| ==> rows[i].countryCode in r.value
      ensures r.Ok? ==> forall c :: c in r.value ==> r.value[c] == |RowsOf(rows, c)| > 0
    {
      if !tableExists {
        return Err(NoSuchTable);
      }
      var counts: map<string, nat> := map[];
      var i := 0;
      while i < |rows|
        invariant 0 <= i <= |rows|
        invariant counts == CountMap(rows[..i])
      {
        var c := rows[i].countryCode;
        CountMapSnoc(rows[..i], rows[i]);
        assert rows[..i + 1] == rows[..i] + [rows[i]];
        counts := counts[c := if c in counts then counts[c] + 1 else 1];
        i := i + 1;
      }
      assert rows[..i] == rows;
      forall c | c in counts ensures counts[c] == |RowsOf(rows, c)| > 0 {
        CountMapCounts(rows, c);
      }
      forall j | 0 <= j < |rows| ensures rows[j].countryCode in counts {
        CountMapCounts(rows, rows[j].countryCode);
      }
      r := Ok(counts);
    }

    /**
     * The coordinates of the row with exactly this country code and postal
     * code, `None` when there is none.  When several rows match, the first in
     * table order is returned.  The query fails when the table does not exist.
     */
    function FindLatLon(countryCode: string, postalCode: string): (r: Result<Option<Coordinates>, SqlError>)
      reads this
      requires IsOpen()
      ensures r.Err? <==> !tableExists
      ensures r.Ok? ==> (r.value.None? <==> forall i :: 0 <= i < |rows| ==> !Matches(rows[i], countryCode, postalCode))
      ensures r.Ok? && r.value.Some? ==>
        exists i :: 0 <= i < |rows| && Matches(rows[i], countryCode, postalCode) && r.value.value == Project(rows[i]) &&
          forall j :: 0 <= j < i ==> !Matches(rows[j], countryCode, postalCode)
    {
      if !tableExists then Err(NoSuchTable)
      else match FirstMatch(rows, countryCode, postalCode)
        case None => Ok(None)
        case Some(i) => Ok(Some(Project(rows[i])))
    }
  }

  lemma MixedBatchCounts(aa: Row, ab1: Row, ab2: Row)
    requires aa.countryCode == "AA" && ab1.countryCode == "AB" && ab2.countryCode == "AB"
    ensures CountMap([aa, ab1, ab2]) == map["AA" := 1, "AB" := 2]
  {
    var rows := [aa, ab1, ab2];
    MixedBatchCodes(aa, ab1, ab2);
    MixedBatchGroups(aa, ab1, ab2);
    var m := CountMap(rows);
    assert m.Keys == {"AA", "AB"};
    assert m["AA"] == |RowsOf(rows, "AA")| == 1;
    assert m["AB"] == |RowsOf(rows, "AB")| == 2;
  }

  lemma MixedBatchCodes(aa: Row, ab1: Row, ab2: Row)
    requires aa.countryCode == "AA" && ab1.countryCode == "AB" && ab2.countryCode == "AB"
    ensures CountryCodes([aa, ab1, ab2]) == {"AA", "AB"}
  {
    assert aa in [aa, ab1, ab2] && ab1 in [aa, ab1, ab2];
  }

  lemma MixedBatchGroups(aa: Row, ab1: Row, ab2: Row)
    requires aa.countryCode == "AA" && ab1.countryCode == "AB" && ab2.countryCode == "AB"
    ensures RowsOf([aa, ab1, ab2], "AA") == [aa]
    ensures RowsOf([aa, ab1, ab2], "AB") == [ab1, ab2]
  {
    assert "AA" != "AB" by { assert "AA"[1] != "AB"[1]; }
    assert [aa, ab1, ab2] == [aa] + [ab1, ab2];
    RowsOfAppend([aa], [ab1, ab2], "AA");
    RowsOfAll([aa], "AA");
    RowsOfNone([ab1, ab2], "AA");
    RowsOfAppend([aa], [ab1, ab2], "AB");
    RowsOfNone([aa], "AB");
    RowsOfAll([ab1, ab2], "AB");
  }

  lemma MixedBatchLookup(aa: Row, ab1: Row, ab2: Row)
    requires aa.countryCode == "AA" && ab1.countryCode == "AB" && ab1.postalCode == "AB100"
    ensures FirstMatch([aa, ab1, ab2], "AB", "AB100") == Some(1)
  {
    assert "AA" != "AB" by { assert "AA"[1] != "AB"[1]; }
    assert !Matches([aa, ab1, ab2][0], "AB", "AB100");
    assert Matches([aa, ab1, ab2][1], "AB", "AB100");
  }

  /**
   * A store on a new file: first use, then a mixed batch of one "AA" row and
   * two "AB" rows, the count per country, and a lookup.
   */
  method FreshStoreScenario(aa: Row, ab1: Row, ab2: Row)
    requires aa.countryCode == "AA" && ab1.countryCode == "AB" && ab2.countryCode == "AB"
    requires ab1.postalCode == "AB100" && ab2.postalCode != "AB100"
  {
    var db := new LocationDatabase();
    db.Connect(":memory:", EmptyStore);
    assert db.CheckFirstTime();
    db.AddCountryData([aa, ab1, ab2], "AA");
    FirstLoad([aa, ab1, ab2], "AA", true);
    assert db.Contents() == Store(true, true, [aa, ab1, ab2]);
    var counts := db.ShowCountryCounts();
    MixedBatchCounts(aa, ab1, ab2);
    assert counts == Ok(map["AA" := 1, "AB" := 2]);
    var found := db.FindLatLon("AB", "AB100");
    MixedBatchLookup(aa, ab1, ab2);
    assert found == Ok(Some(Project(ab1)));
    db.Close();
  }

  /**
   * Two batches for one country, the second loaded with erase: a postal code
   * only the first batch had is no longer found, and one of the second batch is.
   */
  method ReloadScenario(first: seq<Row>, second: seq<Row>, countryCode: string, oldCode: string, newRow: Row)
    requires newRow in second && newRow.countryCode == countryCode
    requires forall j :: 0 <= j < |second| ==> !Matches(second[j], countryCode, oldCode)
  {
    var db := new LocationDatabase();
    db.Connect(":memory:", EmptyStore);
    db.AddCountryData(first, countryCode);
    ghost var mid := db.Contents();
    db.AddCountryData(second, countryCode);
    ReloadLookupSeesOnlyBatch(mid, second, countryCode, oldCode);
    ReloadLookupSeesOnlyBatch(mid, second, countryCode, newRow.postalCode);
    var stale := db.FindLatLon(countryCode, oldCode);
    assert stale == Ok(None);
    var current := db.FindLatLon(countryCode, newRow.postalCode);
    assert current.Ok? && current.value.Some?;
    db.Close();
  }
}
