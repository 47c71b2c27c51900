/**
 * The data-access object for the CA table (src/cadaosqlite.rs).
 *
 * The SQLite file is modelled by the table it holds: a finite map from the
 * `date` key to the row stored under it. Each method runs one SQL statement
 * against that map. Whether the engine reports an error for a statement
 * (the file cannot be opened, the statement cannot be prepared or run) is
 * outside the model and arrives as the parameter `io`.
 */
module Dao {
  import opened Collation
  import opened Dates
  import opened Record

  /** The errors the statements can return. */
  datatype DbError =
    | EngineFailure        // opening the file, preparing or running the statement failed
    | QueryReturnedNoRows  // `query_row` found no row
    | PrimaryKeyConflict   // INSERT of a date that is already stored
    | InvalidColumnType    // `SUM` over no row is NULL, which does not read as a float

  datatype Result<T> = Ok(value: T) | Err(error: DbError)

  /** Whether the engine runs the statement or reports an error. */
  datatype Io = Works | Fails

  /** The CA table: each row stored under its own date. */
  type Table = map<string, Ca>

  /** `date` is the primary key: the row under a key carries that key as its date. */
  predicate Keyed(t: Table)
  {
    forall k :: k in t ==> t[k].date == k
  }

  /** The keys that `LIKE 'prefix%'` selects. */
  function MonthKeys(t: Table, prefix: string): (ks: set<string>)
    ensures forall k :: k in ks <==> k in t && prefix <= k
  {
    set k | k in t && prefix <= k
  }

  /**
   * In calendar terms: the month filter anchored at a day keeps a stored day
   * exactly when it lies in the anchor's year and month.
   */
  lemma MonthKeysAreMonthDays(t: Table, anchor: Date, d: Date)
    requires anchor.Valid() && d.Valid()
    ensures DateKey(d) in MonthKeys(t, MonthPrefix(anchor))
            <==> DateKey(d) in t && d.year == anchor.year && d.month == anchor.month
  {
    MonthFilterSelectsMonth(anchor, d);
  }

  /** The rows stored under `keys`, in that order. */
  function RowsAt(t: Table, keys: seq<string>): (rows: seq<Ca>)
    requires forall k :: k in keys ==> k in t
    ensures |rows| == |keys|
    ensures forall i :: 0 <= i < |keys| ==> rows[i] == t[keys[i]]
  {
    seq(|keys|, i requires 0 <= i < |keys| => t[keys[i]])
  }

  /** The dates of `rows`, in order. */
  function DatesOf(rows: seq<Ca>): (ds: seq<string>)
    ensures |ds| == |rows| && forall i :: 0 <= i < |rows| ==> ds[i] == rows[i].date
  {
    seq(|rows|, i requires 0 <= i < |rows| => rows[i].date)
  }

  /**
   * `rows` lists the month selected by `prefix`: stored rows only, exactly
   * the dates that start with `prefix`, in strictly ascending date order
   * (so each date once).
   */
  ghost predicate ListsMonth(t: Table, prefix: string, rows: seq<Ca>)
  {
    && (forall i :: 0 <= i < |rows| ==> rows[i].date in t && t[rows[i].date] == rows[i])
    && (forall k :: k in DatesOf(rows) <==> k in t && prefix <= k)
    && Ascending(DatesOf(rows))
  }

  /**
   * The answer to `SELECT * FROM CA WHERE date LIKE 'prefix%' ORDER BY date`:
   * the stored rows under the selected keys, taken in ascending key order.
   * `MonthRowsListsMonth` below states what that means.
   */
  function MonthRows(t: Table, prefix: string): (rows: seq<Ca>)
    requires Keyed(t)
    ensures DatesOf(rows) == SortedKeys(MonthKeys(t, prefix))
    ensures forall i :: 0 <= i < |rows| ==> rows[i].date in t && t[rows[i].date] == rows[i]
  {
    var keys := SortedKeys(MonthKeys(t, prefix));
    var rows := RowsAt(t, keys);
    assert DatesOf(rows) == keys;
    rows
  }

  /**
   * The month's rows are stored rows only, hold exactly the dates that
   * start with the prefix, each once, in strictly ascending date order.
   */
  lemma MonthRowsListsMonth(t: Table, prefix: string)
    requires Keyed(t)
    ensures ListsMonth(t, prefix, MonthRows(t, prefix))
    ensures |MonthRows(t, prefix)| == |MonthKeys(t, prefix)|
  {
  }

  /**
   * `MonthRows` is the only listing of the month: any sequence that lists
   * the month is the one `ORDER BY date` returns.
   */
  lemma {:induction false} MonthRowsUnique(t: Table, prefix: string, rows: seq<Ca>)
    requires Keyed(t) && ListsMonth(t, prefix, rows)
    ensures rows == MonthRows(t, prefix)
  {
    var m := MonthRows(t, prefix);
    MonthRowsListsMonth(t, prefix);
    AscendingUnique(DatesOf(rows), DatesOf(m));
    assert |rows| == |m|;
    forall i | 0 <= i < |rows|
      ensures rows[i] == m[i]
    {
      assert DatesOf(rows)[i] == DatesOf(m)[i];
    }
  }

  /**
   * For a month anchored at a day of the calendar, the month's rows list the
   * stored days of that month in calendar order.
   */
  lemma MonthRowsChronological(t: Table, anchor: Date, i: int, j: int, a: Date, b: Date)
    requires Keyed(t) && anchor.Valid() && a.Valid() && b.Valid()
    requires 0 <= i < j < |MonthRows(t, MonthPrefix(anchor))|
    requires MonthRows(t, MonthPrefix(anchor))[i].date == DateKey(a)
    requires MonthRows(t, MonthPrefix(anchor))[j].date == DateKey(b)
    ensures Before(a, b)
    ensures a.year == b.year == anchor.year && a.month == b.month == anchor.month
  {
    KeyOrderIsChronological(a, b);
    MonthFilterSelectsMonth(anchor, a);
    MonthFilterSelectsMonth(anchor, b);
    MonthRowsListsMonth(t, MonthPrefix(anchor));
  }

  /**
   * A stored day appears, exactly as stored, among the rows of any month
   * anchored at a day of the same year and month.
   */
  lemma {:induction false} StoredDayInMonth(t: Table, anchor: Date, day: Date)
    requires Keyed(t) && anchor.Valid() && day.Valid()
    requires DateKey(day) in t
    requires anchor.year == day.year && anchor.month == day.month
    ensures exists i :: 0 <= i < |MonthRows(t, MonthPrefix(anchor))|
                        && MonthRows(t, MonthPrefix(anchor))[i] == t[DateKey(day)]
  {
    MonthFilterSelectsMonth(anchor, day);
    MonthRowsListsMonth(t, MonthPrefix(anchor));
    var rows := MonthRows(t, MonthPrefix(anchor));
    var i :| 0 <= i < |rows| && rows[i].date == DateKey(day);
    assert rows[i] == t[DateKey(day)];
  }

  /** The numeric columns that the monthly totals add up. */
  datatype Column = CaColumn | HoursColumn | HsupColumn

  function Value(c: Ca, col: Column): real
  {
    match col
    case CaColumn => c.ca
    case HoursColumn => c.hours
    case HsupColumn => c.hsup
  }

  /** The total of one column over `rows`. */
  function Total(rows: seq<Ca>, col: Column): real
  {
    if rows == [] then 0.0 else Value(rows[0], col) + Total(rows[1..], col)
  }

  /** SQL `SUM`: NULL (here `None`) over no row, the total otherwise. */
  function SqlSum(rows: seq<Ca>, col: Column): (s: Option<real>)
    ensures s.None? <==> rows == []
    ensures s.Some? ==> s.value == Total(rows, col)
  {
    if rows == [] then None else Some(Total(rows, col))
  }

  /** The total of a concatenation is the sum of the totals. */
  lemma {:induction false} TotalAppend(a: seq<Ca>, b: seq<Ca>, col: Column)
    ensures Total(a + b, col) == Total(a, col) + Total(b, col)
  {
    if a == [] {
      assert a + b == b;
    } else {
      assert (a + b)[1..] == a[1..] + b;
      TotalAppend(a[1..], b, col);
    }
  }

  /** The total does not depend on the order of the rows. */
  lemma {:induction false} TotalReorder(a: seq<Ca>, b: seq<Ca>, col: Column)
    requires multiset(a) == multiset(b)
    ensures Total(a, col) == Total(b, col)
    decreases |a|
  {
    if a == [] {
      assert |b| == |multiset(b)| == 0;
    } else {
      var x := a[0];
      assert x in multiset(b);
      var i :| 0 <= i < |b| && b[i] == x;
      var rest := b[..i] + b[i + 1..];
      assert b == b[..i] + [x] + b[i + 1..];
      assert a == [x] + a[1..];
      calc {
        multiset(a[1..]);
        multiset(a) - multiset{x};
        multiset(b) - multiset{x};
        multiset(b[..i]) + multiset(b[i + 1..]);
        multiset(rest);
      }
      TotalAppend(b[..i] + [x], b[i + 1..], col);
      TotalAppend(b[..i], [x], col);
      TotalAppend(b[..i], b[i + 1..], col);
      TotalReorder(a[1..], rest, col);
    }
  }

  /**
   * `SUM` over the same rows in any order gives the same answer, so the
   * unordered `SELECT SUM(...)` agrees with a sum over the ordered listing.
   */
  lemma SqlSumIgnoresOrder(a: seq<Ca>, b: seq<Ca>, col: Column)
    requires multiset(a) == multiset(b)
    ensures SqlSum(a, col) == SqlSum(b, col)
  {
    assert |a| == |multiset(a)| == |b|;
    TotalReorder(a, b, col);
  }

  /** The effect of `UPDATE CA SET ca, hours, hsup, comment WHERE date = c.date`. */
  function Updated(t: Table, c: Ca): (t': Table)
  {
    if c.date in t then
      t[c.date := t[c.date].(ca := c.ca, hours := c.hours, hsup := c.hsup, comment := c.comment)]
    else t
  }

  /**
   * Updating overwrites the matching row with `c` and touches nothing else;
   * with no matching row the table is unchanged. The table stays keyed.
   */
  lemma UpdatedMeaning(t: Table, c: Ca)
    requires Keyed(t)
    ensures Keyed(Updated(t, c))
    ensures Updated(t, c) == if c.date in t then t[c.date := c] else t
  {
    if c.date in t {
      assert t[c.date].(ca := c.ca, hours := c.hours, hsup := c.hsup, comment := c.comment) == c;
    }
  }

  /** Updating twice with the same record is updating once. */
  lemma UpdatedIdempotent(t: Table, c: Ca)
    requires Keyed(t)
    ensures Updated(Updated(t, c), c) == Updated(t, c)
  {
    UpdatedMeaning(t, c);
    UpdatedMeaning(Updated(t, c), c);
  }

  /** The effect of `DELETE FROM CA WHERE date = key`. */
  function Deleted(t: Table, key: string): (t': Table)
    ensures key !in t' && t'.Keys == t.Keys - {key}
    ensures forall k :: k in t' ==> t'[k] == t[k]
  {
    t - {key}
  }

  class CaDaoSqlite {
    /** The rows of the CA table in the file this object points to. */
    var table: Table

    ghost predicate Valid()
      reads this
    {
      Keyed(table)
    }

    constructor (rows: Table)
      requires Keyed(rows)
      ensures Valid() && table == rows
    {
      table := rows;
    }

    /** `exist`: `SELECT COUNT(*) FROM CA WHERE date = 'YYYY-MM-DD'`, then `> 0`. */
    method Exist(d: Date, io: Io) returns (r: Result<bool>)
      requires d.Valid()
      ensures io.Fails? ==> r == Err(EngineFailure)
      ensures io.Works? ==> r == Ok(DateKey(d) in table)
    {
      var result := false;
      if io.Fails? {
        return Err(EngineFailure);
      }
      var key := DateKey(d);
      var matching := set k | k in table && k == key;
      var sum := |matching|;
      if key in table {
        assert matching == {key};
      } else {
        assert matching == {};
      }
      if sum > 0 {
        result := true;
      }
      return Ok(result);
    }

    /** `get`: `SELECT * FROM CA WHERE date = 'YYYY-MM-DD'` read with `query_row`. */
    method Get(d: Date, io: Io) returns (r: Result<Ca>)
      requires Valid() && d.Valid()
      ensures io.Fails? ==> r == Err(EngineFailure)
      ensures io.Works? && DateKey(d) !in table ==> r == Err(QueryReturnedNoRows)
      ensures io.Works? && DateKey(d) in table ==> r == Ok(table[DateKey(d)])
      ensures r.Ok? ==> r.value.date == DateKey(d)
    {
      if io.Fails? {
        return Err(EngineFailure);
      }
      var key := DateKey(d);
      if key !in table {
        return Err(QueryReturnedNoRows);
      }
      var row := table[key];
      return Ok(Ca(row.date, row.ca, row.hours, row.hsup, row.comment));
    }

    /** `del`: `DELETE FROM CA WHERE date = c.date`; no matching row is not an error. */
    method Del(c: Ca, io: Io) returns (r: Result<()>)
      requires Valid()
      modifies this
      ensures Valid()
      ensures io.Works? ==> r == Ok(()) && table == Deleted(old(table), c.date)
      ensures io.Fails? ==> r == Err(EngineFailure) && table == old(table)
    {
      if io.Fails? {
        return Err(EngineFailure);
      }
      table := table - {c.date};
      return Ok(());
    }

    /**
     * `update`: overwrite the non-key columns of the row dated `c.date`; no
     * matching row is not an error and changes nothing.
     */
    method Update(c: Ca, io: Io) returns (r: Result<()>)
      requires Valid()
      modifies this
      ensures Valid()
      ensures io.Works? ==> r == Ok(()) && table == Updated(old(table), c)
      ensures io.Works? && c.date in old(table) ==> table == old(table)[c.date := c]
      ensures io.Works? && c.date !in old(table) ==> table == old(table)
      ensures io.Fails? ==> r == Err(EngineFailure) && table == old(table)
    {
      if io.Fails? {
        return Err(EngineFailure);
      }
      UpdatedMeaning(table, c);
      if c.date in table {
        var row := table[c.date];
        table := table[c.date := row.(ca := c.ca, hours := c.hours, hsup := c.hsup, comment := c.comment)];
      }
      return Ok(());
    }

    /** `add`: `INSERT INTO CA`; a date already stored violates the primary key. */
    method Add(c: Ca, io: Io) returns (r: Result<()>)
      requires Valid()
      modifies this
      ensures Valid()
      ensures io.Fails? ==> r == Err(EngineFailure) && table == old(table)
      ensures io.Works? && c.date in old(table) ==> r == Err(PrimaryKeyConflict) && table == old(table)
      ensures io.Works? && c.date !in old(table) ==> r == Ok(()) && table == old(table)[c.date := c]
    {
      if io.Fails? {
        return Err(EngineFailure);
      }
      if c.date in table {
        return Err(PrimaryKeyConflict);
      }
      table := table[c.date := c];
      return Ok(());
    }

    /**
     * `datas_for_month`: the engine answers `LIKE 'YYYY-MM%' ORDER BY date`
     * and the rows are pushed one by one into `ca_tab`.
     */
    method DatasForMonth(d: Date, io: Io) returns (r: Result<seq<Ca>>)
      requires Valid() && d.Valid()
      ensures io.Fails? ==> r == Err(EngineFailure)
      ensures io.Works? ==> r == Ok(MonthRows(table, MonthPrefix(d)))
    {
      if io.Fails? {
        return Err(EngineFailure);
      }
      var rows := MonthRows(table, MonthPrefix(d));
      var caTab: seq<Ca> := [];
      for i := 0 to |rows|
        invariant caTab == rows[..i]
      {
        caTab := caTab + [rows[i]];
      }
      assert caTab == rows;
      return Ok(caTab);
    }

    /** `SELECT SUM(col) FROM CA WHERE date LIKE 'YYYY-MM%'`, read as a float. */
    method SumForMonth(d: Date, col: Column, io: Io) returns (r: Result<real>)
      requires Valid() && d.Valid()
      ensures io.Fails? ==> r == Err(EngineFailure)
      ensures io.Works? && MonthKeys(table, MonthPrefix(d)) == {} ==> r == Err(InvalidColumnType)
      ensures io.Works? && MonthKeys(table, MonthPrefix(d)) != {} ==>
                r == Ok(Total(MonthRows(table, MonthPrefix(d)), col))
    {
      if io.Fails? {
        return Err(EngineFailure);
      }
      var sum := SqlSum(MonthRows(table, MonthPrefix(d)), col);
      match sum
      case None =>
        return Err(InvalidColumnType);
      case Some(v) =>
        return Ok(v);
    }

    /** `ca_for_month`: the month's total revenue; an empty month is an error. */
    method CaForMonth(d: Date, io: Io) returns (r: Result<real>)
      requires Valid() && d.Valid()
      ensures io.Fails? ==> r == Err(EngineFailure)
      ensures io.Works? && MonthKeys(table, MonthPrefix(d)) == {} ==> r == Err(InvalidColumnType)
      ensures io.Works? && MonthKeys(table, MonthPrefix(d)) != {} ==>
                r == Ok(Total(MonthRows(table, MonthPrefix(d)), CaColumn))
    {
      r := SumForMonth(d, CaColumn, io);
    }

    /** `hours_for_month`: the month's total hours; an empty month is an error. */
    method HoursForMonth(d: Date, io: Io) returns (r: Result<real>)
      requires Valid() && d.Valid()
      ensures io.Fails? ==> r == Err(EngineFailure)
      ensures io.Works? && MonthKeys(table, MonthPrefix(d)) == {} ==> r == Err(InvalidColumnType)
      ensures io.Works? && MonthKeys(table, MonthPrefix(d)) != {} ==>
                r == Ok(Total(MonthRows(table, MonthPrefix(d)), HoursColumn))
    {
      r := SumForMonth(d, HoursColumn, io);
    }

    /** `hsup_for_month`: the month's total overtime hours; an empty month is an error. */
    method HsupForMonth(d: Date, io: Io) returns (r: Result<real>)
      requires Valid() && d.Valid()
      ensures io.Fails? ==> r == Err(EngineFailure)
      ensures io.Works? && MonthKeys(table, MonthPrefix(d)) == {} ==> r == Err(InvalidColumnType)
      ensures io.Works? && MonthKeys(table, MonthPrefix(d)) != {} ==>
                r == Ok(Total(MonthRows(table, MonthPrefix(d)), HsupColumn))
    {
      r := SumForMonth(d, HsupColumn, io);
    }
  }
}
