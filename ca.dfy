/**
 * The `Ca` record of src/ca.rs: one working day, stored as one row of the CA
 * table.
 */
module Record {
  import opened Dates

  datatype Option<T> = None | Some(value: T)

  /** One day: its `YYYY-MM-DD` date, revenue, hours worked, overtime and an optional note. */
  datatype Ca = Ca(date: string, ca: real, hours: real, hsup: real, comment: Option<string>)

  /** The record `Ca::new` builds for a day before looking at the table: zero figures, no note. */
  function Template(day: Date): Ca
    requires day.Valid()
  {
    Ca(DateKey(day), 0.0, 0.0, 0.0, None)
  }
}

/**
 * `Ca::new`, `Ca::save` and `Ca::delete` (src/ca.rs): the record's trips to
 * the table. Errors are reported by the source and then swallowed; here
 * only their effect remains: what is returned and what the table becomes.
 */
module Lifecycle {
  import opened Dates
  import opened Record
  import opened Dao

  /**
   * What `Ca::new(day)` returns and the table it leaves. `ioExist` decides the
   * `exist` statement, `ioNext` the statement that follows it (`get` when the
   * day is stored, `add` when it is not).
   */
  function LookupOrCreate(t: Table, day: Date, ioExist: Io, ioNext: Io): (res: (Ca, Table))
    requires Keyed(t) && day.Valid()
    ensures res.0.date == DateKey(day)
    ensures Keyed(res.1)
  {
    var key := DateKey(day);
    if ioExist.Fails? || ioNext.Fails? then (Template(day), t)
    else if key in t then (t[key], t)
    else (Template(day), t[key := Template(day)])
  }

  /**
   * Without a storage failure the returned record is what the table holds for
   * the day afterwards, no other row changes, and a day already stored is
   * returned as stored without any write. An absent day gains the zero
   * template.
   */
  lemma LookupOrCreateStores(t: Table, day: Date)
    requires Keyed(t) && day.Valid()
    ensures var (c, t') := LookupOrCreate(t, day, Works, Works);
            && DateKey(day) in t'
            && t'[DateKey(day)] == c
            && t' - {DateKey(day)} == t - {DateKey(day)}
            && (DateKey(day) in t ==> c == t[DateKey(day)] && t' == t)
            && (DateKey(day) !in t ==> c == Template(day))
  {
  }

  /** On any storage failure the zero template comes back and nothing is written. */
  lemma LookupOrCreateFailure(t: Table, day: Date, ioExist: Io, ioNext: Io)
    requires Keyed(t) && day.Valid()
    requires ioExist.Fails? || ioNext.Fails?
    ensures LookupOrCreate(t, day, ioExist, ioNext) == (Template(day), t)
  {
  }

  /**
   * Asking for the same day twice, without a failure, returns equal records;
   * the second call writes nothing.
   */
  lemma LookupOrCreateTwice(t: Table, day: Date)
    requires Keyed(t) && day.Valid()
    ensures var (c1, t1) := LookupOrCreate(t, day, Works, Works);
            LookupOrCreate(t1, day, Works, Works) == (c1, t1)
  {
  }

  /**
   * Without storage failure, the record `Ca::new(day)` returns is listed
   * among the rows of any month anchored at a day of the same year and month.
   * (When a statement fails, the template returned is not stored at all.)
   */
  lemma {:induction false} CreatedDayInMonth(t: Table, day: Date, anchor: Date)
    requires Keyed(t) && day.Valid() && anchor.Valid()
    requires anchor.year == day.year && anchor.month == day.month
    ensures var (c, t') := LookupOrCreate(t, day, Works, Works);
            exists i :: 0 <= i < |MonthRows(t', MonthPrefix(anchor))|
                        && MonthRows(t', MonthPrefix(anchor))[i] == c
  {
    var (c, t') := LookupOrCreate(t, day, Works, Works);
    StoredDayInMonth(t', anchor, day);
  }

  /** `Ca::new`: look the day up; fetch it when stored, insert the zero template otherwise. */
  method New(db: CaDaoSqlite, day: Date, ioExist: Io, ioNext: Io) returns (c: Ca)
    requires db.Valid() && day.Valid()
    modifies db
    ensures db.Valid()
    ensures (c, db.table) == LookupOrCreate(old(db.table), day, ioExist, ioNext)
  {
    c := Template(day);
    var exist := db.Exist(day, ioExist);
    match exist
    case Ok(found) =>
      if found {
        var got := db.Get(day, ioNext);
        match got
        case Ok(stored) =>
          c := stored;
        case Err(_) =>
      } else {
        var added := db.Add(c, ioNext);
      }
    case Err(_) =>
  }

  /** The table after `save`: exactly what `update` leaves. */
  function SaveEffect(t: Table, c: Ca, io: Io): Table
  {
    if io.Works? then Updated(t, c) else t
  }

  /** The table after `delete`: exactly what `del` leaves. */
  function DeleteEffect(t: Table, c: Ca, io: Io): Table
  {
    if io.Works? then Deleted(t, c.date) else t
  }

  /**
   * When `update` works, saving a record whose day is stored overwrites that
   * one row, and reading the day back gives the record; saving a record whose
   * day is not stored changes nothing. When it fails, the table is left as it
   * was, and the caller is not told.
   */
  lemma SaveRoundTrip(t: Table, c: Ca)
    requires Keyed(t)
    ensures Keyed(SaveEffect(t, c, Works))
    ensures c.date in t ==> c.date in SaveEffect(t, c, Works) && SaveEffect(t, c, Works)[c.date] == c
    ensures SaveEffect(t, c, Works) - {c.date} == t - {c.date}
    ensures c.date !in t ==> SaveEffect(t, c, Works) == t
    ensures SaveEffect(t, c, Fails) == t
  {
    UpdatedMeaning(t, c);
  }

  /**
   * When `del` works, the day is gone afterwards and deleting it again
   * changes nothing. When it fails, the table is left as it was, and the
   * caller is not told.
   */
  lemma DeleteIdempotent(t: Table, c: Ca)
    ensures c.date !in DeleteEffect(t, c, Works)
    ensures DeleteEffect(DeleteEffect(t, c, Works), c, Works) == DeleteEffect(t, c, Works)
    ensures DeleteEffect(t, c, Works) - {c.date} == t - {c.date}
    ensures DeleteEffect(t, c, Fails) == t
  {
  }

  /** `Ca::save`: write the record's figures through `update`. */
  method Save(c: Ca, db: CaDaoSqlite, io: Io)
    requires db.Valid()
    modifies db
    ensures db.Valid()
    ensures db.table == SaveEffect(old(db.table), c, io)
  {
    var updated := db.Update(c, io);
  }

  /** `Ca::delete`: remove the record's row through `del`. */
  method Delete(c: Ca, db: CaDaoSqlite, io: Io)
    requires db.Valid()
    modifies db
    ensures db.Valid()
    ensures db.table == DeleteEffect(old(db.table), c, io)
  {
    var deleted := db.Del(c, io);
  }
}
