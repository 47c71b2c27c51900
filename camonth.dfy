/**
 * `CaMonth` (src/camonth.rs): the activity of one month, filled in from the
 * CA table by four queries run one after another.
 */
module Month {
  import opened Dates
  import opened Record
  import opened Dao

  /**
   * How many of the four steps of `retrieve_datas` succeed before the first
   * failure (4 when none fails). The first step, the revenue sum, also fails
   * when the month has no row at all.
   */
  function StepsDone(emptyMonth: bool, ioCa: Io, ioHours: Io, ioHsup: Io, ioDatas: Io): (n: nat)
    ensures n <= 4
  {
    if ioCa.Fails? || emptyMonth then 0
    else if ioHours.Fails? then 1
    else if ioHsup.Fails? then 2
    else if ioDatas.Fails? then 3
    else 4
  }

  class CaMonth {
    /** The day that selects the month. */
    var day: Date
    /** Revenue of the month. */
    var ca: real
    /** Hours worked in the month. */
    var hours: real
    /** Overtime hours of the month. */
    var hsup: real
    /** The month's days, one record each. */
    var datas: seq<Ca>

    /** The zero-filled value `get_month` starts from. */
    constructor (day: Date)
      ensures this.day == day && ca == 0.0 && hours == 0.0 && hsup == 0.0 && datas == []
    {
      this.day := day;
      ca, hours, hsup := 0.0, 0.0, 0.0;
      datas := [];
    }

    /**
     * `retrieve_datas`: revenue, hours, overtime, then the rows, each from
     * its own query, stopping at the first error. The fields of the steps
     * before the failing one already hold their new values; the others keep
     * theirs. The table is only read.
     */
    method RetrieveDatas(db: CaDaoSqlite, ioCa: Io, ioHours: Io, ioHsup: Io, ioDatas: Io)
      returns (r: Result<()>)
      requires db.Valid() && day.Valid()
      modifies this
      ensures day == old(day)
      ensures var rows := MonthRows(db.table, MonthPrefix(day));
              var n := StepsDone(rows == [], ioCa, ioHours, ioHsup, ioDatas);
              && (r.Ok? <==> n == 4)
              && (r.Err? ==> r.error == if n == 0 && ioCa.Works? then InvalidColumnType else EngineFailure)
              && ca == (if n >= 1 then Total(rows, CaColumn) else old(ca))
              && hours == (if n >= 2 then Total(rows, HoursColumn) else old(hours))
              && hsup == (if n >= 3 then Total(rows, HsupColumn) else old(hsup))
              && datas == (if n == 4 then rows else old(datas))
      ensures r.Ok? ==>
                && ListsMonth(db.table, MonthPrefix(day), datas)
                && ca == Total(datas, CaColumn)
                && hours == Total(datas, HoursColumn)
                && hsup == Total(datas, HsupColumn)
    {
      MonthRowsListsMonth(db.table, MonthPrefix(day));
      var rCa := db.CaForMonth(day, ioCa);
      if rCa.Err? {
        return Err(rCa.error);
      }
      ca := rCa.value;
      var rHours := db.HoursForMonth(day, ioHours);
      if rHours.Err? {
        return Err(rHours.error);
      }
      hours := rHours.value;
      var rHsup := db.HsupForMonth(day, ioHsup);
      if rHsup.Err? {
        return Err(rHsup.error);
      }
      hsup := rHsup.value;
      var rDatas := db.DatasForMonth(day, ioDatas);
      if rDatas.Err? {
        return Err(rDatas.error);
      }
      datas := rDatas.value;
      return Ok(());
    }
  }
}
