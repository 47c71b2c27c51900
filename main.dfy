/**
 * The command line of src/main.rs: how each argument is classified and
 * dispatched, how the date is cut out of `--month=...`/`--day=...`, and the
 * menu loop of a single day.
 *
 * Reading the clock and parsing `dd/mm/yyyy` belong to the date library:
 * today's date and the parser arrive as parameters.
 */
module Cli {
  import opened Dates
  import opened Record
  import opened Dao
  import opened Lifecycle
  import opened Month

  // ---------------------------------------------------------------------
  // extract_date

  /** The position of the first `=` in `a`, if any. */
  function IndexOfEquals(a: string): (r: Option<nat>)
    ensures r.None? <==> '=' !in a
    ensures r.Some? ==> r.value < |a| && a[r.value] == '=' && '=' !in a[..r.value]
  {
    if a == [] then None
    else if a[0] == '=' then Some(0)
    else match IndexOfEquals(a[1..])
      case None => None
      case Some(i) => assert a[..i + 1] == [a[0]] + a[1..][..i]; Some(i + 1)
  }

  /** What `extract_date` returns: the text after the first `=`, or all of `a` when there is none. */
  function AfterFirstEquals(a: string): (r: string)
    ensures |r| <= |a| && r == a[|a| - |r|..]
  {
    match IndexOfEquals(a)
    case None => a
    case Some(i) => a[i + 1..]
  }

  /** `extract_date`: scan for the first `=` and return what follows it. */
  method ExtractDate(arg: string) returns (r: string)
    ensures r == AfterFirstEquals(arg)
  {
    for i := 0 to |arg|
      invariant '=' !in arg[..i]
    {
      if arg[i] == '=' {
        assert IndexOfEquals(arg) == Some(i);
        return arg[i + 1..];
      }
    }
    assert arg[..|arg|] == arg;
    return arg;
  }

  /** For `p=s` with no `=` in `p`, the date text is `s`, later `=` included. */
  lemma {:induction false} ExtractAfterFlag(p: string, s: string)
    requires '=' !in p
    ensures AfterFirstEquals(p + "=" + s) == s
  {
    var a := p + "=" + s;
    assert a[|p|] == '=' && a[..|p|] == p;
    assert a[|p| + 1..] == s;
  }

  /** An argument with no `=` is returned whole. */
  lemma ExtractWithoutEquals(a: string)
    requires '=' !in a
    ensures AfterFirstEquals(a) == a
  {
  }

  // ---------------------------------------------------------------------
  // Classification of an argument

  /** `s.contains(sub)`. */
  predicate Contains(s: string, sub: string)
  {
    sub <= s || (s != [] && Contains(s[1..], sub))
  }

  /** The branch of `main`'s `match` an argument takes. */
  datatype Command = Welcome | Help | MonthCommand | DayCommand | UnknownCommand

  /**
   * First match, in the order of the arms of `main`. The long flags are
   * redundant (`--month` contains `-m`, `--day` contains `-d`), and the help
   * arm is never shadowed by the welcome arm before it.
   */
  function Classify(arg: string): (c: Command)
    ensures c == Welcome <==> Contains(arg, "fde")
    ensures c == Help <==> arg == "--help" || arg == "-h"
    ensures c == MonthCommand <==> Contains(arg, "-m") && !Contains(arg, "fde")
    ensures c == DayCommand <==> Contains(arg, "-d") && !Contains(arg, "-m") && !Contains(arg, "fde")
  {
    FlagFacts(arg);
    if Contains(arg, "fde") then Welcome
    else if arg == "--help" || arg == "-h" then Help
    else if Contains(arg, "--month") || Contains(arg, "-m") then MonthCommand
    else if Contains(arg, "--day") || Contains(arg, "-d") then DayCommand
    else UnknownCommand
  }

  /** `p` occurring at position `k` of `s` means `s` contains `p`. */
  lemma {:induction false} ContainsAt(s: string, p: string, k: nat)
    requires k <= |s| && p <= s[k..]
    ensures Contains(s, p)
  {
    if k > 0 {
      assert s[1..][k - 1..] == s[k..];
      ContainsAt(s[1..], p, k - 1);
    } else {
      assert s[k..] == s;
    }
  }

  /** A text containing `sub` contains every piece of `sub`. */
  lemma {:induction false} ContainsPiece(s: string, sub: string, k: nat, p: string)
    requires Contains(s, sub) && k <= |sub| && p <= sub[k..]
    ensures Contains(s, p)
  {
    if sub <= s {
      assert s[k..][..|p|] == sub[k..][..|p|];
      ContainsAt(s, p, k);
    } else {
      ContainsPiece(s[1..], sub, k, p);
    }
  }

  /**
   * Positions of `x` at which `sub` does not start can be skipped when
   * looking for `sub` in `x + s`.
   */
  lemma {:induction false} SkipUnmatched(x: string, s: string, sub: string)
    requires forall i :: 0 <= i < |x| ==> !(sub <= (x + s)[i..])
    ensures Contains(x + s, sub) <==> Contains(s, sub)
  {
    if x != [] {
      assert (x + s)[0..] == x + s;
      assert (x + s)[1..] == x[1..] + s;
      forall i | 0 <= i < |x[1..]|
        ensures !(sub <= (x[1..] + s)[i..])
      {
        assert (x[1..] + s)[i..] == (x + s)[i + 1..];
      }
      SkipUnmatched(x[1..], s, sub);
    } else {
      assert x + s == s;
    }
  }

  /** The long flags contain the short ones, and the help flags contain no other flag. */
  lemma FlagFacts(arg: string)
    ensures Contains(arg, "--month") ==> Contains(arg, "-m")
    ensures Contains(arg, "--day") ==> Contains(arg, "-d")
    ensures !Contains("--help", "fde") && !Contains("-h", "fde")
    ensures !Contains("--help", "-m") && !Contains("-h", "-m")
    ensures !Contains("--help", "-d") && !Contains("-h", "-d")
  {
    if Contains(arg, "--month") {
      ContainsPiece(arg, "--month", 1, "-m");
    }
    if Contains(arg, "--day") {
      ContainsPiece(arg, "--day", 1, "-d");
    }
    NotContainsWithoutHead("--help", "fde");
    NotContainsWithoutHead("-h", "fde");
    HelpHoldsNoFlag("-m");
    HelpHoldsNoFlag("-d");
  }

  /** Neither help flag contains a short flag other than `-h`. */
  lemma HelpHoldsNoFlag(flag: string)
    requires flag == "-m" || flag == "-d"
    ensures !Contains("--help", flag) && !Contains("-h", flag)
  {
    var help, tail := "--help", "-help";
    NotContainsWithoutHead("help", flag);
    NotContainsWithoutHead("h", flag);
    assert tail[1..] == "help" && !(flag <= tail);
    assert !Contains(tail, flag);
    assert help[1..] == tail && !(flag <= help);
    assert "-h"[1..] == "h" && !(flag <= "-h");
  }

  /** A text whose characters do not include `sub`'s first one does not contain `sub`. */
  lemma {:induction false} NotContainsWithoutHead(s: string, sub: string)
    requires sub != [] && sub[0] !in s
    ensures !Contains(s, sub)
  {
    if s != [] {
      NotContainsWithoutHead(s[1..], sub);
    }
  }

  /** Characters that cannot start `sub` can be skipped when looking for it. */
  lemma {:induction false} SkipLead(x: string, s: string, sub: string)
    requires sub != [] && sub[0] !in x
    ensures Contains(x + s, sub) <==> Contains(s, sub)
  {
    if x != [] {
      assert (x + s)[1..] == x[1..] + s;
      SkipLead(x[1..], s, sub);
    } else {
      assert x + s == s;
    }
  }

  /**
   * An argument containing both `-m` and `-d` is a month command (unless it
   * names the program).
   */
  lemma MonthBeforeDay(arg: string)
    requires Contains(arg, "-m") && Contains(arg, "-d") && !Contains(arg, "fde")
    ensures Classify(arg) == MonthCommand
  {
  }

  /** `--month=s` and `-m=s` are month commands exactly when `s` does not name the program. */
  lemma {:induction false} MonthFlags(s: string)
    ensures Classify("--month=" + s) == MonthCommand <==> !Contains(s, "fde")
    ensures Classify("-m=" + s) == MonthCommand <==> !Contains(s, "fde")
  {
    SkipLead("--month=", s, "fde");
    SkipLead("-m=", s, "fde");
    ContainsAt("--month=" + s, "-m", 1);
    ContainsAt("-m=" + s, "-m", 0);
  }

  /**
   * `--day=s` and `-d=s` are day commands exactly when `s` holds neither `-m`
   * nor the program's name.
   */
  lemma {:induction false} DayFlags(s: string)
    ensures Classify("--day=" + s) == DayCommand <==> !Contains(s, "-m") && !Contains(s, "fde")
    ensures Classify("-d=" + s) == DayCommand <==> !Contains(s, "-m") && !Contains(s, "fde")
  {
    var long, short := "--day=" + s, "-d=" + s;
    SkipLead("--day=", s, "fde");
    SkipLead("-d=", s, "fde");
    forall i | 0 <= i < |"--day="|
      ensures !("-m" <= long[i..])
    {
      if i < 2 {
        assert long[i..][1] == long[i + 1] != 'm';
      } else {
        assert long[i..][0] == long[i] != '-';
      }
    }
    forall i | 0 <= i < |"-d="|
      ensures !("-m" <= short[i..])
    {
      if i < 1 {
        assert short[i..][1] == short[i + 1] != 'm';
      } else {
        assert short[i..][0] == short[i] != '-';
      }
    }
    SkipUnmatched("--day=", s, "-m");
    SkipUnmatched("-d=", s, "-m");
    ContainsAt(long, "-d", 1);
    ContainsAt(short, "-d", 0);
  }

  // ---------------------------------------------------------------------
  // main

  /** What `main` does with one argument. */
  datatype Action =
    | ShowWelcome
    | ShowHelp
    | ShowMonth(anchor: Date)   // get_month
    | OpenDay(day: Date)        // process_day
    | ReportParseError
    | ReportUnknown

  /** The date parser only ever yields days of the calendar, as chrono's `parse_from_str` does. */
  ghost predicate ParsesRealDays(parse: string -> Option<Date>)
  {
    forall s :: parse(s).Some? ==> parse(s).value.Valid()
  }

  /** The day an action shows or opens is a day of the calendar. */
  predicate HasRealDay(a: Action)
  {
    match a
    case ShowMonth(d) => d.Valid()
    case OpenDay(d) => d.Valid()
    case _ => true
  }

  /**
   * The action for one argument. A month whose date does not parse falls back
   * to today; a day whose date does not parse only reports the error.
   */
  function Dispatch(arg: string, today: Date, parse: string -> Option<Date>): (a: Action)
    requires today.Valid() && ParsesRealDays(parse)
    ensures HasRealDay(a)
    ensures a == ShowWelcome <==> Classify(arg) == Welcome
    ensures a == ShowHelp <==> Classify(arg) == Help
    ensures a == ReportUnknown <==> Classify(arg) == UnknownCommand
    ensures a.ShowMonth? <==> Classify(arg) == MonthCommand
    ensures a.OpenDay? || a.ReportParseError? <==> Classify(arg) == DayCommand
    ensures a.ShowMonth? ==> a.anchor == match parse(AfterFirstEquals(arg))
                                        case Some(d) => d
                                        case None => today
    ensures Classify(arg) == DayCommand ==>
              a == match parse(AfterFirstEquals(arg))
                   case Some(d) => OpenDay(d)
                   case None => ReportParseError
  {
    match Classify(arg)
    case Welcome => ShowWelcome
    case Help => ShowHelp
    case MonthCommand =>
      (match parse(AfterFirstEquals(arg))
       case Some(d) => ShowMonth(d)
       case None => ShowMonth(today))
    case DayCommand =>
      (match parse(AfterFirstEquals(arg))
       case Some(d) => OpenDay(d)
       case None => ReportParseError)
    case UnknownCommand => ReportUnknown
  }

  /**
   * `main`'s loop: every argument, in order, gets its action; an unknown one
   * does not stop the others.
   */
  method RunArgs(args: seq<string>, today: Date, parse: string -> Option<Date>)
    returns (actions: seq<Action>)
    requires today.Valid() && ParsesRealDays(parse)
    ensures |actions| == |args|
    ensures forall i :: 0 <= i < |args| ==> HasRealDay(actions[i])
    ensures forall i :: 0 <= i < |args| ==> actions[i] == Dispatch(args[i], today, parse)
  {
    actions := [];
    for i := 0 to |args|
      invariant |actions| == i
      invariant forall j :: 0 <= j < i ==> actions[j] == Dispatch(args[j], today, parse)
    {
      var arg := args[i];
      var action;
      match Classify(arg) {
      case Welcome =>
        action := ShowWelcome;
      case Help =>
        action := ShowHelp;
      case MonthCommand =>
        var text := ExtractDate(arg);
        match parse(text) {
          case Some(d) =>
            action := ShowMonth(d);
          case None =>
            action := ShowMonth(today);
        }
      case DayCommand =>
        var text := ExtractDate(arg);
        match parse(text) {
          case Some(d) =>
            action := OpenDay(d);
          case None =>
            action := ReportParseError;
        }
      case UnknownCommand =>
        action := ReportUnknown;
      }
      actions := actions + [action];
    }
  }

  // ---------------------------------------------------------------------
  // get_month

  /** `get_month`: a zero-filled month for `day`, then `retrieve_datas`. */
  method GetMonth(db: CaDaoSqlite, day: Date, ioCa: Io, ioHours: Io, ioHsup: Io, ioDatas: Io)
    returns (m: CaMonth, r: Result<()>)
    requires db.Valid() && day.Valid()
    ensures fresh(m) && m.day == day
    ensures r.Ok? ==> && m.datas == MonthRows(db.table, MonthPrefix(day))
                      && m.ca == Total(m.datas, CaColumn)
                      && m.hours == Total(m.datas, HoursColumn)
                      && m.hsup == Total(m.datas, HsupColumn)
    ensures var rows := MonthRows(db.table, MonthPrefix(day));
            r.Ok? <==> StepsDone(rows == [], ioCa, ioHours, ioHsup, ioDatas) == 4
    ensures r.Err? ==> r.error == if ioCa.Works? && MonthRows(db.table, MonthPrefix(day)) == []
                                  then InvalidColumnType else EngineFailure
    ensures MonthRows(db.table, MonthPrefix(day)) == [] ==>
              r == (if ioCa.Fails? then Err(EngineFailure) else Err(InvalidColumnType))
              && m.ca == 0.0 && m.hours == 0.0 && m.hsup == 0.0 && m.datas == []
  {
    m := new CaMonth(day);
    r := m.RetrieveDatas(db, ioCa, ioHours, ioHsup, ioDatas);
  }

  // ---------------------------------------------------------------------
  // process_day

  /** The four menu choices; anything else is reported and asked again. */
  predicate Recognised(choice: string)
  {
    choice == "d" || choice == "m" || choice == "s" || choice == "q"
  }

  /** The position of the first recognised choice, if any. */
  function FirstRecognised(choices: seq<string>): (r: Option<nat>)
    ensures r.None? <==> forall j :: 0 <= j < |choices| ==> !Recognised(choices[j])
    ensures r.Some? ==> r.value < |choices| && Recognised(choices[r.value])
                        && forall j :: 0 <= j < r.value ==> !Recognised(choices[j])
  {
    if choices == [] then None
    else if Recognised(choices[0]) then Some(0)
    else match FirstRecognised(choices[1..])
      case None => None
      case Some(i) => Some(i + 1)
  }

  /** The figures `dialog_ca` reads for the `m` choice. */
  datatype Entry = Entry(ca: real, hours: real, hsup: real, comment: Option<string>)

  /** The record after `dialog_ca`: new figures, same day. */
  function Edited(c: Ca, e: Entry): (c': Ca)
    ensures c'.date == c.date
  {
    c.(ca := e.ca, hours := e.hours, hsup := e.hsup, comment := e.comment)
  }

  /** The table after the one action a recognised choice performs on the day's record `c`. */
  function MenuEffect(t: Table, c: Ca, choice: string, e: Entry, io: Io): Table
  {
    if choice == "d" then DeleteEffect(t, c, io)
    else if choice == "m" then SaveEffect(t, Edited(c, e), io)
    else if choice == "s" then SaveEffect(t, c, io)
    else t
  }

  /**
   * `process_day`: fetch or create the day, then read choices until one is
   * recognised and perform its action once: delete, edit then save, save, or
   * quit. Unrecognised choices are skipped.
   */
  method ProcessDay(db: CaDaoSqlite, day: Date, choices: seq<string>, entry: Entry,
                    ioExist: Io, ioNext: Io, ioWrite: Io)
    returns (chosen: Option<string>)
    requires db.Valid() && day.Valid()
    modifies db
    ensures db.Valid()
    ensures chosen == match FirstRecognised(choices)
                      case None => None
                      case Some(i) => Some(choices[i])
    ensures var (c, t) := LookupOrCreate(old(db.table), day, ioExist, ioNext);
            db.table == match chosen
                        case None => t
                        case Some(choice) => MenuEffect(t, c, choice, entry, ioWrite)
  {
    var c := New(db, day, ioExist, ioNext);
    ghost var c0, t0 := c, db.table;
    chosen := None;
    var i := 0;
    while i < |choices|
      invariant 0 <= i <= |choices|
      invariant forall j :: 0 <= j < i ==> !Recognised(choices[j])
      invariant db.Valid() && db.table == t0 && c == c0
    {
      var choice := choices[i];
      if choice == "d" {
        Delete(c, db, ioWrite);
        chosen := Some(choice);
        break;
      } else if choice == "m" {
        c := Edited(c, entry);
        Save(c, db, ioWrite);
        chosen := Some(choice);
        break;
      } else if choice == "s" {
        Save(c, db, ioWrite);
        chosen := Some(choice);
        break;
      } else if choice == "q" {
        chosen := Some(choice);
        break;
      }
      i := i + 1;
    }
    assert chosen.Some? ==> FirstRecognised(choices) == Some(i);
  }
}
