/** One request to the team calendar page.

    The page needs the view permission. It resolves the shown date range,
    applies a submitted grid when the request carries one (which needs the
    permission to update one's own availability and then shows the range
    that was edited), and answers with the grid of the range as a list of
    day rows read back from the store. */
module TeamCalendar {
  import opened Dates
  import opened Decimals
  import opened Wrappers
  import opened Lists
  import opened Store
  import opened Interval
  import opened Timetable
  import opened Reconcile

  const ViewAction: string := "TEAMCALENDAR_VIEW"
  const UpdateOwnAction: string := "TEAMCALENDAR_UPDATE_OWN"
  const UpdatedMessage: string := "Timetable updated."

  /** The per-syllabus options `work_days`, `weeks_prior` and `weeks_after`. */
  datatype Config = Config(workDays: seq<int>, weeksPrior: int, weeksAfter: int)

  /** Which of the three permission actions the requester holds. */
  datatype Permissions = Permissions(view: bool, updateOwn: bool, updateOthers: bool)

  /** A submitted grid: `orig_from_date`, `orig_to_date` and the
      `<date>.<user>` fields. */
  datatype Update = Update(origFrom: Date, origTo: Date, form: map<Cell, Dec>)

  /** The request arguments the engine reads, the requester and their
      permissions. */
  datatype Request = Request(fromArg: Option<Date>, toArg: Option<Date>, update: Option<Update>,
                             authname: string, perms: Permissions)

  /** One entry of the page's `timetable` list. */
  datatype DayRow = DayRow(date: Date, people: Day)

  /** The outcome of a request: a permission error, a write transaction
      that was rolled back (the error leaves the page unrendered), or the
      page's data. */
  datatype Response =
    | Forbidden(action: string)
    | Rollback
    | Page(message: string, warning: RangeWarning, authname: string,
           canUpdateOwn: bool, canUpdateOthers: bool, canUpdate: bool,
           today: Date, from: Date, to: Date, people: seq<string>, timetable: seq<DayRow>)

  /** The last loop of `process_request`: the grid's days in date order. */
  method Flatten(timetable: Grid, from: Date, to: Date) returns (days: seq<DayRow>)
    requires forall d :: from <= d <= to ==> d in timetable
    ensures |days| == if to < from then 0 else to - from + 1
    ensures forall i :: 0 <= i < |days| ==> days[i] == DayRow(from + i, timetable[from + i])
  {
    days := [];
    var current := from;
    while current <= to
      invariant current == from || from < current <= to + 1
      invariant |days| == current - from
      invariant forall i :: 0 <= i < |days| ==> days[i] == DayRow(from + i, timetable[from + i])
    {
      days := days + [DayRow(current, timetable[current])];
      current := current + 1;
    }
  }

  /** A day of the page as the store `rows` determines it: the project
      members and every user with a stored row that day, each with the
      stored value or else the work-week default. */
  ghost predicate ShowsDay(day: Day, rows: map<Key, int>, d: Date, people: seq<string>, pid: int,
                           workDays: seq<int>) {
    && (forall u :: u in day <==> u in people || Key(pid, d, u) in rows)
    && (forall u :: Key(pid, d, u) in rows ==> u in day && day[u] == rows[Key(pid, d, u)])
    && (forall u :: u in people && Key(pid, d, u) !in rows ==>
          u in day && day[u] == DefaultAvailability(d, workDays))
  }

  /** The page's day rows are the dates `from` to `to` in order, each as
      the store determines it. */
  ghost predicate Shows(days: seq<DayRow>, rows: map<Key, int>, from: Date, to: Date,
                        people: seq<string>, pid: int, workDays: seq<int>) {
    && |days| == (if to < from then 0 else to - from + 1)
    && forall i :: 0 <= i < |days| ==>
         days[i].date == from + i && ShowsDay(days[i].people, rows, from + i, people, pid, workDays)
  }

  /** After a committed batch, each of its cells holds its quantized value,
      the batch's keys are added and every other row is as it was. */
  ghost predicate Written(before: map<Key, int>, after: map<Key, int>, pid: int, batch: seq<Edit>) {
    && after.Keys == before.Keys + EditKeys(pid, batch)
    && (forall e :: e in batch ==>
          Key(pid, e.date, e.user) in after && after[Key(pid, e.date, e.user)] == Quantize(e.value))
    && (forall k :: k in before && k !in EditKeys(pid, batch) ==> after[k] == before[k])
  }

  /** `get_timetable` followed by the last loop shows the store. */
  method ReadPage(store: Store, from: Date, to: Date, people: seq<string>, pid: int, workDays: seq<int>)
    returns (days: seq<DayRow>)
    ensures Shows(days, store.rows, from, to, people, pid, workDays)
  {
    var timetable := GetTimetable(store, from, to, people, pid, workDays);
    days := Flatten(timetable, from, to);
    forall i | 0 <= i < |days|
      ensures ShowsDay(days[i].people, store.rows, from + i, people, pid, workDays)
    {
      assert days[i].people == timetable[from + i];
    }
  }

  /** `process_request`, as far as it concerns the calendar's data. The
      page's `from`/`to` are the resolved range even after an update, while
      its day rows are those of the edited range. */
  method ProcessRequest(store: Store, config: Config, pid: int, people: seq<string>, today: Date,
                        req: Request) returns (resp: Response)
    requires store.Valid()
    requires NoDuplicates(people)
    modifies store
    ensures store.Valid()
    ensures !req.perms.view ==> resp == Forbidden(ViewAction) && store.rows == old(store.rows)
    ensures req.perms.view && req.update.Some? && !req.perms.updateOwn ==>
              resp == Forbidden(UpdateOwnAction) && store.rows == old(store.rows)
    ensures req.perms.view && req.update.None? ==>
              var r := ResolveRange(req.fromArg, req.toArg, today, config.weeksPrior, config.weeksAfter);
              && store.rows == old(store.rows)
              && resp.Page? && resp.message == ""
              && Shows(resp.timetable, store.rows, r.from, r.to, people, pid, config.workDays)
    ensures req.perms.view && req.update.Some? && req.perms.updateOwn ==>
              var u := req.update.value;
              var batch := EditBatch(u.form, u.origFrom, u.origTo, people, req.authname,
                                     req.perms.updateOthers, req.perms.updateOwn);
              && (resp == Rollback <==> exists e :: e in batch && !InScale(Quantize(e.value)))
              && (resp == Rollback ==> store.rows == old(store.rows))
              && (resp != Rollback ==>
                    && Written(old(store.rows), store.rows, pid, batch)
                    && resp.Page? && resp.message == UpdatedMessage
                    && Shows(resp.timetable, store.rows, u.origFrom, u.origTo, people, pid, config.workDays))
    ensures resp.Page? ==>
              var r := ResolveRange(req.fromArg, req.toArg, today, config.weeksPrior, config.weeksAfter);
              && resp.warning == r.warning && resp.from == r.from && resp.to == r.to
              && resp.authname == req.authname && resp.today == today && resp.people == people
              && resp.canUpdateOwn == req.perms.updateOwn && resp.canUpdateOthers == req.perms.updateOthers
              && resp.canUpdate == (req.perms.updateOwn || req.perms.updateOthers)
  {
    if !req.perms.view {
      return Forbidden(ViewAction);
    }
    var range := ResolveRange(req.fromArg, req.toArg, today, config.weeksPrior, config.weeksAfter);
    // the grid shows the resolved range, or the edited one after an update
    var from, to := range.from, range.to;
    var message := "";
    var perms := req.perms;
    if req.update.Some? {
      if !perms.updateOwn {
        return Forbidden(UpdateOwnAction);
      }
      var u := req.update.value;
      from, to := u.origFrom, u.origTo;
      var batch := BuildBatch(u.form, from, to, people, req.authname, perms.updateOthers, perms.updateOwn);
      EditBatchCells(u.form, from, to, people, req.authname, perms.updateOthers, perms.updateOwn);
      var ok, inserts, updates := UpdateTimetable(store, batch, pid, from, to);
      if !ok {
        return Rollback;
      }
      message := UpdatedMessage;
    }
    var days := ReadPage(store, from, to, people, pid, config.workDays);
    resp := Page(message, range.warning, req.authname, perms.updateOwn, perms.updateOthers,
                 perms.updateOwn || perms.updateOthers, today, range.from, range.to, people, days);
  }

  /** Submitting a committed batch a second time, for a range that holds
      all of its dates, commits again without a single INSERT or UPDATE and
      leaves the store as the first submission left it. */
  method Resubmit(store: Store, batch: seq<Edit>, pid: int, from: Date, to: Date)
    returns (first: bool, second: bool, inserts: seq<Entry>, updates: seq<Entry>)
    requires store.Valid()
    requires DistinctEditCells(batch)
    requires forall e :: e in batch ==> from <= e.date <= to
    modifies store
    ensures first ==> Written(old(store.rows), store.rows, pid, batch)
    ensures first ==> second && inserts == [] && updates == []
    ensures !first ==> store.rows == old(store.rows)
  {
    var i1, u1;
    first, i1, u1 := UpdateTimetable(store, batch, pid, from, to);
    if first {
      second, inserts, updates := UpdateTimetable(store, batch, pid, from, to);
    } else {
      second, inserts, updates := false, i1, u1;
    }
  }
}
