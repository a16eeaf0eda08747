/** The timetable grid and the edit batch of a request.

    The grid maps every date of the shown range to the availability of
    each project member that day: the work-week default, overridden by the
    stored row when there is one. The edit batch is the list of
    `(date, user, value)` triples that a submitted grid form stands for. */
module Timetable {
  import opened Dates
  import opened Decimals
  import opened Wrappers
  import opened Store
  import opened Lists

  /** One day of the grid: username to availability in hundredths. */
  type Day = map<string, int>

  /** The grid: date to day. */
  type Grid = map<Date, Day>

  /** The availability a member has on a date without a stored row:
      `Decimal(True)` on a work day, `Decimal(False)` otherwise. */
  function DefaultAvailability(d: Date, workDays: seq<int>): (a: int)
    ensures InScale(a)
    ensures a == 100 <==> Weekday(d) in workDays
  {
    if Weekday(d) in workDays then 100 else 0
  }

  /** The grid has a day for each date `from` to `to`, both included, and
      for no other date. */
  ghost predicate CoversExactly(timetable: Grid, from: Date, to: Date) {
    forall d :: d in timetable <==> from <= d <= to
  }

  /** The first loop of `get_timetable`: one copy of the full or the empty
      day for every date of the range, by the date's weekday. */
  method DefaultTimetable(from: Date, to: Date, people: seq<string>, workDays: seq<int>)
    returns (timetable: Grid)
    ensures CoversExactly(timetable, from, to)
    ensures forall d :: d in timetable ==> timetable[d].Keys == set p | p in people
    ensures forall d, p :: d in timetable && p in people ==>
              timetable[d][p] == DefaultAvailability(d, workDays)
  {
    var emptyDay := map p | p in people :: 0;
    var fullDay := map p | p in people :: 100;
    timetable := map[];
    var current := from;
    while current <= to
      invariant current == from || from < current <= to + 1
      invariant forall d :: d in timetable <==> from <= d < current
      invariant forall d :: d in timetable ==> timetable[d].Keys == set p | p in people
      invariant forall d, p :: d in timetable && p in people ==>
                  timetable[d][p] == DefaultAvailability(d, workDays)
    {
      if Weekday(current) in workDays {
        timetable := timetable[current := fullDay];
      } else {
        timetable := timetable[current := emptyDay];
      }
      current := current + 1;
    }
  }

  /** `get_timetable`: the default grid for the range, with every stored
      row of project `pid` in the range written over its cell. A stored
      row for a user outside `people` adds that user to its day. */
  method GetTimetable(store: Store, from: Date, to: Date, people: seq<string>, pid: int,
                      workDays: seq<int>) returns (timetable: Grid)
    ensures CoversExactly(timetable, from, to)
    ensures forall d, u :: d in timetable ==>
              (u in timetable[d] <==> u in people || Key(pid, d, u) in store.rows)
    ensures forall d, u :: d in timetable && Key(pid, d, u) in store.rows ==>
              u in timetable[d] && timetable[d][u] == store.rows[Key(pid, d, u)]
    ensures forall d, u :: d in timetable && u in people && Key(pid, d, u) !in store.rows ==>
              timetable[d][u] == DefaultAvailability(d, workDays)
  {
    var rows := store.Select(pid, from, to, None);
    timetable := DefaultTimetable(from, to, people, workDays);
    ghost var seen: set<Cell> := {};
    for i := 0 to |rows|
      invariant CoversExactly(timetable, from, to)
      invariant forall j :: 0 <= j < i ==> CellOf(rows[j]) in seen
      invariant forall d, u :: Cell(d, u) in seen ==>
                  && from <= d <= to && Key(pid, d, u) in store.rows
                  && u in timetable[d] && timetable[d][u] == store.rows[Key(pid, d, u)]
      invariant forall d, u :: d in timetable ==> (u in timetable[d] <==> u in people || Cell(d, u) in seen)
      invariant forall d, u :: d in timetable && u in people && Cell(d, u) !in seen ==>
                  timetable[d][u] == DefaultAvailability(d, workDays)
    {
      var row := rows[i];
      assert row in rows;
      timetable := timetable[row.date := timetable[row.date][row.user := row.avail]];
      seen := seen + {CellOf(row)};
    }
    forall d, u | d in timetable && Key(pid, d, u) in store.rows
      ensures Cell(d, u) in seen
    {
      assert Matches(Key(pid, d, u), pid, from, to, None);
      var j :| 0 <= j < |rows| && rows[j] == Entry(d, u, store.rows[Key(pid, d, u)]);
    }
  }

  /** One `(date, user, value)` triple of a submitted form, before
      quantization. */
  datatype Edit = Edit(date: Date, user: string, value: Dec)

  function EditCell(e: Edit): Cell {
    Cell(e.date, e.user)
  }

  /** No two edits of `s` are for the same cell. */
  predicate DistinctEditCells(s: seq<Edit>) {
    forall i, j :: 0 <= i < j < |s| ==> EditCell(s[i]) != EditCell(s[j])
  }

  /** `Decimal(req.args.get('<date>.<user>', False))`: the submitted field
      for the cell, or 0 when the form has no such field. */
  function Submitted(form: map<Cell, Dec>, d: Date, u: string): (v: Dec)
    ensures Cell(d, u) in form ==> v == form[Cell(d, u)]
    ensures Cell(d, u) !in form ==> v == Dec(0, 0)
  {
    if Cell(d, u) in form then form[Cell(d, u)] else Dec(0, 0)
  }

  /** The edits of one date, for `users` in order. */
  function DayEdits(form: map<Cell, Dec>, d: Date, users: seq<string>): seq<Edit>
    decreases |users|
  {
    if users == [] then []
    else
      var u := users[|users| - 1];
      DayEdits(form, d, users[..|users| - 1]) + [Edit(d, u, Submitted(form, d, u))]
  }

  /** The edits of the dates `from` to `to`, date by date. */
  function RangeEdits(form: map<Cell, Dec>, from: Date, to: Date, users: seq<string>): seq<Edit>
    decreases if to < from then 0 else to - from + 1
  {
    if to < from then []
    else RangeEdits(form, from, to - 1, users) + DayEdits(form, to, users)
  }

  lemma {:induction false} DayEditsLength(form: map<Cell, Dec>, d: Date, users: seq<string>)
    ensures |DayEdits(form, d, users)| == |users|
    decreases |users|
  {
    if users != [] {
      DayEditsLength(form, d, users[..|users| - 1]);
    }
  }

  lemma {:induction false} DayEditsContents(form: map<Cell, Dec>, d: Date, users: seq<string>)
    ensures forall e :: e in DayEdits(form, d, users) <==>
              e.date == d && e.user in users && e.value == Submitted(form, d, e.user)
    ensures NoDuplicates(users) ==> DistinctEditCells(DayEdits(form, d, users))
    decreases |users|
  {
    if users != [] {
      var init, u := users[..|users| - 1], users[|users| - 1];
      assert users == init + [u];
      DayEditsContents(form, d, init);
      var r := DayEdits(form, d, users);
      if NoDuplicates(users) {
        assert NoDuplicates(init);
        forall i | 0 <= i < |r| - 1
          ensures EditCell(r[i]) != EditCell(r[|r| - 1])
        {
          assert r[i] in DayEdits(form, d, init);
        }
      }
    }
  }

  /** The batch has one edit per date of the range and user. */
  lemma {:induction false} RangeEditsLength(form: map<Cell, Dec>, from: Date, to: Date, users: seq<string>)
    ensures |RangeEdits(form, from, to, users)| == if to < from then 0 else (to - from + 1) * |users|
    decreases if to < from then 0 else to - from + 1
  {
    if to >= from {
      RangeEditsLength(form, from, to - 1, users);
      DayEditsLength(form, to, users);
      var n, m := to - from, |users|;
      var a := RangeEdits(form, from, to - 1, users);
      assert |a| == n * m by {
        if n == 0 {
          assert |a| == 0;
        }
      }
      assert (n + 1) * m == n * m + m;
      assert |RangeEdits(form, from, to, users)| == |a| + m;
    }
  }

  /** The edits of the batch are exactly those for a date of the range and
      a user of the list, each holding that cell's submitted value; with
      distinct users, no two edits are for the same cell. */
  lemma {:induction false} RangeEditsContents(form: map<Cell, Dec>, from: Date, to: Date, users: seq<string>)
    ensures forall e :: e in RangeEdits(form, from, to, users) <==>
              from <= e.date <= to && e.user in users && e.value == Submitted(form, e.date, e.user)
    ensures NoDuplicates(users) ==> DistinctEditCells(RangeEdits(form, from, to, users))
    decreases if to < from then 0 else to - from + 1
  {
    if to >= from {
      RangeEditsContents(form, from, to - 1, users);
      DayEditsContents(form, to, users);
      var a, b := RangeEdits(form, from, to - 1, users), DayEdits(form, to, users);
      var r := a + b;
      assert r == RangeEdits(form, from, to, users);
      if NoDuplicates(users) {
        forall i, j | 0 <= i < j < |r|
          ensures EditCell(r[i]) != EditCell(r[j])
        {
          if j >= |a| && i < |a| {
            assert r[i] in a && r[j] in b;
          } else if i >= |a| {
            assert r[i] == b[i - |a|] && r[j] == b[j - |a|];
          }
        }
      }
    }
  }

  /** The batch a submitted form stands for: for every date of the edited
      range, an edit for every project member when the requester may
      update others, else for the requester alone when they may update
      their own availability, else none. */
  function EditBatch(form: map<Cell, Dec>, from: Date, to: Date, people: seq<string>, authname: string,
                     canUpdateOthers: bool, canUpdateOwn: bool): (batch: seq<Edit>)
    ensures forall e :: e in batch <==>
              && from <= e.date <= to
              && e.value == Submitted(form, e.date, e.user)
              && if canUpdateOthers then e.user in people else canUpdateOwn && e.user == authname
  {
    RangeEditsContents(form, from, to, people);
    RangeEditsContents(form, from, to, [authname]);
    if canUpdateOthers then RangeEdits(form, from, to, people)
    else if canUpdateOwn then RangeEdits(form, from, to, [authname])
    else []
  }

  /** With distinct project members the batch has one edit per cell, and
      each of its edits is for a date of the range. */
  lemma EditBatchCells(form: map<Cell, Dec>, from: Date, to: Date, people: seq<string>, authname: string,
                       canUpdateOthers: bool, canUpdateOwn: bool)
    requires NoDuplicates(people)
    ensures DistinctEditCells(EditBatch(form, from, to, people, authname, canUpdateOthers, canUpdateOwn))
    ensures forall e :: e in EditBatch(form, from, to, people, authname, canUpdateOthers, canUpdateOwn) ==>
              from <= e.date <= to
  {
    RangeEditsContents(form, from, to, people);
    RangeEditsContents(form, from, to, [authname]);
  }

  /** The batch-building loop of `process_request`. */
  method BuildBatch(form: map<Cell, Dec>, from: Date, to: Date, people: seq<string>, authname: string,
                    canUpdateOthers: bool, canUpdateOwn: bool) returns (tuples: seq<Edit>)
    ensures tuples == EditBatch(form, from, to, people, authname, canUpdateOthers, canUpdateOwn)
  {
    tuples := [];
    var current := from;
    while current <= to
      invariant current == from || from < current <= to + 1
      invariant tuples == if canUpdateOthers then RangeEdits(form, from, current - 1, people)
                          else if canUpdateOwn then RangeEdits(form, from, current - 1, [authname])
                          else []
    {
      if canUpdateOthers {
        for j := 0 to |people|
          invariant tuples == RangeEdits(form, from, current - 1, people) + DayEdits(form, current, people[..j])
        {
          assert people[..j + 1][..j] == people[..j];
          tuples := tuples + [Edit(current, people[j], Submitted(form, current, people[j]))];
        }
        assert people[..|people|] == people;
      } else if canUpdateOwn {
        assert DayEdits(form, current, [authname]) == [Edit(current, authname, Submitted(form, current, authname))];
        tuples := tuples + [Edit(current, authname, Submitted(form, current, authname))];
      }
      current := current + 1;
    }
  }
}
