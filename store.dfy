/** The `team_availability` table as an in-memory store.

    The table's primary key is (username, project_id, ondate), so the table
    is a map from that key to the availability in hundredths; its check
    constraint keeps every availability between 0 and 1, that is between 0
    and 100 hundredths. The two SELECT statements of the engine and its
    one write transaction are the store's operations. */
module Store {
  import opened Dates
  import opened Wrappers

  /** The primary key of a stored row. */
  datatype Key = Key(project: int, date: Date, user: string)

  /** A (date, username) pair: a cell of the timetable grid. */
  datatype Cell = Cell(date: Date, user: string)

  /** A `(ondate, username, availability)` triple: a row as the SELECTs
      return it, or an edit after quantization. */
  datatype Entry = Entry(date: Date, user: string, avail: int)

  function CellOf(e: Entry): Cell {
    Cell(e.date, e.user)
  }

  function KeyOf(pid: int, e: Entry): Key {
    Key(pid, e.date, e.user)
  }

  /** `[(t[0], t[1]) for t in s]`. */
  function Cells(s: seq<Entry>): (c: seq<Cell>)
    ensures |c| == |s|
    ensures forall i :: 0 <= i < |s| ==> c[i] == CellOf(s[i])
  {
    seq(|s|, i requires 0 <= i < |s| => CellOf(s[i]))
  }

  /** No two entries of `s` are for the same cell. */
  predicate DistinctCells(s: seq<Entry>) {
    forall i, j :: 0 <= i < j < |s| ==> CellOf(s[i]) != CellOf(s[j])
  }

  /** The table's check constraint `0 <= availability <= 1`. */
  predicate InScale(v: int) {
    0 <= v <= 100
  }

  /** The WHERE clause of both SELECTs: the project, the inclusive date
      range and, when a user list is given, `username IN users`. */
  predicate Matches(k: Key, pid: int, from: Date, to: Date, users: Option<seq<string>>) {
    && k.project == pid
    && from <= k.date <= to
    && (users.Some? ==> k.user in users.value)
  }

  /** The keys that `inserts` adds under project `pid`. */
  function KeysOf(pid: int, s: seq<Entry>): set<Key> {
    set e | e in s :: KeyOf(pid, e)
  }

  /** The table after the rows of `s` are inserted one after another. */
  function InsertAll(t: map<Key, int>, pid: int, s: seq<Entry>): (r: map<Key, int>)
    ensures r.Keys == t.Keys + KeysOf(pid, s)
    ensures forall k :: k in t && k !in KeysOf(pid, s) ==> r[k] == t[k]
    decreases |s|
  {
    if s == [] then t
    else
      var init, last := s[..|s| - 1], s[|s| - 1];
      assert s == init + [last];
      InsertAll(t, pid, init)[KeyOf(pid, last) := last.avail]
  }

  /** The table after one `UPDATE ... WHERE project_id, ondate, username`
      per row of `s`: a row whose key is in the table gets the new
      availability; a row whose key is absent changes nothing. */
  function UpdateAll(t: map<Key, int>, pid: int, s: seq<Entry>): (r: map<Key, int>)
    ensures r.Keys == t.Keys
    ensures forall k :: k in t && k !in KeysOf(pid, s) ==> r[k] == t[k]
    decreases |s|
  {
    if s == [] then t
    else
      var init, last := s[..|s| - 1], s[|s| - 1];
      assert s == init + [last];
      var u := UpdateAll(t, pid, init);
      if KeyOf(pid, last) in u then u[KeyOf(pid, last) := last.avail] else u
  }

  /** With one row per cell, the last row of a batch has a key no earlier
      row has. */
  lemma DistinctInit(pid: int, s: seq<Entry>)
    requires s != [] && DistinctCells(s)
    ensures DistinctCells(s[..|s| - 1])
    ensures KeyOf(pid, s[|s| - 1]) !in KeysOf(pid, s[..|s| - 1])
  {
  }

  /** With one row per cell, every inserted key holds its row's value. */
  lemma {:induction false} InsertAllValues(t: map<Key, int>, pid: int, s: seq<Entry>)
    requires DistinctCells(s)
    ensures forall e :: e in s ==> InsertAll(t, pid, s)[KeyOf(pid, e)] == e.avail
    decreases |s|
  {
    if s != [] {
      var init, last := s[..|s| - 1], s[|s| - 1];
      assert s == init + [last];
      DistinctInit(pid, s);
      InsertAllValues(t, pid, init);
    }
  }

  /** With one row per cell, every UPDATE of a stored key sets its row's
      value. */
  lemma {:induction false} UpdateAllValues(t: map<Key, int>, pid: int, s: seq<Entry>)
    requires DistinctCells(s)
    ensures forall e :: e in s && KeyOf(pid, e) in t ==> UpdateAll(t, pid, s)[KeyOf(pid, e)] == e.avail
    decreases |s|
  {
    if s != [] {
      var init, last := s[..|s| - 1], s[|s| - 1];
      assert s == init + [last];
      DistinctInit(pid, s);
      UpdateAllValues(t, pid, init);
    }
  }

  /** The multi-row INSERT succeeds when no row breaks the primary key
      (against the table or against another inserted row) and every value
      meets the check constraint. */
  predicate InsertsAdmissible(t: map<Key, int>, pid: int, s: seq<Entry>) {
    && DistinctCells(s)
    && forall e :: e in s ==> KeyOf(pid, e) !in t && InScale(e.avail)
  }

  /** The UPDATEs succeed when every row they change meets the check
      constraint. */
  predicate UpdatesAdmissible(t: map<Key, int>, pid: int, s: seq<Entry>) {
    forall e :: e in s && KeyOf(pid, e) in t ==> InScale(e.avail)
  }

  class Store {
    /** The rows of `team_availability`, by primary key. */
    var rows: map<Key, int>

    /** The table's check constraint holds for every row. */
    ghost predicate Valid()
      reads this
    {
      forall k :: k in rows ==> InScale(rows[k])
    }

    constructor ()
      ensures Valid() && rows == map[]
    {
      rows := map[];
    }

    /** `SELECT ondate, username, availability FROM team_availability WHERE
        ...`: every matching row exactly once, and nothing else. */
    method Select(pid: int, from: Date, to: Date, users: Option<seq<string>>) returns (result: seq<Entry>)
      ensures DistinctCells(result)
      ensures forall e :: e in result ==>
                && KeyOf(pid, e) in rows
                && Matches(KeyOf(pid, e), pid, from, to, users)
                && rows[KeyOf(pid, e)] == e.avail
      ensures forall k :: k in rows && Matches(k, pid, from, to, users) ==>
                Entry(k.date, k.user, rows[k]) in result
    {
      result := [];
      var todo := rows.Keys;
      while todo != {}
        invariant todo <= rows.Keys
        invariant DistinctCells(result)
        invariant forall e :: e in result ==>
                    && KeyOf(pid, e) in rows
                    && KeyOf(pid, e) !in todo
                    && Matches(KeyOf(pid, e), pid, from, to, users)
                    && rows[KeyOf(pid, e)] == e.avail
        invariant forall k :: k in rows && k !in todo && Matches(k, pid, from, to, users) ==>
                    Entry(k.date, k.user, rows[k]) in result
        decreases |todo|
      {
        var k :| k in todo;
        if Matches(k, pid, from, to, users) {
          var e := Entry(k.date, k.user, rows[k]);
          assert KeyOf(pid, e) == k;
          forall i | 0 <= i < |result|
            ensures CellOf(result[i]) != CellOf(e)
          {
            assert result[i] in result;
          }
          result := result + [e];
        }
        todo := todo - {k};
      }
    }

    /** The write transaction: the INSERT of `inserts`, then the UPDATE of
        each row of `updates`. A primary-key or check-constraint violation
        rolls the whole transaction back. */
    method Apply(pid: int, inserts: seq<Entry>, updates: seq<Entry>) returns (ok: bool)
      requires Valid()
      modifies this
      ensures Valid()
      ensures ok <==> InsertsAdmissible(old(rows), pid, inserts)
                      && UpdatesAdmissible(InsertAll(old(rows), pid, inserts), pid, updates)
      ensures rows == if ok then UpdateAll(InsertAll(old(rows), pid, inserts), pid, updates)
                      else old(rows)
    {
      var inserted, afterInserts := InsertRows(rows, pid, inserts);
      if !inserted {
        return false;
      }
      var updated, afterUpdates := UpdateRows(afterInserts, pid, updates);
      if !updated {
        return false;
      }
      rows := afterUpdates;
      ok := true;
    }
  }

  /** One more row keeps the INSERT admissible exactly when its key is
      neither in the table nor among the rows before it, and its value is
      in scale. */
  lemma InsertsAdmissibleSnoc(t: map<Key, int>, pid: int, s: seq<Entry>, e: Entry)
    requires InsertsAdmissible(t, pid, s)
    ensures InsertsAdmissible(t, pid, s + [e]) <==>
              KeyOf(pid, e) !in InsertAll(t, pid, s) && InScale(e.avail)
  {
    var s' := s + [e];
    if KeyOf(pid, e) in InsertAll(t, pid, s) && KeyOf(pid, e) !in t {
      assert KeyOf(pid, e) in KeysOf(pid, s);
      var d :| d in s && KeyOf(pid, d) == KeyOf(pid, e);
      var j :| 0 <= j < |s| && s[j] == d;
      assert s'[j] == d && s'[|s|] == e;
      assert !DistinctCells(s');
    }
    if KeyOf(pid, e) !in InsertAll(t, pid, s) && InScale(e.avail) {
      forall j | 0 <= j < |s|
        ensures CellOf(s[j]) != CellOf(e)
      {
        assert s[j] in s;
        assert KeyOf(pid, s[j]) in KeysOf(pid, s);
      }
      assert DistinctCells(s');
    }
  }

  /** The INSERT of one more row adds that row to the table. */
  lemma InsertAllSnoc(t: map<Key, int>, pid: int, s: seq<Entry>, e: Entry)
    ensures InsertAll(t, pid, s + [e]) == InsertAll(t, pid, s)[KeyOf(pid, e) := e.avail]
  {
    assert (s + [e])[..|s|] == s;
  }

  /** One more UPDATE changes that row's key when it is in the table. */
  lemma UpdateAllSnoc(t: map<Key, int>, pid: int, s: seq<Entry>, e: Entry)
    ensures UpdateAll(t, pid, s + [e]) ==
              var u := UpdateAll(t, pid, s);
              if KeyOf(pid, e) in u then u[KeyOf(pid, e) := e.avail] else u
  {
    assert (s + [e])[..|s|] == s;
  }

  /** An admissible INSERT into a table that meets the check constraint
      leaves a table that meets it. */
  lemma InsertAllInScale(t: map<Key, int>, pid: int, s: seq<Entry>)
    requires forall k :: k in t ==> InScale(t[k])
    requires InsertsAdmissible(t, pid, s)
    ensures forall k :: k in InsertAll(t, pid, s) ==> InScale(InsertAll(t, pid, s)[k])
  {
    var r := InsertAll(t, pid, s);
    InsertAllValues(t, pid, s);
    forall k | k in r
      ensures InScale(r[k])
    {
      if k in KeysOf(pid, s) {
        var e :| e in s && KeyOf(pid, e) == k;
      }
    }
  }

  /** Admissible UPDATEs of a table that meets the check constraint leave a
      table that meets it. */
  lemma UpdateAllInScale(t: map<Key, int>, pid: int, s: seq<Entry>)
    requires forall k :: k in t ==> InScale(t[k])
    requires UpdatesAdmissible(t, pid, s)
    ensures forall k :: k in UpdateAll(t, pid, s) ==> InScale(UpdateAll(t, pid, s)[k])
    decreases |s|
  {
    if s != [] {
      var init, last := s[..|s| - 1], s[|s| - 1];
      assert s == init + [last];
      assert UpdatesAdmissible(t, pid, init) by {
        forall e | e in init && KeyOf(pid, e) in t
          ensures InScale(e.avail)
        {
          assert e in s;
        }
      }
      UpdateAllInScale(t, pid, init);
      UpdateAllSnoc(t, pid, init, last);
    }
  }

  /** The multi-row INSERT inside the write transaction, on a working copy
      `t` of the table: `ok` is false when a row violates the primary key
      or the check constraint, and then `r` is to be discarded. */
  method InsertRows(t: map<Key, int>, pid: int, s: seq<Entry>) returns (ok: bool, r: map<Key, int>)
    requires forall k :: k in t ==> InScale(t[k])
    ensures ok <==> InsertsAdmissible(t, pid, s)
    ensures ok ==> r == InsertAll(t, pid, s)
    ensures ok ==> forall k :: k in r ==> InScale(r[k])
  {
    r := t;
    for i := 0 to |s|
      invariant r == InsertAll(t, pid, s[..i])
      invariant InsertsAdmissible(t, pid, s[..i])
    {
      var e := s[i];
      assert s[..i + 1] == s[..i] + [e];
      InsertsAdmissibleSnoc(t, pid, s[..i], e);
      InsertAllSnoc(t, pid, s[..i], e);
      if KeyOf(pid, e) in r || !InScale(e.avail) {
        return false, r;
      }
      r := r[KeyOf(pid, e) := e.avail];
    }
    assert s[..|s|] == s;
    InsertAllInScale(t, pid, s);
    ok := true;
  }

  /** The UPDATE statements inside the write transaction, on a working copy
      `t` of the table: `ok` is false when a changed row would break the
      check constraint, and then `r` is to be discarded. */
  method UpdateRows(t: map<Key, int>, pid: int, s: seq<Entry>) returns (ok: bool, r: map<Key, int>)
    requires forall k :: k in t ==> InScale(t[k])
    ensures ok <==> UpdatesAdmissible(t, pid, s)
    ensures ok ==> r == UpdateAll(t, pid, s)
    ensures ok ==> forall k :: k in r ==> InScale(r[k])
  {
    r := t;
    for i := 0 to |s|
      invariant r == UpdateAll(t, pid, s[..i])
      invariant UpdatesAdmissible(t, pid, s[..i])
    {
      var e := s[i];
      assert s[..i + 1] == s[..i] + [e];
      UpdateAllSnoc(t, pid, s[..i], e);
      if KeyOf(pid, e) in r {
        if !InScale(e.avail) {
          assert e in s;
          return false, r;
        }
        r := r[KeyOf(pid, e) := e.avail];
      }
    }
    assert s[..|s|] == s;
    UpdateAllInScale(t, pid, s);
    ok := true;
  }
}
