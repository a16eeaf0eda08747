/** `update_timetable`: reconciling a submitted edit batch with the store.

    The batch is quantized to hundredths, the stored rows of its users in
    the edited range (the collision set) are fetched, each stored row is
    matched against the batch, and what is left is written in one
    transaction: new cells are inserted, changed cells updated, and cells
    that already hold the submitted value are left alone. */
module Reconcile {
  import opened Dates
  import opened Decimals
  import opened Wrappers
  import opened Lists
  import opened Store
  import opened Timetable

  /** An edit after quantization. */
  function Quantized(e: Edit): Entry {
    Entry(e.date, e.user, Quantize(e.value))
  }

  /** The first loop of `update_timetable`: every value quantized to two
      places; dates, users and order are kept. */
  method QuantizeBatch(batch: seq<Edit>) returns (tuples: seq<Entry>)
    ensures |tuples| == |batch|
    ensures forall i :: 0 <= i < |batch| ==>
              tuples[i] == Quantized(batch[i])
  {
    tuples := [];
    for idx := 0 to |batch|
      invariant |tuples| == idx
      invariant forall i :: 0 <= i < idx ==>
                  tuples[i] == Quantized(batch[i])
    {
      var row := batch[idx];
      tuples := tuples + [Entry(row.date, row.user, Quantize(row.value))];
    }
  }

  /** The usernames of a batch, one per entry, in batch order. */
  function Names(s: seq<Entry>): (names: seq<string>)
    ensures |names| == |s|
    ensures forall i :: 0 <= i < |s| ==> names[i] == s[i].user
  {
    seq(|s|, i requires 0 <= i < |s| => s[i].user)
  }

  /** The second loop of `update_timetable`: the distinct usernames of the
      batch, each once, in the order of their first occurrence. */
  method CollectUsers(tuples: seq<Entry>) returns (users: seq<string>)
    ensures NoDuplicates(users)
    ensures forall u :: u in users <==> u in Names(tuples)
    ensures forall a, b :: 0 <= a < b < |users| ==>
              IndexOf(Names(tuples), users[a]) < IndexOf(Names(tuples), users[b])
  {
    ghost var names := Names(tuples);
    users := [];
    for i := 0 to |tuples|
      invariant NoDuplicates(users)
      invariant forall u :: u in users <==> u in names[..i]
      invariant forall a :: 0 <= a < |users| ==> users[a] in names
      invariant forall a :: 0 <= a < |users| ==> IndexOf(names, users[a]) < i
      invariant forall a, b :: 0 <= a < b < |users| ==>
                  IndexOf(names, users[a]) < IndexOf(names, users[b])
    {
      var user := tuples[i].user;
      assert names[..i + 1] == names[..i] + [user];
      if user !in users {
        IndexOfUnique(names, user, i);
        users := users + [user];
      }
    }
    assert names[..|tuples|] == names;
  }

  /** `keys` is `[(t[0], t[1]) for t in tuples]`. */
  predicate Aligned(tuples: seq<Entry>, keys: seq<Cell>) {
    && |keys| == |tuples|
    && forall j :: 0 <= j < |tuples| ==> keys[j] == CellOf(tuples[j])
  }

  /** The state of the matching loop after the stored rows `done`: every
      batch entry whose cell a stored row has met is out of `tuples`, and in
      `updates` exactly when no stored row equals it; every other entry is
      still in `tuples` and not in `updates`. */
  ghost predicate Classified(batch: seq<Entry>, done: seq<Entry>, tuples: seq<Entry>, updates: seq<Entry>) {
    && DistinctCells(tuples) && DistinctCells(updates)
    && (forall t :: t in tuples ==> t in batch)
    && (forall t :: t in updates ==> t in batch)
    && forall t :: t in batch ==>
         if CellOf(t) in Cells(done)
         then t !in tuples && (t in updates <==> t !in done)
         else t in tuples && t !in updates
  }

  /** Taking entry `k` out of `tuples` keeps them distinct and drops only
      that entry. */
  lemma RemoveAtDistinct(tuples: seq<Entry>, k: nat)
    requires k < |tuples| && DistinctCells(tuples)
    ensures DistinctCells(RemoveAt(tuples, k))
    ensures forall t :: t in RemoveAt(tuples, k) <==> t in tuples && CellOf(t) != CellOf(tuples[k])
  {
    var r := RemoveAt(tuples, k);
    assert tuples == tuples[..k] + [tuples[k]] + tuples[k + 1..];
    assert r == tuples[..k] + tuples[k + 1..];
    forall t | t in tuples && CellOf(t) == CellOf(tuples[k])
      ensures t == tuples[k]
    {
      var a :| 0 <= a < |tuples| && tuples[a] == t;
    }
    forall t | t in r
      ensures CellOf(t) != CellOf(tuples[k])
    {
      var a :| 0 <= a < |r| && r[a] == t;
      if a >= k {
        assert r[a] == tuples[a + 1];
      }
    }
  }

  /** Cells of a sequence grown by one entry. */
  lemma CellsSnoc(s: seq<Entry>, e: Entry)
    ensures Cells(s + [e]) == Cells(s) + [CellOf(e)]
  {
  }

  /** An entry of the batch has its cell among the batch's cells. */
  lemma InBatchCell(batch: seq<Entry>, t: Entry)
    requires t in batch
    ensures CellOf(t) in Cells(batch)
  {
    var a :| 0 <= a < |batch| && batch[a] == t;
    assert Cells(batch)[a] == CellOf(t);
  }

  /** A stored row equal to batch entry `k` of `tuples` takes it out. */
  lemma {:induction false} DropStep(batch: seq<Entry>, done: seq<Entry>, tuples: seq<Entry>,
                                    updates: seq<Entry>, k: nat)
    requires DistinctCells(batch)
    requires Classified(batch, done, tuples, updates)
    requires k < |tuples| && CellOf(tuples[k]) !in Cells(done)
    ensures Classified(batch, done + [tuples[k]], RemoveAt(tuples, k), updates)
    ensures CellOf(tuples[k]) in Cells(batch)
  {
    var row := tuples[k];
    InBatchCell(batch, row);
    RemoveAtDistinct(tuples, k);
    CellsSnoc(done, row);
    forall t | t in batch
      ensures if CellOf(t) in Cells(done + [row])
              then t !in RemoveAt(tuples, k) && (t in updates <==> t !in done + [row])
              else t in RemoveAt(tuples, k) && t !in updates
    {
      if CellOf(t) == CellOf(row) {
        assert t in tuples;
        var a :| 0 <= a < |tuples| && tuples[a] == t;
      }
    }
  }

  /** A stored row whose cell holds batch entry `k` of `tuples` with a
      different value moves that entry to `updates`. */
  lemma {:induction false} UpdateStep(batch: seq<Entry>, done: seq<Entry>, tuples: seq<Entry>,
                                      updates: seq<Entry>, k: nat, row: Entry)
    requires DistinctCells(batch)
    requires Classified(batch, done, tuples, updates)
    requires k < |tuples| && CellOf(tuples[k]) == CellOf(row) && row !in tuples
    requires CellOf(row) !in Cells(done)
    ensures Classified(batch, done + [row], RemoveAt(tuples, k), updates + [tuples[k]])
    ensures CellOf(row) in Cells(batch)
  {
    var t0 := tuples[k];
    InBatchCell(batch, t0);
    RemoveAtDistinct(tuples, k);
    CellsSnoc(done, row);
    var u := updates + [t0];
    forall t | t in updates
      ensures CellOf(t) != CellOf(t0)
    {
    }
    assert DistinctCells(u) by {
      forall i, j | 0 <= i < j < |u|
        ensures CellOf(u[i]) != CellOf(u[j])
      {
        if j == |updates| {
          assert u[i] in updates;
        }
      }
    }
    forall t | t in batch
      ensures if CellOf(t) in Cells(done + [row])
              then t !in RemoveAt(tuples, k) && (t in u <==> t !in done + [row])
              else t in RemoveAt(tuples, k) && t !in u
    {
      if CellOf(t) == CellOf(row) {
        assert t in tuples;
        var a :| 0 <= a < |tuples| && tuples[a] == t;
        assert t == t0;
      }
    }
  }

  /** A stored row whose cell no batch entry left in `tuples` has is for a
      cell the batch does not hold at all. */
  lemma {:induction false} LogStep(batch: seq<Entry>, done: seq<Entry>, tuples: seq<Entry>,
                                   updates: seq<Entry>, row: Entry)
    requires Classified(batch, done, tuples, updates)
    requires CellOf(row) !in Cells(tuples) && CellOf(row) !in Cells(done)
    ensures CellOf(row) !in Cells(batch)
    ensures Classified(batch, done + [row], tuples, updates)
  {
    CellsSnoc(done, row);
  }

  /** A stored row's cell is not among the cells of the rows before it. */
  lemma FreshCell(collision: seq<Entry>, i: nat)
    requires DistinctCells(collision) && i < |collision|
    ensures CellOf(collision[i]) !in Cells(collision[..i])
  {
    forall j | 0 <= j < i
      ensures Cells(collision[..i])[j] != CellOf(collision[i])
    {
    }
  }

  /** With one entry per cell, `tuples.remove(row)` and `keys.remove(key)`
      take out the same position. */
  lemma AlignedIndex(tuples: seq<Entry>, keys: seq<Cell>, k: nat)
    requires Aligned(tuples, keys) && DistinctCells(tuples) && k < |tuples|
    ensures IndexOf(keys, CellOf(tuples[k])) == k
  {
    var key := CellOf(tuples[k]);
    assert key !in keys[..k] by {
      forall j | 0 <= j < k
        ensures keys[..k][j] != key
      {
      }
    }
    IndexOfUnique(keys, key, k);
  }

  /** Deleting the same position from both lists keeps them parallel. */
  lemma AlignedRemoveAt(tuples: seq<Entry>, keys: seq<Cell>, k: nat)
    requires Aligned(tuples, keys) && k < |tuples|
    ensures Aligned(RemoveAt(tuples, k), RemoveAt(keys, k))
  {
  }

  /** Once every stored row is matched, the state is the promised three-way
      split of the batch. */
  lemma ClassifiedAll(batch: seq<Entry>, collision: seq<Entry>, tuples: seq<Entry>, updates: seq<Entry>)
    requires Classified(batch, collision, tuples, updates)
    ensures forall t :: t in batch && t in collision ==> t !in tuples && t !in updates
    ensures forall t :: t in batch && t !in collision && CellOf(t) in Cells(collision) ==>
              t in updates && t !in tuples
    ensures forall t :: t in batch && CellOf(t) !in Cells(collision) ==>
              t in tuples && t !in updates
  {
    forall t | t in collision
      ensures CellOf(t) in Cells(collision)
    {
      var a :| 0 <= a < |collision| && collision[a] == t;
      assert Cells(collision)[a] == CellOf(t);
    }
  }

  /** The matching loop of `update_timetable`. `tuples` and `keys` are the
      parallel lists of the source: each stored row equal to a batch entry
      takes that entry out; each stored row whose cell has a different
      batch value moves that entry to `updates`; any other stored row is
      only logged (`inconsistent`). What stays in `tuples` is inserted.
      The lists stay parallel because the batch has one entry per cell. */
  method Diff(batch: seq<Entry>, collision: seq<Entry>)
    returns (inserts: seq<Entry>, updates: seq<Entry>, inconsistent: seq<Entry>)
    requires DistinctCells(batch)
    requires DistinctCells(collision)
    ensures forall t :: t in inserts ==> t in batch
    ensures forall t :: t in updates ==> t in batch
    ensures forall t :: t in batch && t in collision ==> t !in inserts && t !in updates
    ensures forall t :: t in batch && t !in collision && CellOf(t) in Cells(collision) ==>
              t in updates && t !in inserts
    ensures forall t :: t in batch && CellOf(t) !in Cells(collision) ==>
              t in inserts && t !in updates
    ensures DistinctCells(inserts) && DistinctCells(updates)
    ensures forall r :: r in inconsistent <==> r in collision && CellOf(r) !in Cells(batch)
  {
    var tuples := batch;
    var keys := Cells(batch);
    updates := [];
    inconsistent := [];
    for i := 0 to |collision|
      invariant Aligned(tuples, keys)
      invariant Classified(batch, collision[..i], tuples, updates)
      invariant forall r :: r in inconsistent <==> r in collision[..i] && CellOf(r) !in Cells(batch)
    {
      var row := collision[i];
      var key := CellOf(row);
      assert collision[..i + 1] == collision[..i] + [row];
      FreshCell(collision, i);
      if row in tuples {
        var k := IndexOf(tuples, row);
        AlignedIndex(tuples, keys, k);
        DropStep(batch, collision[..i], tuples, updates, k);
        AlignedRemoveAt(tuples, keys, k);
        tuples := RemoveAt(tuples, k);
        keys := RemoveAt(keys, k);
      } else if key in keys {
        var k := IndexOf(keys, key);
        UpdateStep(batch, collision[..i], tuples, updates, k, row);
        AlignedRemoveAt(tuples, keys, k);
        updates := updates + [tuples[k]];
        tuples := RemoveAt(tuples, k);
        keys := RemoveAt(keys, k);
      } else {
        assert Cells(tuples) == keys;
        LogStep(batch, collision[..i], tuples, updates, row);
        inconsistent := inconsistent + [row];
      }
    }
    assert collision[..|collision|] == collision;
    ClassifiedAll(batch, collision, tuples, updates);
    inserts := tuples;
  }

  /** The primary keys a batch writes under project `pid`. */
  function EditKeys(pid: int, batch: seq<Edit>): set<Key> {
    set e | e in batch :: Key(pid, e.date, e.user)
  }

  /** What the collision query tells about each quantized entry: the
      collision set holds the entry's cell exactly when the store has that
      key in the edited range, and holds the entry itself exactly when the
      stored value is also the same. */
  ghost predicate CollisionFacts(rows: map<Key, int>, pid: int, from: Date, to: Date,
                                 tuples: seq<Entry>, collision: seq<Entry>) {
    && (forall t :: t in tuples ==>
          (CellOf(t) in Cells(collision) <==> KeyOf(pid, t) in rows && from <= t.date <= to))
    && (forall t :: t in tuples ==>
          (t in collision <==>
             KeyOf(pid, t) in rows && from <= t.date <= to && rows[KeyOf(pid, t)] == t.avail))
  }

  /** The classification `Diff` promises, as one predicate. */
  ghost predicate Partition(tuples: seq<Entry>, collision: seq<Entry>, inserts: seq<Entry>, updates: seq<Entry>) {
    && DistinctCells(tuples)
    && (forall t :: t in inserts ==> t in tuples)
    && (forall t :: t in updates ==> t in tuples)
    && (forall t :: t in tuples && t in collision ==> t !in inserts && t !in updates)
    && (forall t :: t in tuples && t !in collision && CellOf(t) in Cells(collision) ==>
          t in updates && t !in inserts)
    && (forall t :: t in tuples && CellOf(t) !in Cells(collision) ==>
          t in inserts && t !in updates)
    && DistinctCells(inserts) && DistinctCells(updates)
  }

  /** Every entry's user is in the collision query's user list, so the
      query's result determines which entries it holds. */
  lemma CollisionCells(rows: map<Key, int>, pid: int, from: Date, to: Date, users: seq<string>,
                       tuples: seq<Entry>, collision: seq<Entry>)
    requires forall t :: t in tuples ==> t.user in users
    requires forall e :: e in collision ==>
               && KeyOf(pid, e) in rows
               && Matches(KeyOf(pid, e), pid, from, to, Some(users))
               && rows[KeyOf(pid, e)] == e.avail
    requires forall k :: k in rows && Matches(k, pid, from, to, Some(users)) ==>
               Entry(k.date, k.user, rows[k]) in collision
    ensures CollisionFacts(rows, pid, from, to, tuples, collision)
  {
    forall t | t in tuples
      ensures CellOf(t) in Cells(collision) <==> KeyOf(pid, t) in rows && from <= t.date <= to
    {
      if CellOf(t) in Cells(collision) {
        var a :| 0 <= a < |collision| && Cells(collision)[a] == CellOf(t);
        assert collision[a] in collision;
        assert KeyOf(pid, collision[a]) == KeyOf(pid, t);
      }
      if KeyOf(pid, t) in rows && from <= t.date <= to {
        var k := KeyOf(pid, t);
        assert Matches(k, pid, from, to, Some(users));
        var e := Entry(k.date, k.user, rows[k]);
        var a :| 0 <= a < |collision| && collision[a] == e;
        assert Cells(collision)[a] == CellOf(t);
      }
    }
  }

  /** The transaction succeeds exactly when every entry is in scale and no
      entry for a stored key lies outside the edited range. */
  lemma {:induction false} WriteSetAdmissible(rows: map<Key, int>, pid: int, from: Date, to: Date,
                                              tuples: seq<Entry>, collision: seq<Entry>,
                                              inserts: seq<Entry>, updates: seq<Entry>)
    requires forall k :: k in rows ==> InScale(rows[k])
    requires CollisionFacts(rows, pid, from, to, tuples, collision)
    requires Partition(tuples, collision, inserts, updates)
    ensures InsertsAdmissible(rows, pid, inserts) && UpdatesAdmissible(InsertAll(rows, pid, inserts), pid, updates) <==>
              (forall t :: t in tuples ==> InScale(t.avail))
                   && (forall t :: t in tuples && KeyOf(pid, t) in rows ==> from <= t.date <= to)
  {
    if (forall t :: t in tuples ==> InScale(t.avail))
       && (forall t :: t in tuples && KeyOf(pid, t) in rows ==> from <= t.date <= to) {
      assert InsertsAdmissible(rows, pid, inserts);
    }
    if InsertsAdmissible(rows, pid, inserts) && UpdatesAdmissible(InsertAll(rows, pid, inserts), pid, updates) {
      forall t | t in tuples
        ensures InScale(t.avail)
        ensures KeyOf(pid, t) in rows ==> from <= t.date <= to
      {
        if t in updates {
          assert KeyOf(pid, t) in rows;
        } else if t !in inserts {
          assert t in collision;
        }
      }
    }
  }

  /** After the transaction every entry's key holds the entry's value and
      every other key is as it was. */
  lemma {:induction false} WriteSetWritten(rows: map<Key, int>, pid: int, from: Date, to: Date,
                                           tuples: seq<Entry>, collision: seq<Entry>,
                                           inserts: seq<Entry>, updates: seq<Entry>)
    requires CollisionFacts(rows, pid, from, to, tuples, collision)
    requires Partition(tuples, collision, inserts, updates)
    ensures var written := UpdateAll(InsertAll(rows, pid, inserts), pid, updates);
            && written.Keys == rows.Keys + KeysOf(pid, tuples)
            && (forall t :: t in tuples ==> written[KeyOf(pid, t)] == t.avail)
            && (forall k :: k in rows && k !in KeysOf(pid, tuples) ==> written[k] == rows[k])
  {
    var written := UpdateAll(InsertAll(rows, pid, inserts), pid, updates);
    InsertAllValues(rows, pid, inserts);
    UpdateAllValues(InsertAll(rows, pid, inserts), pid, updates);
    forall t | t in tuples
      ensures written[KeyOf(pid, t)] == t.avail
    {
      var k := KeyOf(pid, t);
      if t in updates {
        assert k in rows;
      } else if t !in inserts {
        assert t in collision;
      }
    }
    assert KeysOf(pid, inserts) <= KeysOf(pid, tuples);
    assert KeysOf(pid, updates) <= KeysOf(pid, tuples);
    forall k | k in KeysOf(pid, tuples)
      ensures k in rows.Keys + KeysOf(pid, inserts)
    {
      var t :| t in tuples && KeyOf(pid, t) == k;
      if k !in rows {
        assert t in inserts;
      }
    }
  }

  /** The transaction writes nothing exactly when every entry is already
      stored, in the edited range, with its value. */
  lemma WriteSetEmpty(rows: map<Key, int>, pid: int, from: Date, to: Date,
                      tuples: seq<Entry>, collision: seq<Entry>,
                      inserts: seq<Entry>, updates: seq<Entry>)
    requires CollisionFacts(rows, pid, from, to, tuples, collision)
    requires Partition(tuples, collision, inserts, updates)
    ensures (inserts == [] && updates == []) <==>
              forall t :: t in tuples ==>
                from <= t.date <= to && KeyOf(pid, t) in rows && rows[KeyOf(pid, t)] == t.avail
  {
    if !(inserts == [] && updates == []) {
      var t := if inserts != [] then inserts[0] else updates[0];
      assert t in tuples && t !in collision;
    }
  }

  /** The quantized batch holds the same cells as the batch, so what holds
      of each entry holds of each quantized edit and back. */
  lemma QuantizedTerms(rows: map<Key, int>, written: map<Key, int>, pid: int, from: Date, to: Date,
                       batch: seq<Edit>, tuples: seq<Entry>)
    requires |tuples| == |batch|
    requires forall i :: 0 <= i < |batch| ==> tuples[i] == Quantized(batch[i])
    ensures KeysOf(pid, tuples) == EditKeys(pid, batch)
    ensures (forall t :: t in tuples ==> InScale(t.avail)) <==>
              (forall e :: e in batch ==> InScale(Quantize(e.value)))
    ensures (forall t :: t in tuples && KeyOf(pid, t) in rows ==> from <= t.date <= to) <==>
              (forall e :: e in batch && Key(pid, e.date, e.user) in rows ==> from <= e.date <= to)
    ensures (forall t :: t in tuples ==> KeyOf(pid, t) in written && written[KeyOf(pid, t)] == t.avail) ==>
              forall e :: e in batch ==>
                Key(pid, e.date, e.user) in written && written[Key(pid, e.date, e.user)] == Quantize(e.value)
    ensures (forall t :: t in tuples ==>
               from <= t.date <= to && KeyOf(pid, t) in rows && rows[KeyOf(pid, t)] == t.avail) <==>
            (forall e :: e in batch ==>
               && from <= e.date <= to
               && Key(pid, e.date, e.user) in rows
               && rows[Key(pid, e.date, e.user)] == Quantize(e.value))
  {
    forall e | e in batch
      ensures Quantized(e) in tuples
    {
      var i :| 0 <= i < |batch| && batch[i] == e;
    }
    forall t | t in tuples
      ensures exists e :: e in batch && t == Quantized(e)
    {
      var i :| 0 <= i < |tuples| && tuples[i] == t;
      assert batch[i] in batch;
    }
    forall k | k in EditKeys(pid, batch)
      ensures k in KeysOf(pid, tuples)
    {
      var e :| e in batch && k == Key(pid, e.date, e.user);
      assert KeyOf(pid, Quantized(e)) == k;
    }
  }

  /** Which edits the transaction issues: an edit is inserted exactly when
      its key is not stored within the edited range, and updated exactly
      when it is stored there with another value; nothing else is issued. */
  lemma WriteSetSplit(rows: map<Key, int>, pid: int, from: Date, to: Date, batch: seq<Edit>,
                      tuples: seq<Entry>, collision: seq<Entry>, inserts: seq<Entry>, updates: seq<Entry>)
    requires |tuples| == |batch|
    requires forall i :: 0 <= i < |batch| ==> tuples[i] == Quantized(batch[i])
    requires CollisionFacts(rows, pid, from, to, tuples, collision)
    requires Partition(tuples, collision, inserts, updates)
    ensures forall e :: e in batch ==>
              (Quantized(e) in inserts <==> !(Key(pid, e.date, e.user) in rows && from <= e.date <= to))
    ensures forall e :: e in batch ==>
              (Quantized(e) in updates <==>
                 && Key(pid, e.date, e.user) in rows && from <= e.date <= to
                 && rows[Key(pid, e.date, e.user)] != Quantize(e.value))
    ensures forall t :: t in inserts || t in updates ==> exists e :: e in batch && t == Quantized(e)
  {
    forall e | e in batch
      ensures Quantized(e) in tuples
    {
      var i :| 0 <= i < |batch| && batch[i] == e;
    }
    forall t | t in inserts || t in updates
      ensures exists e :: e in batch && t == Quantized(e)
    {
      var i :| 0 <= i < |tuples| && tuples[i] == t;
      assert batch[i] in batch;
    }
  }

  /** The reads of `update_timetable`: quantize the batch, collect its
      users, fetch the collision set and classify the batch against it. */
  method Classify(store: Store, batch: seq<Edit>, pid: int, from: Date, to: Date)
    returns (tuples: seq<Entry>, collision: seq<Entry>, inserts: seq<Entry>, updates: seq<Entry>)
    requires store.Valid()
    requires DistinctEditCells(batch)
    ensures |tuples| == |batch|
    ensures forall i :: 0 <= i < |batch| ==> tuples[i] == Quantized(batch[i])
    ensures CollisionFacts(store.rows, pid, from, to, tuples, collision)
    ensures Partition(tuples, collision, inserts, updates)
  {
    tuples := QuantizeBatch(batch);
    assert DistinctCells(tuples) by {
      forall i, j | 0 <= i < j < |tuples|
        ensures CellOf(tuples[i]) != CellOf(tuples[j])
      {
        assert EditCell(batch[i]) != EditCell(batch[j]);
      }
    }
    var users := CollectUsers(tuples);
    forall t | t in tuples
      ensures t.user in users
    {
      var i :| 0 <= i < |tuples| && tuples[i] == t;
      assert Names(tuples)[i] == t.user;
    }
    collision := store.Select(pid, from, to, Some(users));
    CollisionCells(store.rows, pid, from, to, users, tuples, collision);
    var inconsistent;
    inserts, updates, inconsistent := Diff(tuples, collision);
    assert Partition(tuples, collision, inserts, updates);
  }

  /** The part of `update_timetable` before the transaction: quantize the
      batch, collect its users, fetch the collision set and classify the
      batch against it. The result is the write set: when the transaction
      on it commits, what it writes, when it is empty, and which edit goes
      to which list. */
  method PlanWrites(store: Store, batch: seq<Edit>, pid: int, from: Date, to: Date)
    returns (inserts: seq<Entry>, updates: seq<Entry>)
    requires store.Valid()
    requires DistinctEditCells(batch)
    ensures InsertsAdmissible(store.rows, pid, inserts)
            && UpdatesAdmissible(InsertAll(store.rows, pid, inserts), pid, updates) <==>
              (forall e :: e in batch ==> InScale(Quantize(e.value)))
              && (forall e :: e in batch && Key(pid, e.date, e.user) in store.rows ==> from <= e.date <= to)
    ensures var written := UpdateAll(InsertAll(store.rows, pid, inserts), pid, updates);
            && written.Keys == store.rows.Keys + EditKeys(pid, batch)
            && (forall e :: e in batch ==>
                  Key(pid, e.date, e.user) in written && written[Key(pid, e.date, e.user)] == Quantize(e.value))
            && (forall k :: k in store.rows && k !in EditKeys(pid, batch) ==> written[k] == store.rows[k])
    ensures (inserts == [] && updates == []) <==>
              forall e :: e in batch ==>
                && from <= e.date <= to
                && Key(pid, e.date, e.user) in store.rows
                && store.rows[Key(pid, e.date, e.user)] == Quantize(e.value)
    ensures forall e :: e in batch ==>
              (Quantized(e) in inserts <==> !(Key(pid, e.date, e.user) in store.rows && from <= e.date <= to))
    ensures forall e :: e in batch ==>
              (Quantized(e) in updates <==>
                 && Key(pid, e.date, e.user) in store.rows && from <= e.date <= to
                 && store.rows[Key(pid, e.date, e.user)] != Quantize(e.value))
    ensures forall t :: t in inserts || t in updates ==> exists e :: e in batch && t == Quantized(e)
  {
    var tuples, collision;
    tuples, collision, inserts, updates := Classify(store, batch, pid, from, to);
    ghost var rows := store.rows;
    WriteSetAdmissible(rows, pid, from, to, tuples, collision, inserts, updates);
    WriteSetWritten(rows, pid, from, to, tuples, collision, inserts, updates);
    WriteSetSplit(rows, pid, from, to, batch, tuples, collision, inserts, updates);
    WriteSetEmpty(rows, pid, from, to, tuples, collision, inserts, updates);
    ghost var written := UpdateAll(InsertAll(rows, pid, inserts), pid, updates);
    QuantizedTerms(rows, written, pid, from, to, batch, tuples);
  }

  /** `update_timetable`: the write set of `PlanWrites`, applied in one
      transaction. `ok` is false when the transaction is rolled back. The
      write set is returned so that a caller can see which edits the
      transaction issued as INSERTs and which as UPDATEs. */
  method UpdateTimetable(store: Store, batch: seq<Edit>, pid: int, from: Date, to: Date)
    returns (ok: bool, inserts: seq<Entry>, updates: seq<Entry>)
    requires store.Valid()
    requires DistinctEditCells(batch)
    modifies store
    ensures store.Valid()
    ensures ok <==> (forall e :: e in batch ==> InScale(Quantize(e.value)))
                    && (forall e :: e in batch && Key(pid, e.date, e.user) in old(store.rows) ==>
                          from <= e.date <= to)
    ensures ok ==> store.rows.Keys == old(store.rows).Keys + EditKeys(pid, batch)
    ensures ok ==> forall e :: e in batch ==>
                     Key(pid, e.date, e.user) in store.rows
                     && store.rows[Key(pid, e.date, e.user)] == Quantize(e.value)
    ensures ok ==> forall k :: k in old(store.rows) && k !in EditKeys(pid, batch) ==>
                     store.rows[k] == old(store.rows)[k]
    ensures !ok ==> store.rows == old(store.rows)
    ensures (inserts == [] && updates == []) <==>
              forall e :: e in batch ==>
                && from <= e.date <= to
                && Key(pid, e.date, e.user) in old(store.rows)
                && old(store.rows)[Key(pid, e.date, e.user)] == Quantize(e.value)
    ensures inserts == [] && updates == [] ==> ok && store.rows == old(store.rows)
    ensures forall e :: e in batch ==>
              (Quantized(e) in inserts <==>
                 !(Key(pid, e.date, e.user) in old(store.rows) && from <= e.date <= to))
    ensures forall e :: e in batch ==>
              (Quantized(e) in updates <==>
                 && Key(pid, e.date, e.user) in old(store.rows) && from <= e.date <= to
                 && old(store.rows)[Key(pid, e.date, e.user)] != Quantize(e.value))
    ensures forall t :: t in inserts || t in updates ==> exists e :: e in batch && t == Quantized(e)
  {
    inserts, updates := PlanWrites(store, batch, pid, from, to);
    ok := store.Apply(pid, inserts, updates);
  }
}
