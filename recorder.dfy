/**
 * The best-time result recorder (`POST /api/results`) and, for contrast, the
 * unconditional overwrite (`PUT /api/results/:id`), as transitions of the
 * `results` table. The request body is read as JSON values: an id field is
 * falsy when absent or 0, a time field is missing only when absent.
 */
module Recorder {
  import opened Wrappers
  import opened Tables

  /** The `results` table with its AUTOINCREMENT counter. */
  datatype ResultStore = ResultStore(rows: map<int, ResultRow>, nextId: int)

  predicate StoreValid(rs: ResultStore) {
    IdsBelow(rs.rows, rs.nextId) && UniquePairs(rs.rows)
  }

  /** One submission: the form fields and the stored path of the uploaded photo, if any. */
  datatype Submission = Submission(
    studentId: Option<int>, sportId: Option<int>,
    timeMin: Option<int>, timeSec: Option<int>,
    photo: Option<string>)

  /** JavaScript truthiness of a numeric id field. */
  predicate Given(x: Option<int>) {
    x.Some? && x.value != 0
  }

  /** The handler's guard: both ids truthy and both times defined (a time of 0 passes). */
  predicate Complete(s: Submission) {
    Given(s.studentId) && Given(s.sportId) && s.timeMin.Some? && s.timeSec.Some?
  }

  /** The time a row or submission stands for, in seconds: `min * 60 + sec`. */
  function Total(min: int, sec: int): int {
    min * 60 + sec
  }

  function RowTotal(r: ResultRow): int {
    Total(r.timeMin, r.timeSec)
  }

  /** The row a complete submission would store. */
  function RowOf(s: Submission): ResultRow
    requires Complete(s)
  {
    ResultRow(s.studentId.value, s.sportId.value, s.timeMin.value, s.timeSec.value, s.photo)
  }

  predicate ForPair(r: ResultRow, studentId: int, sportId: int) {
    r.studentId == studentId && r.sportId == sportId
  }

  /** `SELECT * FROM results WHERE student_id = ? AND sport_id = ?`: at most one row matches. */
  function FindPair(rows: map<int, ResultRow>, studentId: int, sportId: int): (r: Option<int>)
    requires UniquePairs(rows)
    ensures r.Some? ==> r.value in rows && ForPair(rows[r.value], studentId, sportId)
    ensures forall id :: id in rows && ForPair(rows[id], studentId, sportId) ==> r == Some(id)
  {
    if exists id :: id in rows && ForPair(rows[id], studentId, sportId) then
      var id :| id in rows && ForPair(rows[id], studentId, sportId);
      Some(id)
    else
      None
  }

  /** The row stored for a (student, sport) pair, if any. */
  function Best(rs: ResultStore, studentId: int, sportId: int): (r: Option<ResultRow>)
    requires StoreValid(rs)
    ensures r.Some? ==> ForPair(r.value, studentId, sportId)
    ensures r.None? <==> forall id :: id in rs.rows ==> !ForPair(rs.rows[id], studentId, sportId)
  {
    match FindPair(rs.rows, studentId, sportId)
    case None => None
    case Some(id) => Some(rs.rows[id])
  }

  /** What the handler answers. */
  datatype Reply =
    | Incomplete                          // 400 '資料不完整'
    | Inserted(id: int, row: ResultRow)   // the created record
    | Compared(updated: bool)             // `{message, updated}`

  datatype Outcome = Outcome(store: ResultStore, reply: Reply)

  /**
   * The handler: reject an incomplete submission; otherwise look the pair up,
   * insert a row when there is none, and overwrite the existing row (time and
   * photo path, which is null when no photo was sent) only when the new total
   * is strictly smaller.
   */
  function Record(rs: ResultStore, s: Submission): (o: Outcome)
    requires StoreValid(rs)
    ensures StoreValid(o.store)
    ensures o.reply.Incomplete? <==> !Complete(s)
    ensures !Complete(s) ==> o.store == rs
  {
    if !Complete(s) then Outcome(rs, Incomplete)
    else
      var row := RowOf(s);
      match FindPair(rs.rows, row.studentId, row.sportId)
      case None =>
        Outcome(ResultStore(rs.rows[rs.nextId := row], rs.nextId + 1), Inserted(rs.nextId, row))
      case Some(id) =>
        if RowTotal(row) < RowTotal(rs.rows[id]) then
          Outcome(ResultStore(rs.rows[id := row], rs.nextId), Compared(true))
        else
          Outcome(rs, Compared(false))
  }

  /** The row kept when `x` is submitted for a pair that currently holds `cur`. */
  function Better(cur: Option<ResultRow>, x: ResultRow): ResultRow {
    if cur.None? || RowTotal(x) < RowTotal(cur.value) then x else cur.value
  }

  /**
   * The effect of one complete submission, seen pair by pair: its own pair
   * ends up holding `Better(old, new)`, every other pair is untouched, and the
   * reply says whether a row was inserted, overwritten or kept.
   */
  lemma RecordEffect(rs: ResultStore, s: Submission, studentId: int, sportId: int)
    requires StoreValid(rs) && Complete(s)
    ensures var o := Record(rs, s);
      var prev := Best(rs, s.studentId.value, s.sportId.value);
      && Best(o.store, s.studentId.value, s.sportId.value) == Some(Better(prev, RowOf(s)))
      && (o.reply.Inserted? <==> prev.None?)
      && (o.reply == Compared(true) <==> prev.Some? && RowTotal(RowOf(s)) < RowTotal(prev.value))
      && (o.reply == Compared(false) <==> prev.Some? && RowTotal(RowOf(s)) >= RowTotal(prev.value))
      && |o.store.rows| == |rs.rows| + (if prev.None? then 1 else 0)
      && (!ForPair(RowOf(s), studentId, sportId) ==> Best(o.store, studentId, sportId) == Best(rs, studentId, sportId))
  {
    var o := Record(rs, s);
    var row := RowOf(s);
    match FindPair(rs.rows, row.studentId, row.sportId)
    case None =>
      assert rs.nextId !in rs.rows;
      assert o.store.rows[rs.nextId] == row;
      assert Best(o.store, row.studentId, row.sportId) == Some(row);
      if !ForPair(row, studentId, sportId) {
        SameMatchesSameBest(rs, o.store, studentId, sportId);
      }
    case Some(id) =>
      if RowTotal(row) < RowTotal(rs.rows[id]) {
        assert o.store.rows[id] == row;
        if !ForPair(row, studentId, sportId) {
          SameMatchesSameBest(rs, o.store, studentId, sportId);
        }
      }
  }

  /** Two stores whose rows for a pair coincide agree on that pair's row. */
  lemma SameMatchesSameBest(a: ResultStore, b: ResultStore, studentId: int, sportId: int)
    requires StoreValid(a) && StoreValid(b)
    requires forall id :: id in a.rows && ForPair(a.rows[id], studentId, sportId) ==> id in b.rows && b.rows[id] == a.rows[id]
    requires forall id :: id in b.rows && ForPair(b.rows[id], studentId, sportId) ==> id in a.rows && a.rows[id] == b.rows[id]
    ensures Best(a, studentId, sportId) == Best(b, studentId, sportId)
  {
  }

  /** Replays submissions in arrival order (requests are handled one at a time). */
  function Replay(rs: ResultStore, subs: seq<Submission>): (r: ResultStore)
    requires StoreValid(rs)
    ensures StoreValid(r)
    decreases |subs|
  {
    if subs == [] then rs else Replay(Record(rs, subs[0]).store, subs[1..])
  }

  /** The rows that the complete submissions for a pair would store, in arrival order. */
  function Candidates(subs: seq<Submission>, studentId: int, sportId: int): (c: seq<ResultRow>)
    ensures forall i :: 0 <= i < |c| ==> ForPair(c[i], studentId, sportId)
    decreases |subs|
  {
    if subs == [] then []
    else
      var rest := Candidates(subs[1..], studentId, sportId);
      if Complete(subs[0]) && ForPair(RowOf(subs[0]), studentId, sportId) then [RowOf(subs[0])] + rest else rest
  }

  /** `c[i]` has the smallest total of `c`, and no earlier entry has that total. */
  ghost predicate IsFirstMinimal(c: seq<ResultRow>, i: int) {
    && 0 <= i < |c|
    && (forall j :: 0 <= j < |c| ==> RowTotal(c[i]) <= RowTotal(c[j]))
    && (forall j :: 0 <= j < i ==> RowTotal(c[j]) > RowTotal(c[i]))
  }

  /** The entry of `c` that is first minimal is unique. */
  lemma FirstMinimalUnique(c: seq<ResultRow>, i: int, j: int)
    requires IsFirstMinimal(c, i) && IsFirstMinimal(c, j)
    ensures i == j
  {
    assert RowTotal(c[i]) <= RowTotal(c[j]) && RowTotal(c[j]) <= RowTotal(c[i]);
  }

  function AsSeq(r: Option<ResultRow>): seq<ResultRow> {
    if r.Some? then [r.value] else []
  }

  /** `best` is what a pair holding the entries `c`, in order, keeps: nothing for no entry, else the first minimal one. */
  ghost predicate Summarizes(c: seq<ResultRow>, best: Option<ResultRow>) {
    && (best.None? <==> c == [])
    && (best.Some? ==> exists i :: IsFirstMinimal(c, i) && c[i] == best.value)
  }

  /**
   * The best-time invariant. Whatever the arrival order, after a sequence of
   * submissions the row stored for a pair is the first one, among the row it
   * started with and the complete submissions for the pair, to reach the
   * smallest total; there is a row exactly when there was one or such a
   * submission arrived.
   */
  lemma BestTimeIsFirstMinimum(rs: ResultStore, subs: seq<Submission>, studentId: int, sportId: int)
    requires StoreValid(rs)
    ensures Summarizes(AsSeq(Best(rs, studentId, sportId)) + Candidates(subs, studentId, sportId),
                       Best(Replay(rs, subs), studentId, sportId))
  {
    var pre := AsSeq(Best(rs, studentId, sportId));
    if pre != [] {
      assert IsFirstMinimal(pre, 0);
    }
    ReplayFrom(rs, subs, studentId, sportId, pre);
  }

  lemma {:induction false} ReplayFrom(rs: ResultStore, subs: seq<Submission>, studentId: int, sportId: int, pre: seq<ResultRow>)
    requires StoreValid(rs)
    requires Summarizes(pre, Best(rs, studentId, sportId))
    ensures Summarizes(pre + Candidates(subs, studentId, sportId), Best(Replay(rs, subs), studentId, sportId))
    decreases |subs|
  {
    if subs == [] {
      assert pre + Candidates(subs, studentId, sportId) == pre;
    } else {
      var next := Record(rs, subs[0]).store;
      var pre' := pre + Candidates([subs[0]], studentId, sportId);
      StepKeepsSummary(rs, subs[0], studentId, sportId, pre);
      ReplayFrom(next, subs[1..], studentId, sportId, pre');
      CandidatesCons(subs, studentId, sportId);
      assert Replay(rs, subs) == Replay(next, subs[1..]);
      ConcatAssoc(pre, Candidates([subs[0]], studentId, sportId), Candidates(subs[1..], studentId, sportId));
    }
  }

  lemma CandidatesCons(subs: seq<Submission>, studentId: int, sportId: int)
    requires subs != []
    ensures Candidates(subs, studentId, sportId)
         == Candidates([subs[0]], studentId, sportId) + Candidates(subs[1..], studentId, sportId)
  {
    assert [subs[0]][1..] == [];
  }

  /** One submission keeps `Summarizes` between the entries seen so far and the stored row. */
  lemma StepKeepsSummary(rs: ResultStore, s: Submission, studentId: int, sportId: int, pre: seq<ResultRow>)
    requires StoreValid(rs)
    requires Summarizes(pre, Best(rs, studentId, sportId))
    ensures Summarizes(pre + Candidates([s], studentId, sportId), Best(Record(rs, s).store, studentId, sportId))
  {
    assert [s][1..] == [];
    if Complete(s) {
      RecordEffect(rs, s, studentId, sportId);
      if ForPair(RowOf(s), studentId, sportId) {
        assert Candidates([s], studentId, sportId) == [RowOf(s)];
        ExtendFirstMinimal(pre, Best(rs, studentId, sportId), RowOf(s));
      } else {
        assert pre + Candidates([s], studentId, sportId) == pre;
      }
    } else {
      assert pre + Candidates([s], studentId, sportId) == pre;
    }
  }

  /** Appending `x` to entries whose first minimum is `cur` makes `Better(cur, x)` the first minimum. */
  lemma ExtendFirstMinimal(pre: seq<ResultRow>, cur: Option<ResultRow>, x: ResultRow)
    requires Summarizes(pre, cur)
    ensures Summarizes(pre + [x], Some(Better(cur, x)))
  {
    var pre' := pre + [x];
    if cur.None? {
      assert IsFirstMinimal(pre', 0);
    } else {
      var i :| IsFirstMinimal(pre, i) && pre[i] == cur.value;
      if RowTotal(x) < RowTotal(cur.value) {
        assert IsFirstMinimal(pre', |pre|);
      } else {
        assert IsFirstMinimal(pre', i);
      }
    }
  }

  /**
   * The stored total is the minimum of every total submitted for the pair
   * (and of the row it started with), and is one of them.
   */
  lemma StoredTotalIsMinimum(rs: ResultStore, subs: seq<Submission>, studentId: int, sportId: int)
    requires StoreValid(rs)
    ensures var c := AsSeq(Best(rs, studentId, sportId)) + Candidates(subs, studentId, sportId);
      var after := Best(Replay(rs, subs), studentId, sportId);
      after.Some? ==>
        && (forall j :: 0 <= j < |c| ==> RowTotal(after.value) <= RowTotal(c[j]))
        && (exists j :: 0 <= j < |c| && RowTotal(c[j]) == RowTotal(after.value))
  {
    BestTimeIsFirstMinimum(rs, subs, studentId, sportId);
    var c := AsSeq(Best(rs, studentId, sportId)) + Candidates(subs, studentId, sportId);
    var after := Best(Replay(rs, subs), studentId, sportId);
    if after.Some? {
      var i :| IsFirstMinimal(c, i) && c[i] == after.value;
      assert RowTotal(c[i]) == RowTotal(after.value);
    }
  }

  /** At most one row per pair, whatever submissions arrive. */
  lemma NeverTwoRowsPerPair(rs: ResultStore, subs: seq<Submission>, a: int, b: int)
    requires StoreValid(rs)
    requires var r := Replay(rs, subs).rows;
      (a in r && b in r && r[a].studentId == r[b].studentId && r[a].sportId == r[b].sportId)
    ensures a == b
  {
  }

  /** What `PUT /api/results/:id` answers. */
  datatype OverwriteReply =
    | TimeIncomplete        // 400 '時間資料不完整'
    | Overwritten(id: int)  // success, whether or not the id exists

  /**
   * `PUT /api/results/:id`: both times defined, otherwise rejected; the time is
   * written unconditionally and the photo path only when a photo was sent.
   * An absent id updates nothing and still answers success.
   */
  function Overwrite(rs: ResultStore, id: int, timeMin: Option<int>, timeSec: Option<int>, photo: Option<string>): (o: (ResultStore, OverwriteReply))
    requires StoreValid(rs)
    ensures StoreValid(o.0)
    ensures o.1 == TimeIncomplete <==> timeMin.None? || timeSec.None?
    ensures o.1 == TimeIncomplete ==> o.0 == rs
    ensures o.1.Overwritten? ==> o.1 == Overwritten(id)
    ensures id !in rs.rows ==> o.0 == rs
    ensures o.0.nextId == rs.nextId && o.0.rows.Keys == rs.rows.Keys
    ensures forall k :: k in rs.rows && k != id ==> o.0.rows[k] == rs.rows[k]
    ensures id in rs.rows && o.1.Overwritten? ==>
      && o.0.rows[id].timeMin == timeMin.value && o.0.rows[id].timeSec == timeSec.value
      && ForPair(o.0.rows[id], rs.rows[id].studentId, rs.rows[id].sportId)
      && o.0.rows[id].photo == if photo.Some? && photo.value != "" then photo else rs.rows[id].photo
  {
    if timeMin.None? || timeSec.None? then (rs, TimeIncomplete)
    else if id !in rs.rows then (rs, Overwritten(id))
    else
      var cur := rs.rows[id];
      var newPhoto := if photo.Some? && photo.value != "" then photo else cur.photo;
      var row := ResultRow(cur.studentId, cur.sportId, timeMin.value, timeSec.value, newPhoto);
      (ResultStore(rs.rows[id := row], rs.nextId), Overwritten(id))
  }

  /**
   * Unlike the recorder, the overwrite can leave a pair holding a slower time
   * than one already submitted for it.
   */
  lemma OverwriteCanRaiseStoredTime()
    ensures var rs := ResultStore(map[], 1);
      var s := Submission(Some(5), Some(2), Some(1), Some(10), None);
      var afterPost := Record(rs, s).store;
      var afterPut := Overwrite(afterPost, 1, Some(1), Some(45), None).0;
      && Best(afterPost, 5, 2) == Some(RowOf(s))
      && afterPut.rows[1].timeMin == 1 && afterPut.rows[1].timeSec == 45
      && RowTotal(afterPut.rows[1]) > RowTotal(RowOf(s))
  {
    var rs := ResultStore(map[], 1);
    var s := Submission(Some(5), Some(2), Some(1), Some(10), None);
    RecordEffect(rs, s, 5, 2);
  }

  /** `DELETE /api/results/:id`: the row goes, nothing else changes; always success. */
  function Remove(rs: ResultStore, id: int): (r: ResultStore)
    requires StoreValid(rs)
    ensures StoreValid(r)
    ensures id !in r.rows && r.rows.Keys == rs.rows.Keys - {id}
    ensures forall k :: k in r.rows ==> r.rows[k] == rs.rows[k]
  {
    ResultStore(rs.rows - {id}, rs.nextId)
  }

  /**
   * A worked sequence for one pair: 1:30 is recorded, 1:45 is
   * discarded as slower, 1:10 replaces it.
   */
  lemma ExampleSequence()
    ensures var s1 := Submission(Some(5), Some(2), Some(1), Some(30), None);
      var s2 := Submission(Some(5), Some(2), Some(1), Some(45), None);
      var s3 := Submission(Some(5), Some(2), Some(1), Some(10), None);
      var r0 := ResultStore(map[], 1);
      var o1 := Record(r0, s1);
      var o2 := Record(o1.store, s2);
      var o3 := Record(o2.store, s3);
      && o1.reply.Inserted?
      && o2.reply == Compared(false) && Best(o2.store, 5, 2) == Some(RowOf(s1))
      && o3.reply == Compared(true) && Best(o3.store, 5, 2) == Some(RowOf(s3))
  {
    var s1 := Submission(Some(5), Some(2), Some(1), Some(30), None);
    var s2 := Submission(Some(5), Some(2), Some(1), Some(45), None);
    var s3 := Submission(Some(5), Some(2), Some(1), Some(10), None);
    var r0 := ResultStore(map[], 1);
    RecordEffect(r0, s1, 5, 2);
    var o1 := Record(r0, s1);
    RecordEffect(o1.store, s2, 5, 2);
    var o2 := Record(o1.store, s2);
    RecordEffect(o2.store, s3, 5, 2);
  }
}
