/**
 * The join shared by `GET /api/leaderboard` and `GET /api/showcase`, the
 * leaderboard's optional filters, and the two `ORDER BY` orders. The store
 * scans `results` in id order; the sort is stable, so rows whose keys tie
 * stay in that order (SQL itself leaves ties unordered).
 */
module Query {
  import opened Wrappers
  import opened Tables
  import Recorder

  /**
   * One row of `SELECT r.*, s.name_zh, s.name_en, s.student_number,
   * c.name AS class_name, sp.name AS sport_name`; `classId` is `s.class_id`,
   * which the class filter compares.
   */
  datatype Joined = Joined(
    resultId: int, studentId: int, sportId: int, timeMin: int, timeSec: int, photo: Option<string>,
    nameZh: string, nameEn: string, studentNumber: string,
    className: string, sportName: string, classId: int)

  /** The inner joins hold at a results row: its student, that student's class and its sport all exist. */
  predicate Joins(t: Tables, id: int) {
    && id in t.results
    && t.results[id].studentId in t.students
    && t.students[t.results[id].studentId].classId in t.classes
    && t.results[id].sportId in t.sports
  }

  /** The joined row built from a results row. */
  function JoinAt(t: Tables, id: int): (r: Joined)
    requires Joins(t, id)
    ensures r.resultId == id
  {
    var res := t.results[id];
    var st := t.students[res.studentId];
    Joined(id, res.studentId, res.sportId, res.timeMin, res.timeSec, res.photo,
           st.nameZh, st.nameEn, st.studentNumber,
           t.classes[st.classId].name, t.sports[res.sportId].name, st.classId)
  }

  /** `x` is a row of the join over the current tables. */
  predicate InJoin(t: Tables, x: Joined) {
    Joins(t, x.resultId) && JoinAt(t, x.resultId) == x
  }

  /** The join, scanning result ids from `lo` upwards. */
  function JoinFrom(t: Tables, lo: int): (rows: seq<Joined>)
    ensures forall i :: 0 <= i < |rows| ==> lo <= rows[i].resultId && InJoin(t, rows[i])
    ensures forall i, j :: 0 <= i < j < |rows| ==> rows[i].resultId < rows[j].resultId
    ensures forall id :: lo <= id < t.nextResultId && Joins(t, id) ==> JoinAt(t, id) in rows
    decreases t.nextResultId - lo
  {
    if lo >= t.nextResultId then []
    else (if Joins(t, lo) then [JoinAt(t, lo)] else []) + JoinFrom(t, lo + 1)
  }

  /** Every joined row, once, in result-id order. */
  function Join(t: Tables): (rows: seq<Joined>)
    requires Valid(t)
    ensures forall x :: x in rows <==> InJoin(t, x)
    ensures forall i, j :: 0 <= i < j < |rows| ==> rows[i].resultId < rows[j].resultId
  {
    JoinFrom(t, 1)
  }

  /** The query parameters `sport_id` and `class_id`; `None` when absent or empty. */
  datatype Filter = Filter(sportId: Option<int>, classId: Option<int>)

  /** `WHERE r.sport_id = ? AND s.class_id = ?`, each conjunct present only when its parameter is. */
  predicate Matches(x: Joined, f: Filter) {
    && (f.sportId.None? || x.sportId == f.sportId.value)
    && (f.classId.None? || x.classId == f.classId.value)
  }

  /** The rows that satisfy the filter, in their order. */
  function Select(rows: seq<Joined>, f: Filter): (r: seq<Joined>)
    ensures forall x :: multiset(r)[x] == if Matches(x, f) then multiset(rows)[x] else 0
    ensures forall x :: x in r <==> x in rows && Matches(x, f)
  {
    if rows == [] then []
    else
      assert rows == [rows[0]] + rows[1..];
      (if Matches(rows[0], f) then [rows[0]] else []) + Select(rows[1..], f)
  }

  /** The two sort orders of the queries. */
  datatype Order =
    | ByTime            // ORDER BY r.time_min ASC, r.time_sec ASC
    | BySportThenTime   // ORDER BY sp.id, r.time_min ASC, r.time_sec ASC

  /** `(time_min, time_sec)` compared lexicographically. */
  predicate TimeLe(a: Joined, b: Joined) {
    a.timeMin < b.timeMin || (a.timeMin == b.timeMin && a.timeSec <= b.timeSec)
  }

  predicate Le(o: Order, a: Joined, b: Joined) {
    match o
    case ByTime => TimeLe(a, b)
    case BySportThenTime => a.sportId < b.sportId || (a.sportId == b.sportId && TimeLe(a, b))
  }

  predicate Sorted(o: Order, s: seq<Joined>) {
    forall i, j :: 0 <= i < j < |s| ==> Le(o, s[i], s[j])
  }

  lemma LeTransitive(o: Order, a: Joined, b: Joined, c: Joined)
    requires Le(o, a, b) && Le(o, b, c)
    ensures Le(o, a, c)
  {
  }

  /** Putting in front of a sorted sequence an element below all of it keeps it sorted. */
  lemma PrependSorted(o: Order, y: Joined, s: seq<Joined>)
    requires Sorted(o, s)
    requires forall k :: 0 <= k < |s| ==> Le(o, y, s[k])
    ensures Sorted(o, [y] + s)
  {
    var r := [y] + s;
    forall i, j | 0 <= i < j < |r| ensures Le(o, r[i], r[j]) {
      if i == 0 {
        assert r[j] == s[j - 1];
      } else {
        assert r[i] == s[i - 1] && r[j] == s[j - 1];
      }
    }
  }

  function Insert(o: Order, x: Joined, s: seq<Joined>): (r: seq<Joined>)
    requires Sorted(o, s)
    ensures Sorted(o, r)
    ensures multiset(r) == multiset(s) + multiset{x}
    ensures forall y :: y in r <==> y == x || y in s
  {
    if s == [] then [x]
    else if Le(o, x, s[0]) then
      assert forall k :: 0 <= k < |s| ==> Le(o, x, s[k]) by {
        forall k | 0 <= k < |s| ensures Le(o, x, s[k]) {
          if k > 0 { LeTransitive(o, x, s[0], s[k]); }
        }
      }
      PrependSorted(o, x, s);
      [x] + s
    else
      assert s == [s[0]] + s[1..];
      var rest := Insert(o, x, s[1..]);
      assert forall k :: 0 <= k < |rest| ==> Le(o, s[0], rest[k]) by {
        forall k | 0 <= k < |rest| ensures Le(o, s[0], rest[k]) {
          assert rest[k] in rest;
          if rest[k] != x {
            var m :| 0 <= m < |s[1..]| && s[1..][m] == rest[k];
            assert s[m + 1] == rest[k];
          }
        }
      }
      PrependSorted(o, s[0], rest);
      [s[0]] + rest
  }

  /** Insertion sort: a permutation of `s`, ordered by `o`. */
  function Sort(o: Order, s: seq<Joined>): (r: seq<Joined>)
    ensures Sorted(o, r)
    ensures multiset(r) == multiset(s)
  {
    if s == [] then []
    else
      assert s == [s[0]] + s[1..];
      Insert(o, s[0], Sort(o, s[1..]))
  }

  /**
   * `GET /api/leaderboard`: exactly the joined rows that satisfy every given
   * filter, each once, ordered by `(time_min, time_sec)`.
   */
  function Leaderboard(t: Tables, f: Filter): (rows: seq<Joined>)
    requires Valid(t)
    ensures Sorted(ByTime, rows)
    ensures forall x :: x in rows <==> InJoin(t, x) && Matches(x, f)
    ensures forall x :: multiset(rows)[x] <= 1
  {
    var joined := Join(t);
    NoRepeats(joined);
    var r := Sort(ByTime, Select(joined, f));
    assert forall x :: x in r <==> x in multiset(r);
    r
  }

  /** A sequence with strictly increasing result ids holds each row once. */
  lemma NoRepeats(rows: seq<Joined>)
    requires forall i, j :: 0 <= i < j < |rows| ==> rows[i].resultId < rows[j].resultId
    ensures forall x :: multiset(rows)[x] <= 1
  {
    if rows != [] {
      NoRepeats(rows[1..]);
      assert rows == [rows[0]] + rows[1..];
      assert rows[0] !in rows[1..];
    }
  }

  /** The filters are a conjunction: both together select what each selects. */
  lemma FiltersConjoin(t: Tables, sportId: int, classId: int)
    requires Valid(t)
    ensures forall x ::
      (x in Leaderboard(t, Filter(Some(sportId), Some(classId))))
      <==> (x in Leaderboard(t, Filter(Some(sportId), None)) && x in Leaderboard(t, Filter(None, Some(classId))))
  {
  }

  /** With no filter the leaderboard is the whole join, reordered. */
  lemma UnfilteredIsWholeJoin(t: Tables)
    requires Valid(t)
    ensures multiset(Leaderboard(t, Filter(None, None))) == multiset(Join(t))
  {
    var joined := Join(t);
    var s := Select(joined, Filter(None, None));
    assert Leaderboard(t, Filter(None, None)) == Sort(ByTime, s);
    forall x ensures multiset(s)[x] == multiset(joined)[x] {
      assert Matches(x, Filter(None, None));
    }
    assert multiset(s) == multiset(joined);
  }

  /** For seconds in `[0, 60)` the lexicographic order is the order of `min * 60 + sec`. */
  lemma TimeOrderMatchesTotal(a: Joined, b: Joined)
    requires 0 <= a.timeSec < 60 && 0 <= b.timeSec < 60
    ensures TimeLe(a, b) <==> Recorder.Total(a.timeMin, a.timeSec) <= Recorder.Total(b.timeMin, b.timeSec)
  {
  }

  /**
   * The server never checks the seconds range: 0:90 is listed ahead of 1:00
   * although the recorder counts it as the slower time.
   */
  lemma TimeOrderDisagreesOutsideRange()
    ensures var a := Joined(1, 1, 1, 0, 90, None, "", "", "", "", "", 1);
      var b := Joined(2, 2, 1, 1, 0, None, "", "", "", "", "", 1);
      TimeLe(a, b) && !TimeLe(b, a) && Recorder.Total(a.timeMin, a.timeSec) > Recorder.Total(b.timeMin, b.timeSec)
  {
  }

  /** When every listed time has its seconds in range, the leaderboard is also ordered by total time. */
  lemma LeaderboardOrderedByTotal(t: Tables, f: Filter)
    requires Valid(t)
    requires forall x :: x in Leaderboard(t, f) ==> 0 <= x.timeSec < 60
    ensures var rows := Leaderboard(t, f);
      forall i, j :: 0 <= i < j < |rows| ==>
        Recorder.Total(rows[i].timeMin, rows[i].timeSec) <= Recorder.Total(rows[j].timeMin, rows[j].timeSec)
  {
    var rows := Leaderboard(t, f);
    forall i, j | 0 <= i < j < |rows|
      ensures Recorder.Total(rows[i].timeMin, rows[i].timeSec) <= Recorder.Total(rows[j].timeMin, rows[j].timeSec)
    {
      assert rows[i] in rows && rows[j] in rows;
      TimeOrderMatchesTotal(rows[i], rows[j]);
    }
  }

  /** The unfiltered join ordered by sport id, then by time: the showcase's input stream. */
  function ShowcaseStream(t: Tables): (rows: seq<Joined>)
    requires Valid(t)
    ensures Sorted(BySportThenTime, rows)
    ensures multiset(rows) == multiset(Join(t))
  {
    Sort(BySportThenTime, Join(t))
  }
}
