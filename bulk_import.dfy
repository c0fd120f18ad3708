/**
 * The write phase of `POST /api/students/bulk-import`, after every line has
 * validated: row by row, the class is looked up by name and created when
 * missing, then the student is inserted. Each driver call can fail; a failure
 * ends that row (counted in `failed`) and the loop goes on with the next one.
 * Which call fails is an input, `faults`, one entry per row.
 */
module BulkImport {
  import opened Wrappers
  import opened Tables
  import opened CsvImport

  /** The driver call that fails while a row is processed, if any. */
  datatype Fault =
    | NoFault
    | LookupFails          // SELECT id FROM classes WHERE name = ?
    | ClassInsertFails     // INSERT INTO classes, when it is attempted
    | StudentInsertFails   // INSERT INTO students

  /** The students row that row `s` is inserted as, under class `classId`. */
  function RowFor(classId: int, s: StudentInput): StudentRow {
    StudentRow(classId, s.studentNumber, s.nameZh, s.nameEn)
  }

  /** `t` only adds rows to the classes and students of `t0`; every other table is untouched. */
  ghost predicate Extends(t0: Tables, t: Tables) {
    && t.sports == t0.sports && t.nextSportId == t0.nextSportId
    && t.results == t0.results && t.nextResultId == t0.nextResultId
    && t0.nextClassId <= t.nextClassId && t0.nextStudentId <= t.nextStudentId
    && (forall id :: id in t0.classes ==> id in t.classes && t.classes[id] == t0.classes[id])
    && (forall id :: id in t0.students ==> id in t.students && t.students[id] == t0.students[id])
  }

  /** A class not in `t0` shares its name with no other class of `t`. */
  ghost predicate NewNamesUnique(t0: Tables, t: Tables) {
    forall a, b :: a in t.classes && b in t.classes && a !in t0.classes && t.classes[a].name == t.classes[b].name ==> a == b
  }

  /** The student row that row `s` is stored as, under class `classId`. */
  predicate StoredAs(t: Tables, id: int, s: StudentInput) {
    && id in t.students
    && t.students[id].classId in t.classes
    && t.classes[t.students[id].classId].name == s.className
    && t.students[id].studentNumber == s.studentNumber
    && t.students[id].nameZh == s.nameZh
    && t.students[id].nameEn == s.nameEn
  }

  /**
   * One iteration of the loop. It succeeds unless a call it makes fails; it
   * creates the class only when no class has the row's name, keeps a class it
   * created even when the student insert then fails, and inserts the student
   * under the class of the row's name.
   */
  function ImportRow(t: Tables, s: StudentInput, f: Fault): (r: (Tables, bool))
    requires Valid(t)
    ensures Valid(r.0) && Extends(t, r.0)
    ensures r.1 <==> f.NoFault? || (f.ClassInsertFails? && FindClass(t, s.className).Some?)
    ensures r.0.students.Keys == t.students.Keys + (if r.1 then {t.nextStudentId} else {})
    ensures r.0.nextStudentId == t.nextStudentId + (if r.1 then 1 else 0)
    ensures r.1 ==> StoredAs(r.0, t.nextStudentId, s)
    ensures r.0.classes.Keys == t.classes.Keys
      || (FindClass(t, s.className).None? && r.0.classes == t.classes[t.nextClassId := ClassRow(s.className)])
  {
    if f.LookupFails? then (t, false)
    else
      match FindClass(t, s.className)
      case None =>
        if f.ClassInsertFails? then (t, false)
        else
          var t1 := AddClass(t, s.className);
          if f.StudentInsertFails? then (t1, false)
          else (AddStudent(t1, RowFor(t.nextClassId, s)), true)
      case Some(classId) =>
        if f.StudentInsertFails? then (t, false)
        else (AddStudent(t, RowFor(classId, s)), true)
  }

  /** The fault of each of `n` rows: `faults[k]` for row `k`, and none for rows past its end. */
  function FaultsFor(faults: seq<Fault>, n: nat): (fs: seq<Fault>)
    ensures |fs| == n
    ensures forall k :: 0 <= k < n ==> fs[k] == if k < |faults| then faults[k] else NoFault
  {
    seq(n, k requires 0 <= k < n => if k < |faults| then faults[k] else NoFault)
  }

  /** Where the loop stands: the tables and the two counters. */
  datatype Progress = Progress(tables: Tables, processed: nat, failed: nat)

  /** The loop over the first rows, each with its fault. */
  function ImportAll(t: Tables, rows: seq<StudentInput>, faults: seq<Fault>): (p: Progress)
    requires Valid(t) && |faults| == |rows|
    ensures Valid(p.tables)
    ensures p.processed + p.failed == |rows|
  {
    if rows == [] then Progress(t, 0, 0)
    else
      var n := |rows| - 1;
      var prev := ImportAll(t, rows[..n], faults[..n]);
      var step := ImportRow(prev.tables, rows[n], faults[n]);
      Progress(step.0, prev.processed + (if step.1 then 1 else 0), prev.failed + (if step.1 then 0 else 1))
  }

  /** The loop over one more row is one more step. */
  lemma ImportAllStep(t: Tables, rows: seq<StudentInput>, faults: seq<Fault>, i: nat)
    requires Valid(t) && |faults| == |rows| && i < |rows|
    ensures var prev := ImportAll(t, rows[..i], faults[..i]);
      var step := ImportRow(prev.tables, rows[i], faults[i]);
      ImportAll(t, rows[..i + 1], faults[..i + 1])
        == Progress(step.0, prev.processed + (if step.1 then 1 else 0), prev.failed + (if step.1 then 0 else 1))
  {
    assert rows[..i + 1][..i] == rows[..i] && faults[..i + 1][..i] == faults[..i];
  }

  /**
   * Whatever fails: only classes and students are added; one student is added
   * per processed row, at consecutive ids; a class is created only for a name
   * that no class has, so no name gains two classes.
   */
  lemma {:induction false} ImportAdds(t: Tables, rows: seq<StudentInput>, faults: seq<Fault>)
    requires Valid(t) && |faults| == |rows|
    ensures var p := ImportAll(t, rows, faults);
      && Extends(t, p.tables)
      && NewNamesUnique(t, p.tables)
      && p.tables.nextStudentId == t.nextStudentId + p.processed
      && (forall id :: id in p.tables.students <==> id in t.students || t.nextStudentId <= id < p.tables.nextStudentId)
  {
    if rows != [] {
      var n := |rows| - 1;
      ImportAdds(t, rows[..n], faults[..n]);
      var prev := ImportAll(t, rows[..n], faults[..n]);
      var step := ImportRow(prev.tables, rows[n], faults[n]);
      ExtendsTrans(t, prev.tables, step.0);
      assert NewNamesUnique(t, step.0) by {
        NewClassKeepsNamesUnique(t, prev.tables, step.0, rows[n].className);
      }
    }
  }

  lemma ExtendsTrans(t0: Tables, t1: Tables, t2: Tables)
    requires Extends(t0, t1) && Extends(t1, t2)
    ensures Extends(t0, t2)
  {
  }

  lemma NewClassKeepsNamesUnique(t0: Tables, t: Tables, t1: Tables, name: string)
    requires Valid(t) && Extends(t0, t) && NewNamesUnique(t0, t)
    requires Extends(t, t1)
    requires t1.classes.Keys == t.classes.Keys
      || (FindClass(t, name).None? && t1.classes == t.classes[t.nextClassId := ClassRow(name)])
    ensures NewNamesUnique(t0, t1)
  {
    forall a, b | a in t1.classes && b in t1.classes && a !in t0.classes && t1.classes[a].name == t1.classes[b].name
      ensures a == b
    {
      if t1.classes.Keys == t.classes.Keys {
        assert a in t.classes && b in t.classes;
      } else if a != t.nextClassId && b != t.nextClassId {
        assert t1.classes[a] == t.classes[a] && t1.classes[b] == t.classes[b];
      }
    }
  }

  /** Adding rows keeps an earlier student where and what it is. */
  lemma StoredAsKept(t: Tables, t1: Tables, id: int, s: StudentInput)
    requires Extends(t, t1) && StoredAs(t, id, s)
    ensures StoredAs(t1, id, s)
  {
    assert t1.students[id] == t.students[id];
    assert t1.classes[t.students[id].classId] == t.classes[t.students[id].classId];
  }

  /** Row `k` of `rows` is stored at id `base + k`. */
  ghost predicate StoredFrom(t: Tables, base: int, rows: seq<StudentInput>) {
    forall k :: 0 <= k < |rows| ==> StoredAs(t, base + k, rows[k])
  }

  /** A fault-free last row, after the rows before it were stored at consecutive ids, is stored at the next id. */
  lemma StoreLastRow(t: Tables, base: int, rows: seq<StudentInput>)
    requires |rows| > 0 && Valid(t) && t.nextStudentId == base + |rows| - 1
    requires StoredFrom(t, base, rows[..|rows| - 1])
    ensures var step := ImportRow(t, rows[|rows| - 1], NoFault);
      step.1 && step.0.nextStudentId == base + |rows| && StoredFrom(step.0, base, rows)
  {
    var n := |rows| - 1;
    var step := ImportRow(t, rows[n], NoFault);
    forall k | 0 <= k < |rows| ensures StoredAs(step.0, base + k, rows[k]) {
      if k < n {
        assert rows[..n][k] == rows[k];
        StoredAsKept(t, step.0, base + k, rows[k]);
      }
    }
  }

  /**
   * With no fault every row is processed and none fails, and row `k` is the
   * student at the `k`-th new id, filed under a class bearing its class name.
   */
  lemma {:induction false} FaultFreeImport(t: Tables, rows: seq<StudentInput>, faults: seq<Fault>)
    requires Valid(t) && |faults| == |rows|
    requires forall k :: 0 <= k < |faults| ==> faults[k] == NoFault
    ensures var p := ImportAll(t, rows, faults);
      && p.processed == |rows| && p.failed == 0
      && p.tables.nextStudentId == t.nextStudentId + |rows|
      && StoredFrom(p.tables, t.nextStudentId, rows)
  {
    if rows != [] {
      var n := |rows| - 1;
      FaultFreeImport(t, rows[..n], faults[..n]);
      var prev := ImportAll(t, rows[..n], faults[..n]);
      assert faults[n] == NoFault;
      var step := ImportRow(prev.tables, rows[n], faults[n]);
      assert ImportAll(t, rows, faults) == Progress(step.0, prev.processed + 1, prev.failed);
      StoreLastRow(prev.tables, t.nextStudentId, rows);
    }
  }

  /** A class created for a row whose student insert then fails stays behind. */
  lemma FailedInsertKeepsNewClass(t: Tables, s: StudentInput)
    requires Valid(t) && FindClass(t, s.className).None?
    ensures var r := ImportRow(t, s, StudentInsertFails);
      && !r.1
      && r.0.students == t.students
      && FindClass(r.0, s.className) == Some(t.nextClassId)
  {
    AddClassFinds(t, s.className, s.className);
  }
}
