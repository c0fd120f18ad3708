/**
 * The relational store: one map from row id to record per table, and the
 * AUTOINCREMENT counter of each table (the id the next insert receives).
 * `created_at` columns are a clock and are not modelled; the `admins` table
 * is declared by the schema but never read or written by a handler.
 */
module Tables {
  import opened Wrappers

  datatype ClassRow = ClassRow(name: string)

  datatype SportRow = SportRow(name: string)

  /** `students`: `class_id` refers to `classes.id`, not enforced by the store. */
  datatype StudentRow = StudentRow(classId: int, studentNumber: string, nameZh: string, nameEn: string)

  /** `results`: one student's time for one sport; `photo_path` is nullable. */
  datatype ResultRow = ResultRow(studentId: int, sportId: int, timeMin: int, timeSec: int, photo: Option<string>)

  datatype Tables = Tables(
    classes: map<int, ClassRow>, nextClassId: int,
    students: map<int, StudentRow>, nextStudentId: int,
    sports: map<int, SportRow>, nextSportId: int,
    results: map<int, ResultRow>, nextResultId: int)

  /** AUTOINCREMENT ids start at 1 and every id in use is below the next one to be handed out. */
  predicate IdsBelow<T>(m: map<int, T>, next: int) {
    1 <= next && forall id :: id in m ==> 1 <= id < next
  }

  /** The `UNIQUE(student_id, sport_id)` constraint of the `results` table. */
  predicate UniquePairs(results: map<int, ResultRow>) {
    forall a, b ::
      (a in results && b in results
       && results[a].studentId == results[b].studentId
       && results[a].sportId == results[b].sportId) ==> a == b
  }

  predicate Valid(t: Tables) {
    && IdsBelow(t.classes, t.nextClassId)
    && IdsBelow(t.students, t.nextStudentId)
    && IdsBelow(t.sports, t.nextSportId)
    && IdsBelow(t.results, t.nextResultId)
    && UniquePairs(t.results)
  }

  /** A freshly created database file: empty tables, every counter at 1. */
  function Empty(): (t: Tables)
    ensures Valid(t)
    ensures t.classes == map[] && t.students == map[] && t.sports == map[] && t.results == map[]
  {
    Tables(map[], 1, map[], 1, map[], 1, map[], 1)
  }

  /**
   * `SELECT id FROM classes WHERE name = ?` through `db.get`: the first row of
   * the scan, which the model takes as the lowest id in `[lo, hi)`.
   */
  function ClassNamed(classes: map<int, ClassRow>, name: string, lo: int, hi: int): (r: Option<int>)
    ensures r.Some? ==> lo <= r.value < hi && r.value in classes && classes[r.value].name == name
    ensures r.Some? ==> forall id :: lo <= id < r.value && id in classes ==> classes[id].name != name
    ensures r.None? ==> forall id :: lo <= id < hi && id in classes ==> classes[id].name != name
    decreases hi - lo
  {
    if lo >= hi then None
    else if lo in classes && classes[lo].name == name then Some(lo)
    else ClassNamed(classes, name, lo + 1, hi)
  }

  /** The class-name lookup over the whole `classes` table. */
  function FindClass(t: Tables, name: string): (r: Option<int>)
    requires Valid(t)
    ensures r.Some? ==> r.value in t.classes && t.classes[r.value].name == name
    ensures r.None? <==> forall id :: id in t.classes ==> t.classes[id].name != name
  {
    ClassNamed(t.classes, name, 1, t.nextClassId)
  }

  /**
   * `SELECT * FROM students WHERE class_id = ? AND student_number = ?` through
   * `db.get`: the lowest matching id in `[lo, hi)`.
   */
  function StudentWith(students: map<int, StudentRow>, classId: int, number: string, lo: int, hi: int): (r: Option<int>)
    ensures r.Some? ==>
      (lo <= r.value < hi && r.value in students
       && students[r.value].classId == classId && students[r.value].studentNumber == number)
    ensures r.Some? ==> forall id :: lo <= id < r.value && id in students ==>
      !(students[id].classId == classId && students[id].studentNumber == number)
    ensures r.None? ==> forall id :: lo <= id < hi && id in students ==>
      !(students[id].classId == classId && students[id].studentNumber == number)
    decreases hi - lo
  {
    if lo >= hi then None
    else if lo in students && students[lo].classId == classId && students[lo].studentNumber == number then Some(lo)
    else StudentWith(students, classId, number, lo + 1, hi)
  }

  /** `INSERT INTO classes (name) VALUES (?)`: the new row takes the next id. */
  function AddClass(t: Tables, name: string): (r: Tables)
    requires Valid(t)
    ensures Valid(r)
  {
    t.(classes := t.classes[t.nextClassId := ClassRow(name)], nextClassId := t.nextClassId + 1)
  }

  /** `INSERT INTO sports (name) VALUES (?)`. */
  function AddSport(t: Tables, name: string): (r: Tables)
    requires Valid(t)
    ensures Valid(r)
  {
    t.(sports := t.sports[t.nextSportId := SportRow(name)], nextSportId := t.nextSportId + 1)
  }

  /** `INSERT INTO students (class_id, student_number, name_zh, name_en) VALUES (?, ?, ?, ?)`. */
  function AddStudent(t: Tables, row: StudentRow): (r: Tables)
    requires Valid(t)
    ensures Valid(r)
  {
    t.(students := t.students[t.nextStudentId := row], nextStudentId := t.nextStudentId + 1)
  }

  /** `UPDATE classes SET name = ? WHERE id = ?`: no row changes when the id is absent. */
  function RenameClass(t: Tables, id: int, name: string): (r: Tables)
    requires Valid(t)
    ensures Valid(r)
  {
    if id in t.classes then t.(classes := t.classes[id := ClassRow(name)]) else t
  }

  /** `UPDATE sports SET name = ? WHERE id = ?`. */
  function RenameSport(t: Tables, id: int, name: string): (r: Tables)
    requires Valid(t)
    ensures Valid(r)
  {
    if id in t.sports then t.(sports := t.sports[id := SportRow(name)]) else t
  }

  /** `UPDATE students SET class_id = ?, student_number = ?, name_zh = ?, name_en = ? WHERE id = ?`. */
  function SetStudent(t: Tables, id: int, row: StudentRow): (r: Tables)
    requires Valid(t)
    ensures Valid(r)
  {
    if id in t.students then t.(students := t.students[id := row]) else t
  }

  /** `DELETE FROM classes WHERE id = ?`: students keep their now dangling `class_id`. */
  function DropClass(t: Tables, id: int): (r: Tables)
    requires Valid(t)
    ensures Valid(r)
  {
    t.(classes := t.classes - {id})
  }

  /** `DELETE FROM sports WHERE id = ?`: results keep their dangling `sport_id`. */
  function DropSport(t: Tables, id: int): (r: Tables)
    requires Valid(t)
    ensures Valid(r)
  {
    t.(sports := t.sports - {id})
  }

  /** `DELETE FROM students WHERE id = ?`: results keep their dangling `student_id`. */
  function DropStudent(t: Tables, id: int): (r: Tables)
    requires Valid(t)
    ensures Valid(r)
  {
    t.(students := t.students - {id})
  }

  /**
   * After a class insert, the lookup by name still finds an older class of
   * that name, and otherwise finds the new one; the lookup of any other name
   * is unchanged.
   */
  lemma AddClassFinds(t: Tables, name: string, other: string)
    requires Valid(t)
    ensures FindClass(AddClass(t, name), name) == if FindClass(t, name).Some? then FindClass(t, name) else Some(t.nextClassId)
    ensures other != name ==> FindClass(AddClass(t, name), other) == FindClass(t, other)
  {
    var t1 := AddClass(t, name);
    LookupAfterInsert(t, t1, name);
    if other != name {
      LookupAfterInsert(t, t1, other);
    }
  }

  /** The lowest id with a name does not move when a row is added above every id. */
  lemma LookupAfterInsert(t: Tables, t1: Tables, name: string)
    requires Valid(t) && Valid(t1)
    requires t1.nextClassId == t.nextClassId + 1
    requires forall id :: id in t.classes ==> id in t1.classes && t1.classes[id] == t.classes[id]
    requires forall id :: id in t1.classes && id != t.nextClassId ==> id in t.classes
    ensures FindClass(t, name).Some? ==> FindClass(t1, name) == FindClass(t, name)
    ensures FindClass(t, name).None? && t.nextClassId in t1.classes && t1.classes[t.nextClassId].name == name
      ==> FindClass(t1, name) == Some(t.nextClassId)
    ensures FindClass(t, name).None? && !(t.nextClassId in t1.classes && t1.classes[t.nextClassId].name == name)
      ==> FindClass(t1, name).None?
  {
    var a := FindClass(t, name);
    var b := FindClass(t1, name);
    if b.Some? && b.value != t.nextClassId {
      assert b.value in t.classes;
    }
    if a.Some? {
      assert a.value in t1.classes;
    }
  }
}
