/**
 * The administration handlers' required-field rules, the student search, and
 * what the table edits they make do to the join that the leaderboard and
 * the showcase read.
 */
module Admin {
  import opened Wrappers
  import opened Tables
  import opened Query
  import Recorder

  /** JavaScript truthiness of a string field: absent and "" are falsy. */
  predicate Truthy(x: Option<string>) {
    x.Some? && x.value != ""
  }

  const ClassNameRequired: string := "班別名稱不能為空"
  const SportNameRequired: string := "運動名稱不能為空"
  const StudentIncomplete: string := "資料不完整"
  const SearchKeyMissing: string := "缺少class_id或student_number"
  const StudentNotFound: string := "找不到學生"

  /** The body of `POST /api/students` and `PUT /api/students/:id`. */
  datatype StudentForm = StudentForm(classId: Option<int>, studentNumber: Option<string>, nameZh: Option<string>, nameEn: Option<string>)

  /** `!class_id || !student_number || !name_zh || !name_en` is false. */
  predicate FormComplete(f: StudentForm) {
    Recorder.Given(f.classId) && Truthy(f.studentNumber) && Truthy(f.nameZh) && Truthy(f.nameEn)
  }

  function FormRow(f: StudentForm): (r: StudentRow)
    requires FormComplete(f)
    ensures r.classId != 0 && r.studentNumber != "" && r.nameZh != "" && r.nameEn != ""
  {
    StudentRow(f.classId.value, f.studentNumber.value, f.nameZh.value, f.nameEn.value)
  }

  /** What `GET /api/students/search` answers. */
  datatype SearchReply =
    | MissingKey                        // 400 缺少class_id或student_number
    | NotFound                          // 404 找不到學生
    | Found(id: int, row: StudentRow)

  /**
   * `GET /api/students/search?class_id=&student_number=`: both parameters are
   * required (an empty one counts as missing); the answer is the first
   * student of that class with that number.
   */
  function Search(t: Tables, classId: Option<int>, number: Option<string>): (r: SearchReply)
    requires Valid(t)
    ensures r.MissingKey? <==> classId.None? || !Truthy(number)
    ensures r.Found? ==> && r.id in t.students && r.row == t.students[r.id]
                         && r.row.classId == classId.value && r.row.studentNumber == number.value
    ensures r.Found? ==> forall id :: id in t.students && id < r.id ==>
      !(t.students[id].classId == classId.value && t.students[id].studentNumber == number.value)
    ensures r.NotFound? <==> classId.Some? && Truthy(number) && forall id :: id in t.students ==>
      !(t.students[id].classId == classId.value && t.students[id].studentNumber == number.value)
  {
    if classId.None? || !Truthy(number) then MissingKey
    else
      match StudentWith(t.students, classId.value, number.value, 1, t.nextStudentId)
      case None => NotFound
      case Some(id) => Found(id, t.students[id])
  }

  /**
   * A student just added is found by its class and number: it is the new row
   * unless an older student already had that class and number.
   */
  lemma SearchFindsAdded(t: Tables, row: StudentRow)
    requires Valid(t) && row.studentNumber != ""
    ensures var r := Search(AddStudent(t, row), Some(row.classId), Some(row.studentNumber));
      && r.Found?
      && (Search(t, Some(row.classId), Some(row.studentNumber)).NotFound? ==> r == Found(t.nextStudentId, row))
      && (Search(t, Some(row.classId), Some(row.studentNumber)).Found? ==> r == Search(t, Some(row.classId), Some(row.studentNumber)))
  {
    var t1 := AddStudent(t, row);
    var a := Search(t, Some(row.classId), Some(row.studentNumber));
    var b := Search(t1, Some(row.classId), Some(row.studentNumber));
    assert t1.students[t.nextStudentId] == row;
    if b.Found? && b.id != t.nextStudentId {
      assert b.id in t.students;
    }
    if a.Found? {
      assert a.id in t1.students && a.id < t.nextStudentId;
    }
  }

  /**
   * Deleting a class drops from the join exactly the results of its
   * students, and the leaderboard filtered on it becomes empty.
   */
  lemma DroppedClassLeavesJoin(t: Tables, id: int)
    requires Valid(t)
    ensures forall x :: x in Join(DropClass(t, id)) <==> x in Join(t) && x.classId != id
    ensures Leaderboard(DropClass(t, id), Filter(None, Some(id))) == []
  {
    var t1 := DropClass(t, id);
    forall x ensures InJoin(t1, x) <==> InJoin(t, x) && x.classId != id {
      if InJoin(t, x) && x.classId != id {
        assert Joins(t1, x.resultId);
      }
    }
  }

  /** Deleting a sport drops from the join exactly its results. */
  lemma DroppedSportLeavesJoin(t: Tables, id: int)
    requires Valid(t)
    ensures forall x :: x in Join(DropSport(t, id)) <==> x in Join(t) && x.sportId != id
  {
    var t1 := DropSport(t, id);
    forall x ensures InJoin(t1, x) <==> InJoin(t, x) && x.sportId != id {
      if InJoin(t, x) && x.sportId != id {
        assert Joins(t1, x.resultId);
      }
    }
  }

  /** Deleting a student drops from the join exactly that student's results. */
  lemma DroppedStudentLeavesJoin(t: Tables, id: int)
    requires Valid(t)
    ensures forall x :: x in Join(DropStudent(t, id)) <==> x in Join(t) && x.studentId != id
  {
    var t1 := DropStudent(t, id);
    forall x ensures InJoin(t1, x) <==> InJoin(t, x) && x.studentId != id {
      if InJoin(t, x) && x.studentId != id {
        assert Joins(t1, x.resultId);
      }
    }
  }

  /** Renaming a class renames it in every joined row of its students and leaves other rows as they were. */
  lemma RenamedClassShowsNewName(t: Tables, id: int, name: string)
    requires Valid(t)
    ensures forall x :: x in Join(t) && x.classId == id ==> x.(className := name) in Join(RenameClass(t, id, name))
    ensures forall x :: x in Join(t) && x.classId != id ==> x in Join(RenameClass(t, id, name))
  {
    var t1 := RenameClass(t, id, name);
    forall x | InJoin(t, x) ensures InJoin(t1, if x.classId == id then x.(className := name) else x) {
      assert Joins(t1, x.resultId);
    }
  }
}
