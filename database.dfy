/**
 * The server's database handle and the handlers that write to it, run one
 * request at a time. Each handler changes the tables in place; its contract
 * ties the new tables and its answer to the table-level function that
 * specifies it.
 */
module Server {
  import opened Wrappers
  import opened Tables
  import Store = Tables
  import opened Recorder
  import Query
  import Grouping
  import opened CsvImport
  import opened BulkImport
  import opened Admin
  import Seeding

  /** What the class, sport and student handlers answer. */
  datatype Answer =
    | BadRequest(error: string)   // 400 with that message
    | Created(id: int)            // { id: this.lastID, ... }
    | Saved(id: int)              // { id, ... }, whether or not a row had that id
    | Removed                     // { success: true }

  /** What `POST /api/students/bulk-import` answers. */
  datatype ImportReply =
    | Refused(verdict: Verdict)                 // 400 before anything is written
    | Imported(processed: nat, failed: nat)     // 成功匯入{processed}筆學生資料

  class Database {
    var classes: map<int, ClassRow>
    var nextClassId: int
    var students: map<int, StudentRow>
    var nextStudentId: int
    var sports: map<int, SportRow>
    var nextSportId: int
    var results: map<int, ResultRow>
    var nextResultId: int

    /** The tables as one value, for the queries. */
    function Snapshot(): Tables
      reads this
    {
      Tables(classes, nextClassId, students, nextStudentId, sports, nextSportId, results, nextResultId)
    }

    ghost predicate Valid()
      reads this
    {
      Store.Valid(Snapshot())
    }

    /** The `results` table and its counter. */
    function Results(): ResultStore
      reads this
    {
      ResultStore(results, nextResultId)
    }

    /** A new database file: empty tables. */
    constructor()
      ensures Valid() && Snapshot() == Empty()
    {
      classes, nextClassId := map[], 1;
      students, nextStudentId := map[], 1;
      sports, nextSportId := map[], 1;
      results, nextResultId := map[], 1;
    }

    /** `POST /api/results`: keep the faster of the stored and the submitted time. */
    method SubmitResult(s: Submission) returns (reply: Reply)
      requires Valid()
      modifies this
      ensures Valid()
      ensures Record(old(Results()), s) == Outcome(Results(), reply)
      ensures Snapshot() == old(Snapshot()).(results := results, nextResultId := nextResultId)
    {
      if !s.studentId.Some? || s.studentId.value == 0 || !s.sportId.Some? || s.sportId.value == 0
         || s.timeMin.None? || s.timeSec.None? {
        return Reply.Incomplete;
      }
      var row := ResultRow(s.studentId.value, s.sportId.value, s.timeMin.value, s.timeSec.value, s.photo);
      var existing := FindPair(results, row.studentId, row.sportId);
      match existing
      case None =>
        results := results[nextResultId := row];
        reply := Inserted(nextResultId, row);
        nextResultId := nextResultId + 1;
      case Some(id) =>
        var newTotal := row.timeMin * 60 + row.timeSec;
        var existingTotal := results[id].timeMin * 60 + results[id].timeSec;
        if newTotal < existingTotal {
          results := results[id := row];
          reply := Compared(true);
        } else {
          reply := Compared(false);
        }
    }

    /** `PUT /api/results/:id`: overwrite the time, and the photo path when a photo was sent. */
    method CorrectResult(id: int, timeMin: Option<int>, timeSec: Option<int>, photo: Option<string>) returns (reply: OverwriteReply)
      requires Valid()
      modifies this
      ensures Valid()
      ensures Overwrite(old(Results()), id, timeMin, timeSec, photo) == (Results(), reply)
      ensures Snapshot() == old(Snapshot()).(results := results)
    {
      if timeMin.None? || timeSec.None? {
        return TimeIncomplete;
      }
      if id in results {
        var cur := results[id];
        var newPhoto := if photo.Some? && photo.value != "" then photo else cur.photo;
        results := results[id := ResultRow(cur.studentId, cur.sportId, timeMin.value, timeSec.value, newPhoto)];
      }
      reply := Overwritten(id);
    }

    /** `DELETE /api/results/:id`. */
    method DeleteResult(id: int)
      requires Valid()
      modifies this
      ensures Valid()
      ensures Results() == Remove(old(Results()), id)
      ensures Snapshot() == old(Snapshot()).(results := results)
    {
      results := results - {id};
    }

    /** `GET /api/showcase`: the sport-then-time stream, grouped by sport. */
    method GetShowcase() returns (groups: seq<Grouping.Group>)
      requires Valid()
      ensures groups == Grouping.Showcase(Snapshot())
    {
      var rows := Query.ShowcaseStream(Snapshot());
      groups := Grouping.GroupBySport(rows);
    }

    /**
     * One row of the insert loop: look its class up by name, create the class
     * when there is none, insert the student. `ok` is false when the call
     * that `f` names fails, which ends the row.
     */
    method ImportOne(s: StudentInput, f: Fault) returns (ok: bool)
      requires Valid()
      modifies this
      ensures Valid()
      ensures (Snapshot(), ok) == ImportRow(old(Snapshot()), s, f)
    {
      if f.LookupFails? {
        return false;
      }
      var found := FindClass(Snapshot(), s.className);
      var classId := 0;
      if found.None? {
        if f.ClassInsertFails? {
          return false;
        }
        classes := classes[nextClassId := ClassRow(s.className)];
        classId := nextClassId;
        nextClassId := nextClassId + 1;
      } else {
        classId := found.value;
      }
      if f.StudentInsertFails? {
        return false;
      }
      students := students[nextStudentId := RowFor(classId, s)];
      nextStudentId := nextStudentId + 1;
      ok := true;
    }

    /** The insert loop of the bulk import, each row with the driver fault it meets. */
    method ImportRows(rows: seq<StudentInput>, faults: seq<Fault>) returns (processed: nat, failed: nat)
      requires Valid() && |faults| == |rows|
      modifies this
      ensures Valid()
      ensures ImportAll(old(Snapshot()), rows, faults) == Progress(Snapshot(), processed, failed)
    {
      ghost var t0 := Snapshot();
      processed, failed := 0, 0;
      var i := 0;
      while i < |rows|
        invariant 0 <= i <= |rows|
        invariant Valid()
        invariant ImportAll(t0, rows[..i], faults[..i]) == Progress(Snapshot(), processed, failed)
      {
        processed, failed := ImportNext(t0, rows, faults, i, processed, failed);
        i := i + 1;
      }
      assert rows[..i] == rows && faults[..i] == faults;
    }

    /** One pass of the insert loop: row `i` is inserted or counted as failed. */
    method ImportNext(ghost t0: Tables, rows: seq<StudentInput>, faults: seq<Fault>, i: nat, processed: nat, failed: nat)
      returns (processed': nat, failed': nat)
      requires Valid() && Store.Valid(t0) && |faults| == |rows| && i < |rows|
      requires ImportAll(t0, rows[..i], faults[..i]) == Progress(Snapshot(), processed, failed)
      modifies this
      ensures Valid()
      ensures ImportAll(t0, rows[..i + 1], faults[..i + 1]) == Progress(Snapshot(), processed', failed')
    {
      ImportAllStep(t0, rows, faults, i);
      ghost var step := ImportRow(Snapshot(), rows[i], faults[i]);
      var ok := ImportOne(rows[i], faults[i]);
      assert step == (Snapshot(), ok);
      if ok {
        processed', failed' := processed + 1, failed;
      } else {
        processed', failed' := processed, failed + 1;
      }
    }

    /**
     * `POST /api/students/bulk-import`: refuse the upload, writing nothing,
     * unless it has lines and every line is valid; otherwise insert its rows.
     * `faults[k]` is the driver failure row `k` meets (none past the end).
     */
    method BulkImport(csv: Option<string>, faults: seq<Fault>) returns (reply: ImportReply)
      requires Valid()
      modifies this
      ensures Valid()
      ensures reply.Refused? <==> csv.None? || Lines(csv.value) == [] || Errors(Parses(Lines(csv.value))) != []
      ensures reply.Refused? ==> Snapshot() == old(Snapshot())
      ensures csv.None? ==> reply == Refused(NoFile)
      ensures csv.Some? && Lines(csv.value) == [] ==> reply == Refused(EmptyFile)
      ensures reply.Refused? && csv.Some? && Lines(csv.value) != [] ==>
        reply.verdict == Rejected(Errors(Parses(Lines(csv.value))))
      ensures reply.Imported? ==>
        var rows := Students(Parses(Lines(csv.value)));
        ImportAll(old(Snapshot()), rows, FaultsFor(faults, |rows|)) == Progress(Snapshot(), reply.processed, reply.failed)
    {
      var v := Prepare(csv);
      if !v.Accepted? {
        return Refused(v);
      }
      var processed, failed := ImportRows(v.rows, FaultsFor(faults, |v.rows|));
      reply := Imported(processed, failed);
    }

    /** `POST /api/classes`. */
    method CreateClass(name: Option<string>) returns (a: Answer)
      requires Valid()
      modifies this
      ensures Valid()
      ensures !Truthy(name) ==> a == BadRequest(ClassNameRequired) && Snapshot() == old(Snapshot())
      ensures Truthy(name) ==> a == Created(old(nextClassId)) && Snapshot() == AddClass(old(Snapshot()), name.value)
    {
      if name.None? || name.value == "" {
        return BadRequest(ClassNameRequired);
      }
      a := Created(nextClassId);
      classes := classes[nextClassId := ClassRow(name.value)];
      nextClassId := nextClassId + 1;
    }

    /** `PUT /api/classes/:id`: success even when no class has that id. */
    method UpdateClass(id: int, name: Option<string>) returns (a: Answer)
      requires Valid()
      modifies this
      ensures Valid()
      ensures !Truthy(name) ==> a == BadRequest(ClassNameRequired) && Snapshot() == old(Snapshot())
      ensures Truthy(name) ==> a == Saved(id) && Snapshot() == RenameClass(old(Snapshot()), id, name.value)
    {
      if name.None? || name.value == "" {
        return BadRequest(ClassNameRequired);
      }
      if id in classes {
        classes := classes[id := ClassRow(name.value)];
      }
      a := Saved(id);
    }

    /** `DELETE /api/classes/:id`. */
    method DeleteClass(id: int) returns (a: Answer)
      requires Valid()
      modifies this
      ensures Valid()
      ensures a == Removed && Snapshot() == DropClass(old(Snapshot()), id)
    {
      classes := classes - {id};
      a := Removed;
    }

    /** `POST /api/sports`. */
    method CreateSport(name: Option<string>) returns (a: Answer)
      requires Valid()
      modifies this
      ensures Valid()
      ensures !Truthy(name) ==> a == BadRequest(SportNameRequired) && Snapshot() == old(Snapshot())
      ensures Truthy(name) ==> a == Created(old(nextSportId)) && Snapshot() == AddSport(old(Snapshot()), name.value)
    {
      if name.None? || name.value == "" {
        return BadRequest(SportNameRequired);
      }
      a := Created(nextSportId);
      sports := sports[nextSportId := SportRow(name.value)];
      nextSportId := nextSportId + 1;
    }

    /** `PUT /api/sports/:id`. */
    method UpdateSport(id: int, name: Option<string>) returns (a: Answer)
      requires Valid()
      modifies this
      ensures Valid()
      ensures !Truthy(name) ==> a == BadRequest(SportNameRequired) && Snapshot() == old(Snapshot())
      ensures Truthy(name) ==> a == Saved(id) && Snapshot() == RenameSport(old(Snapshot()), id, name.value)
    {
      if name.None? || name.value == "" {
        return BadRequest(SportNameRequired);
      }
      if id in sports {
        sports := sports[id := SportRow(name.value)];
      }
      a := Saved(id);
    }

    /** `DELETE /api/sports/:id`. */
    method DeleteSport(id: int) returns (a: Answer)
      requires Valid()
      modifies this
      ensures Valid()
      ensures a == Removed && Snapshot() == DropSport(old(Snapshot()), id)
    {
      sports := sports - {id};
      a := Removed;
    }

    /** `POST /api/students`: the class id is not checked against `classes`. */
    method CreateStudent(form: StudentForm) returns (a: Answer)
      requires Valid()
      modifies this
      ensures Valid()
      ensures !FormComplete(form) ==> a == BadRequest(StudentIncomplete) && Snapshot() == old(Snapshot())
      ensures FormComplete(form) ==> a == Created(old(nextStudentId)) && Snapshot() == AddStudent(old(Snapshot()), FormRow(form))
    {
      if !Recorder.Given(form.classId) || !Truthy(form.studentNumber) || !Truthy(form.nameZh) || !Truthy(form.nameEn) {
        return BadRequest(StudentIncomplete);
      }
      a := Created(nextStudentId);
      students := students[nextStudentId := StudentRow(form.classId.value, form.studentNumber.value, form.nameZh.value, form.nameEn.value)];
      nextStudentId := nextStudentId + 1;
    }

    /** `PUT /api/students/:id`. */
    method UpdateStudent(id: int, form: StudentForm) returns (a: Answer)
      requires Valid()
      modifies this
      ensures Valid()
      ensures !FormComplete(form) ==> a == BadRequest(StudentIncomplete) && Snapshot() == old(Snapshot())
      ensures FormComplete(form) ==> a == Saved(id) && Snapshot() == SetStudent(old(Snapshot()), id, FormRow(form))
    {
      if !Recorder.Given(form.classId) || !Truthy(form.studentNumber) || !Truthy(form.nameZh) || !Truthy(form.nameEn) {
        return BadRequest(StudentIncomplete);
      }
      if id in students {
        students := students[id := StudentRow(form.classId.value, form.studentNumber.value, form.nameZh.value, form.nameEn.value)];
      }
      a := Saved(id);
    }

    /** `DELETE /api/students/:id`. */
    method DeleteStudent(id: int) returns (a: Answer)
      requires Valid()
      modifies this
      ensures Valid()
      ensures a == Removed && Snapshot() == DropStudent(old(Snapshot()), id)
    {
      students := students - {id};
      a := Removed;
    }

    /** `addDefaultData`: fill each empty table with its defaults, classes first. */
    method Seed()
      requires Valid()
      modifies this
      ensures Valid()
      ensures Snapshot() == Seeding.Seed(old(Snapshot()))
    {
      if |classes| == 0 {
        SeedClasses();
      }
      if |sports| == 0 {
        SeedSports();
      }
      if |students| == 0 {
        SeedStudents();
      }
    }

    method SeedClasses()
      requires Valid()
      modifies this
      ensures Valid()
      ensures Snapshot() == Seeding.AddClasses(old(Snapshot()), Seeding.DefaultClasses)
    {
      ghost var t0 := Snapshot();
      var i := 0;
      while i < |Seeding.DefaultClasses|
        invariant 0 <= i <= |Seeding.DefaultClasses|
        invariant Valid() && Snapshot() == Seeding.AddClasses(t0, Seeding.DefaultClasses[..i])
      {
        assert Seeding.DefaultClasses[..i + 1][..i] == Seeding.DefaultClasses[..i];
        classes := classes[nextClassId := ClassRow(Seeding.DefaultClasses[i])];
        nextClassId := nextClassId + 1;
        i := i + 1;
      }
      assert Seeding.DefaultClasses[..i] == Seeding.DefaultClasses;
    }

    method SeedSports()
      requires Valid()
      modifies this
      ensures Valid()
      ensures Snapshot() == Seeding.AddSports(old(Snapshot()), Seeding.DefaultSports)
    {
      ghost var t0 := Snapshot();
      var i := 0;
      while i < |Seeding.DefaultSports|
        invariant 0 <= i <= |Seeding.DefaultSports|
        invariant Valid() && Snapshot() == Seeding.AddSports(t0, Seeding.DefaultSports[..i])
      {
        assert Seeding.DefaultSports[..i + 1][..i] == Seeding.DefaultSports[..i];
        sports := sports[nextSportId := SportRow(Seeding.DefaultSports[i])];
        nextSportId := nextSportId + 1;
        i := i + 1;
      }
      assert Seeding.DefaultSports[..i] == Seeding.DefaultSports;
    }

    /** The student loop: a student whose class name does not resolve is skipped. */
    method SeedStudents()
      requires Valid()
      modifies this
      ensures Valid()
      ensures Snapshot() == Seeding.AddSeedStudents(old(Snapshot()), Seeding.DefaultStudents)
    {
      ghost var t0 := Snapshot();
      var i := 0;
      while i < |Seeding.DefaultStudents|
        invariant 0 <= i <= |Seeding.DefaultStudents|
        invariant Valid() && Snapshot() == Seeding.AddSeedStudents(t0, Seeding.DefaultStudents[..i])
      {
        Seeding.AddSeedStudentsStep(t0, Seeding.DefaultStudents, i);
        SeedStudent(Seeding.DefaultStudents[i]);
        i := i + 1;
      }
      assert Seeding.DefaultStudents[..i] == Seeding.DefaultStudents;
    }

    /** One default student: looked up by class name, inserted only when the class is found. */
    method SeedStudent(s: Seeding.SeedStudent)
      requires Valid()
      modifies this
      ensures Valid()
      ensures Snapshot() ==
        match FindClass(old(Snapshot()), s.className)
        case None => old(Snapshot())
        case Some(classId) => AddStudent(old(Snapshot()), Seeding.SeedRow(classId, s))
    {
      var classId := FindClass(Snapshot(), s.className);
      if classId.Some? && classId.value != 0 {
        students := students[nextStudentId := Seeding.SeedRow(classId.value, s)];
        nextStudentId := nextStudentId + 1;
      }
    }
  }
}
