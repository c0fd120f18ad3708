/**
 * `addDefaultData`: the default classes, sports and students, each table
 * filled only when its `COUNT(*)` is 0, and a default student inserted only
 * when its class name resolves to a class.
 */
module Seeding {
  import opened Wrappers
  import opened Tables

  const DefaultClasses: seq<string> := ["高一甲", "高一乙", "高二甲", "高二乙", "高三甲", "高三乙"]

  const DefaultSports: seq<string> :=
    ["100公尺短跑", "200公尺短跑", "400公尺短跑", "800公尺中跑", "1500公尺長跑", "立定跳遠", "跳高", "鉛球"]

  /** A default student, naming its class by name. */
  datatype SeedStudent = SeedStudent(className: string, studentNumber: string, nameZh: string, nameEn: string)

  const DefaultStudents: seq<SeedStudent> := [
    SeedStudent("高一甲", "001", "陳大明", "Chen Da Ming"),
    SeedStudent("高一甲", "002", "林小美", "Lin Xiao Mei"),
    SeedStudent("高一甲", "003", "王志強", "Wang Zhi Qiang"),
    SeedStudent("高一乙", "001", "張雅玲", "Zhang Ya Ling"),
    SeedStudent("高一乙", "002", "李建華", "Li Jian Hua"),
    SeedStudent("高一乙", "003", "劉思琪", "Liu Si Qi"),
    SeedStudent("高二甲", "001", "黃文傑", "Huang Wen Jie"),
    SeedStudent("高二甲", "002", "吳佳穎", "Wu Jia Ying"),
    SeedStudent("高二乙", "001", "許志明", "Xu Zhi Ming"),
    SeedStudent("高二乙", "002", "蔡雅雯", "Cai Ya Wen")
  ]

  /** The class inserts, in order; nothing else changes. */
  function AddClasses(t: Tables, names: seq<string>): (r: Tables)
    requires Valid(t)
    ensures Valid(r)
    ensures r.nextClassId == t.nextClassId + |names|
    ensures r == t.(classes := r.classes, nextClassId := r.nextClassId)
  {
    if names == [] then t
    else AddClass(AddClasses(t, names[..|names| - 1]), names[|names| - 1])
  }

  /** The sport inserts, in order. */
  function AddSports(t: Tables, names: seq<string>): (r: Tables)
    requires Valid(t)
    ensures Valid(r)
    ensures r.nextSportId == t.nextSportId + |names|
    ensures r == t.(sports := r.sports, nextSportId := r.nextSportId)
  {
    if names == [] then t
    else AddSport(AddSports(t, names[..|names| - 1]), names[|names| - 1])
  }

  /** The row a default student is inserted as, under class `classId`. */
  function SeedRow(classId: int, s: SeedStudent): StudentRow {
    StudentRow(classId, s.studentNumber, s.nameZh, s.nameEn)
  }

  /** The student loop: look the class up by name, insert only when found. */
  function AddSeedStudents(t: Tables, ss: seq<SeedStudent>): (r: Tables)
    requires Valid(t)
    ensures Valid(r)
    ensures r == t.(students := r.students, nextStudentId := r.nextStudentId)
  {
    if ss == [] then t
    else
      var prev := AddSeedStudents(t, ss[..|ss| - 1]);
      var s := ss[|ss| - 1];
      match FindClass(prev, s.className)
      case None => prev
      case Some(classId) => AddStudent(prev, SeedRow(classId, s))
  }

  /** The student loop over one more default student is one more lookup-and-insert. */
  lemma AddSeedStudentsStep(t: Tables, ss: seq<SeedStudent>, i: nat)
    requires Valid(t) && i < |ss|
    ensures var prev := AddSeedStudents(t, ss[..i]);
      AddSeedStudents(t, ss[..i + 1]) ==
        match FindClass(prev, ss[i].className)
        case None => prev
        case Some(classId) => AddStudent(prev, SeedRow(classId, ss[i]))
  {
    assert ss[..i + 1][..i] == ss[..i];
  }

  /** The three phases in order; the later counts see the rows the earlier phases added. */
  function Seed(t: Tables): (r: Tables)
    requires Valid(t)
    ensures Valid(r)
  {
    var t1 := if |t.classes| == 0 then AddClasses(t, DefaultClasses) else t;
    var t2 := if |t1.sports| == 0 then AddSports(t1, DefaultSports) else t1;
    if |t2.students| == 0 then AddSeedStudents(t2, DefaultStudents) else t2
  }

  /** Class ids `lo`, `lo + 1`, … hold `names` in order, and there is no other class. */
  ghost predicate ClassesNumbered(m: map<int, ClassRow>, lo: int, names: seq<string>) {
    && (forall id :: id in m <==> lo <= id < lo + |names|)
    && (forall i :: 0 <= i < |names| ==> m[lo + i] == ClassRow(names[i]))
  }

  /** Sport ids `lo`, `lo + 1`, … hold `names` in order, and there is no other sport. */
  ghost predicate SportsNumbered(m: map<int, SportRow>, lo: int, names: seq<string>) {
    && (forall id :: id in m <==> lo <= id < lo + |names|)
    && (forall i :: 0 <= i < |names| ==> m[lo + i] == SportRow(names[i]))
  }

  /** Into an empty classes table the inserts number the names from the counter upwards. */
  lemma {:induction false} AddClassesNumbers(t: Tables, names: seq<string>)
    requires Valid(t) && t.classes == map[]
    ensures ClassesNumbered(AddClasses(t, names).classes, t.nextClassId, names)
  {
    if names != [] {
      var n := |names| - 1;
      AddClassesNumbers(t, names[..n]);
      var prev := AddClasses(t, names[..n]);
      forall i | 0 <= i < n ensures AddClasses(t, names).classes[t.nextClassId + i] == ClassRow(names[i]) {
        assert names[..n][i] == names[i];
      }
    }
  }

  /** Into an empty sports table the inserts number the names from the counter upwards. */
  lemma {:induction false} AddSportsNumbers(t: Tables, names: seq<string>)
    requires Valid(t) && t.sports == map[]
    ensures SportsNumbered(AddSports(t, names).sports, t.nextSportId, names)
  {
    if names != [] {
      var n := |names| - 1;
      AddSportsNumbers(t, names[..n]);
      var prev := AddSports(t, names[..n]);
      forall i | 0 <= i < n ensures AddSports(t, names).sports[t.nextSportId + i] == SportRow(names[i]) {
        assert names[..n][i] == names[i];
      }
    }
  }

  /** Student inserts leave the classes, hence every class lookup, alone. */
  lemma StudentsKeepLookups(t: Tables, ss: seq<SeedStudent>, name: string)
    requires Valid(t)
    ensures FindClass(AddSeedStudents(t, ss), name) == FindClass(t, name)
  {
  }

  /**
   * When every default student's class name resolves, the students are
   * inserted in order at consecutive ids, each under the class its name
   * resolves to.
   */
  lemma {:induction false} SeedStudentsStored(t: Tables, ss: seq<SeedStudent>)
    requires Valid(t)
    requires forall k :: 0 <= k < |ss| ==> FindClass(t, ss[k].className).Some?
    ensures var r := AddSeedStudents(t, ss);
      && r.nextStudentId == t.nextStudentId + |ss|
      && (forall id :: id in r.students <==> id in t.students || t.nextStudentId <= id < r.nextStudentId)
      && forall k :: 0 <= k < |ss| ==>
        r.students[t.nextStudentId + k] == SeedRow(FindClass(t, ss[k].className).value, ss[k])
  {
    if ss != [] {
      var n := |ss| - 1;
      forall k | 0 <= k < n ensures FindClass(t, ss[..n][k].className).Some? {
        assert ss[..n][k] == ss[k];
      }
      SeedStudentsStored(t, ss[..n]);
      var prev := AddSeedStudents(t, ss[..n]);
      StudentsKeepLookups(t, ss[..n], ss[n].className);
      forall k | 0 <= k < n
        ensures AddSeedStudents(t, ss).students[t.nextStudentId + k] == SeedRow(FindClass(t, ss[k].className).value, ss[k])
      {
        assert ss[..n][k] == ss[k];
      }
    }
  }

  /** A student whose class is missing is skipped; it does not stop the loop. */
  lemma UnresolvedStudentSkipped(t: Tables, ss: seq<SeedStudent>, s: SeedStudent)
    requires Valid(t) && FindClass(t, s.className).None?
    ensures AddSeedStudents(t, ss + [s]) == AddSeedStudents(t, ss)
  {
    assert (ss + [s])[..|ss|] == ss;
    StudentsKeepLookups(t, ss, s.className);
  }

  /** A database whose three tables all hold rows is left as it is. */
  lemma SeedLeavesFilledDatabase(t: Tables)
    requires Valid(t) && |t.classes| > 0 && |t.sports| > 0 && |t.students| > 0
    ensures Seed(t) == t
  {
  }

  /** A table that already holds rows is never seeded, whatever the others hold. */
  lemma SeedOnlyFillsEmptyTables(t: Tables)
    requires Valid(t)
    ensures |t.classes| > 0 ==> Seed(t).classes == t.classes
    ensures |t.sports| > 0 ==> Seed(t).sports == t.sports
    ensures |t.students| > 0 ==> Seed(t).students == t.students
    ensures Seed(t).results == t.results
  {
  }

  lemma DefaultClassNamesDistinct()
    ensures forall i, j :: 0 <= i < j < |DefaultClasses| ==> DefaultClasses[i] != DefaultClasses[j]
  {
  }

  /**
   * On a new database: classes 1..6 are the default classes in order, sports
   * 1..8 the default sports, and students 1..10 the default students in
   * order, each under the class of its name.
   */
  lemma SeedFreshDatabase()
    ensures var t := Seed(Empty());
      && ClassesNumbered(t.classes, 1, DefaultClasses)
      && SportsNumbered(t.sports, 1, DefaultSports)
      && t.nextStudentId == 11
      && (forall id :: id in t.students <==> 1 <= id <= 10)
      && forall k :: 0 <= k < 10 ==>
        t.students[1 + k] == SeedRow(ClassIndex(DefaultStudents[k].className) + 1, DefaultStudents[k])
  {
    var t0 := Empty();
    var t1 := AddClasses(t0, DefaultClasses);
    AddClassesNumbers(t0, DefaultClasses);
    assert 1 in t1.classes;
    var t2 := AddSports(t1, DefaultSports);
    AddSportsNumbers(t1, DefaultSports);
    assert 1 in t2.sports;
    forall k | 0 <= k < 10
      ensures FindClass(t2, DefaultStudents[k].className) == Some(ClassIndex(DefaultStudents[k].className) + 1)
    {
      FindNumbered(t2, DefaultStudents[k].className);
    }
    SeedStudentsStored(t2, DefaultStudents);
  }

  /** The 0-based position of a name among the default classes. */
  function ClassIndex(name: string): (i: nat)
    ensures i < |DefaultClasses|
    ensures name in DefaultClasses ==> DefaultClasses[i] == name
  {
    if name == DefaultClasses[0] then 0
    else if name == DefaultClasses[1] then 1
    else if name == DefaultClasses[2] then 2
    else if name == DefaultClasses[3] then 3
    else if name == DefaultClasses[4] then 4
    else 5
  }

  /** In the seeded classes table a default class name resolves to its position plus one. */
  lemma FindNumbered(t: Tables, name: string)
    requires Valid(t) && ClassesNumbered(t.classes, 1, DefaultClasses)
    requires name in DefaultClasses
    ensures FindClass(t, name) == Some(ClassIndex(name) + 1)
  {
    DefaultClassNamesDistinct();
    var i := ClassIndex(name);
    assert t.classes[1 + i] == ClassRow(name);
  }

  /** Seeding a new database a second time changes nothing. */
  lemma SeedFreshTwice()
    ensures Seed(Seed(Empty())) == Seed(Empty())
  {
    SeedFreshDatabase();
    var t := Seed(Empty());
    assert 1 in t.classes && 1 in t.sports && 1 in t.students;
    SeedLeavesFilledDatabase(t);
  }
}
