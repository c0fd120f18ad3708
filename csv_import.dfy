/**
 * The parsing and all-or-nothing validation of `POST /api/students/bulk-import`.
 * The upload is split on '\n' and blank lines are dropped; each remaining
 * line is trimmed and split on ','; each field is trimmed and then loses
 * every '"'. There is no quoting: a ',' inside quotes still separates fields.
 */
module CsvImport {
  import opened Wrappers
  import opened JsString

  /** The pieces of `s` whose trimmed text is not empty, in order. */
  function NonBlank(parts: seq<string>): (r: seq<string>)
    ensures |r| <= |parts|
    ensures forall x :: x in r <==> x in parts && Trim(x) != ""
  {
    if parts == [] then []
    else
      assert parts == [parts[0]] + parts[1..];
      (if Trim(parts[0]) != "" then [parts[0]] else []) + NonBlank(parts[1..])
  }

  /**
   * `filter` keeps order and repeats: `NonBlank` maps a concatenation to the
   * concatenation of the parts, and keeps one piece exactly when it is not blank.
   */
  lemma {:induction false} NonBlankConcat(a: seq<string>, b: seq<string>)
    ensures NonBlank(a + b) == NonBlank(a) + NonBlank(b)
    ensures forall x :: NonBlank([x]) == if Trim(x) != "" then [x] else []
  {
    NonBlankAppend(a, b);
    forall x ensures NonBlank([x]) == if Trim(x) != "" then [x] else [] {
      assert [x][1..] == [];
    }
  }

  lemma {:induction false} NonBlankAppend(a: seq<string>, b: seq<string>)
    ensures NonBlank(a + b) == NonBlank(a) + NonBlank(b)
  {
    if a == [] {
      assert a + b == b;
    } else {
      var ab := a + b;
      assert ab[0] == a[0] && ab[1..] == a[1..] + b;
      NonBlankAppend(a[1..], b);
      var h := if Trim(a[0]) != "" then [a[0]] else [];
      var x, y := NonBlank(a[1..]), NonBlank(b);
      assert NonBlank(ab) == h + (x + y);
      assert NonBlank(a) == h + x;
      ConcatAssoc(h, x, y);
    }
  }

  /** `csvData.split('\n').filter(line => line.trim() !== '')`. */
  function Lines(csv: string): seq<string> {
    NonBlank(Split(csv, '\n'))
  }

  /** `field.trim().replace(/"/g, '')`. */
  function CleanField(f: string): (r: string)
    ensures '"' !in r
  {
    RemoveAll(Trim(f), '"')
  }

  /**
   * A cleaned field is the field cut to its white-space margins, with every
   * `"` dropped and the other characters kept in order.
   */
  lemma CleanFieldContents(f: string)
    ensures exists t :: IsTrimOf(f, t) && CleanField(f) == RemoveAll(t, '"')
  {
    TrimMargins(f);
  }

  /** `line.trim().split(',').map(field => field.trim().replace(/"/g, ''))`. */
  function Fields(line: string): (fs: seq<string>)
    ensures forall i :: 0 <= i < |fs| ==> '"' !in fs[i]
  {
    var parts := Split(Trim(line), ',');
    seq(|parts|, i requires 0 <= i < |parts| => CleanField(parts[i]))
  }

  /** `{ className, studentNumber, nameZh, nameEn }`: one row of the upload. */
  datatype StudentInput = StudentInput(className: string, studentNumber: string, nameZh: string, nameEn: string)

  function AsFields(s: StudentInput): seq<string> {
    [s.className, s.studentNumber, s.nameZh, s.nameEn]
  }

  /** What one line amounts to. */
  datatype Parsed =
    | Student(input: StudentInput)
    | WrongFieldCount     // fields.length !== 4
    | Incomplete          // a field is empty after cleaning

  /** A line's fields make a student row iff there are exactly four and none is empty; they keep their order. */
  function ParseFields(fs: seq<string>): (r: Parsed)
    ensures r.WrongFieldCount? <==> |fs| != 4
    ensures r.Student? <==> |fs| == 4 && forall i :: 0 <= i < 4 ==> fs[i] != ""
    ensures r.Student? ==> AsFields(r.input) == fs
  {
    if |fs| != 4 then WrongFieldCount
    else if fs[0] == "" || fs[1] == "" || fs[2] == "" || fs[3] == "" then Incomplete
    else Student(StudentInput(fs[0], fs[1], fs[2], fs[3]))
  }

  function ParseLine(line: string): Parsed {
    ParseFields(Fields(line))
  }

  /** The verdict on every line, in order. */
  function Parses(lines: seq<string>): (ps: seq<Parsed>)
    ensures |ps| == |lines|
  {
    seq(|lines|, i requires 0 <= i < |lines| => ParseLine(lines[i]))
  }

  /** An entry of `errors`, naming its line by its 1-based position among the non-blank lines. */
  datatype LineError =
    | FormatError(line: nat)       // 第{n}行：格式錯誤，應為4個欄位
    | MissingData(line: nat)       // 第{n}行：資料不完整

  /** The error a line with verdict `p` at 1-based position `n` contributes, if any. */
  function ErrorFor(p: Parsed, n: nat): (r: Option<LineError>)
    ensures r.None? <==> p.Student?
    ensures r.Some? ==> r.value.line == n
  {
    match p
    case Student(_) => None
    case WrongFieldCount => Some(FormatError(n))
    case Incomplete => Some(MissingData(n))
  }

  /** The text pushed onto `errors`. */
  function Message(e: LineError): string {
    match e
    case FormatError(n) => "第" + NatToString(n) + "行：格式錯誤，應為4個欄位"
    case MissingData(n) => "第" + NatToString(n) + "行：資料不完整"
  }

  /** The rows of the valid lines, in order. */
  function Students(ps: seq<Parsed>): (r: seq<StudentInput>)
    ensures |r| <= |ps|
  {
    if ps == [] then []
    else Students(ps[..|ps| - 1]) + (match ps[|ps| - 1] case Student(s) => [s] case _ => [])
  }

  /** One error per invalid line, in line order. */
  function Errors(ps: seq<Parsed>): (r: seq<LineError>)
    ensures |r| <= |ps|
  {
    if ps == [] then []
    else Errors(ps[..|ps| - 1]) + (match ErrorFor(ps[|ps| - 1], |ps|) case Some(e) => [e] case None => [])
  }

  /** The validation loop: each line goes to `students` or to `errors`. */
  method Validate(lines: seq<string>) returns (students: seq<StudentInput>, errors: seq<LineError>)
    ensures students == Students(Parses(lines)) && errors == Errors(Parses(lines))
  {
    students := [];
    errors := [];
    var i := 0;
    while i < |lines|
      invariant 0 <= i <= |lines|
      invariant students == Students(Parses(lines)[..i]) && errors == Errors(Parses(lines)[..i])
    {
      assert Parses(lines)[..i + 1][..i] == Parses(lines)[..i];
      var fields := Fields(lines[i]);
      if |fields| != 4 {
        errors := errors + [FormatError(i + 1)];
      } else if fields[0] == "" || fields[1] == "" || fields[2] == "" || fields[3] == "" {
        errors := errors + [MissingData(i + 1)];
      } else {
        students := students + [StudentInput(fields[0], fields[1], fields[2], fields[3])];
      }
      i := i + 1;
    }
    assert Parses(lines)[..i] == Parses(lines);
  }

  /**
   * Every line lands in exactly one of the two lists: the counts add up, the
   * errors name strictly increasing line positions, each error is the one
   * its line calls for, and every invalid line has its error.
   */
  lemma EveryLineAccounted(ps: seq<Parsed>)
    ensures |Students(ps)| + |Errors(ps)| == |ps|
    ensures var es := Errors(ps);
      forall k :: 0 <= k < |es| ==> 1 <= es[k].line <= |ps| && ErrorFor(ps[es[k].line - 1], es[k].line) == Some(es[k])
    ensures var es := Errors(ps);
      forall k, m :: 0 <= k < m < |es| ==> es[k].line < es[m].line
    ensures forall i :: 0 <= i < |ps| && !ps[i].Student? ==> ErrorFor(ps[i], i + 1).value in Errors(ps)
  {
    LinesCounted(ps);
    ErrorsNameTheirLines(ps);
    ErrorsComplete(ps);
  }

  /** `e` is the error of the line it names. */
  predicate NamesItsLine(ps: seq<Parsed>, e: LineError) {
    1 <= e.line <= |ps| && ErrorFor(ps[e.line - 1], e.line) == Some(e)
  }

  lemma {:induction false} LinesCounted(ps: seq<Parsed>)
    ensures |Students(ps)| + |Errors(ps)| == |ps|
  {
    if ps != [] {
      LinesCounted(ps[..|ps| - 1]);
    }
  }

  lemma {:induction false} ErrorsNameTheirLines(ps: seq<Parsed>)
    ensures forall k :: 0 <= k < |Errors(ps)| ==> NamesItsLine(ps, Errors(ps)[k])
    ensures forall k, m :: 0 <= k < m < |Errors(ps)| ==> Errors(ps)[k].line < Errors(ps)[m].line
  {
    if ps != [] {
      var p := ps[..|ps| - 1];
      ErrorsNameTheirLines(p);
      var ep := Errors(p);
      var es := Errors(ps);
      forall k | 0 <= k < |es| ensures NamesItsLine(ps, es[k]) {
        if k < |ep| {
          assert NamesItsLine(p, ep[k]);
          assert es[k] == ep[k];
          assert ps[ep[k].line - 1] == p[ep[k].line - 1];
        }
      }
      forall k, m | 0 <= k < m < |es| ensures es[k].line < es[m].line {
        assert es[k] == ep[k];
        if m < |ep| {
          assert es[m] == ep[m];
        }
      }
    }
  }

  lemma {:induction false} ErrorsComplete(ps: seq<Parsed>)
    ensures forall i :: 0 <= i < |ps| && !ps[i].Student? ==> ErrorFor(ps[i], i + 1).value in Errors(ps)
  {
    if ps != [] {
      var p := ps[..|ps| - 1];
      ErrorsComplete(p);
      assert forall i :: 0 <= i < |p| ==> p[i] == ps[i];
    }
  }

  /** The rows are those of the valid lines; when every line is valid there is one row per line. */
  lemma {:induction false} StudentsAreTheValidLines(ps: seq<Parsed>)
    ensures forall s :: s in Students(ps) <==> Student(s) in ps
    ensures (forall i :: 0 <= i < |ps| ==> ps[i].Student?) ==> |Students(ps)| == |ps|
  {
    if ps != [] {
      var p := ps[..|ps| - 1];
      StudentsAreTheValidLines(p);
      assert ps == p + [ps[|ps| - 1]];
    }
  }

  /**
   * `students.push` in line order: the rows of a concatenation are the rows
   * of its parts, in order; one line gives its row when valid and none otherwise.
   */
  lemma {:induction false} StudentsConcat(a: seq<Parsed>, b: seq<Parsed>)
    ensures Students(a + b) == Students(a) + Students(b)
    ensures forall p :: Students([p]) == if p.Student? then [p.input] else []
  {
    StudentsAppend(a, b);
    forall p ensures Students([p]) == if p.Student? then [p.input] else [] {
      assert [p][..0] == [];
    }
  }

  lemma {:induction false} StudentsAppend(a: seq<Parsed>, b: seq<Parsed>)
    ensures Students(a + b) == Students(a) + Students(b)
  {
    if b == [] {
      assert a + b == a;
    } else {
      var ab := a + b;
      assert ab[|ab| - 1] == b[|b| - 1] && ab[..|ab| - 1] == a + b[..|b| - 1];
      StudentsAppend(a, b[..|b| - 1]);
    }
  }

  /** No errors exactly when every line is valid. */
  lemma NoErrorsIffAllValid(ps: seq<Parsed>)
    ensures Errors(ps) == [] <==> forall i :: 0 <= i < |ps| ==> ps[i].Student?
  {
    EveryLineAccounted(ps);
    if Errors(ps) != [] {
      var e := Errors(ps)[0];
      assert !ps[e.line - 1].Student?;
    }
  }

  /** The handler's answer before anything is written. */
  datatype Verdict =
    | NoFile                              // 請選擇CSV檔案
    | EmptyFile                           // CSV檔案為空
    | Rejected(errors: seq<LineError>)    // CSV檔案有錯誤, with every line error
    | Accepted(rows: seq<StudentInput>)

  /** From the upload (absent when no file was sent) to the rows to insert, or the reason for 400. */
  method Prepare(csv: Option<string>) returns (v: Verdict)
    ensures csv.None? <==> v.NoFile?
    ensures v.EmptyFile? <==> csv.Some? && Lines(csv.value) == []
    ensures v.Rejected? ==> csv.Some? && v.errors == Errors(Parses(Lines(csv.value))) && v.errors != []
    ensures v.Accepted? ==> csv.Some? && v.rows == Students(Parses(Lines(csv.value))) && Errors(Parses(Lines(csv.value))) == []
    ensures csv.Some? && Lines(csv.value) != [] ==> (v.Accepted? || v.Rejected?)
  {
    if csv.None? {
      return NoFile;
    }
    var lines := Lines(csv.value);
    if |lines| == 0 {
      return EmptyFile;
    }
    var students, errors := Validate(lines);
    if |errors| > 0 {
      return Rejected(errors);
    }
    return Accepted(students);
  }

  /** Quotes go after trimming, so a quoted blank field keeps its blank and counts as filled. */
  lemma QuotedBlankIsFilled()
    ensures CleanField("\" \"") == " "
  {
    var q := "\" \"";
    assert TrimStart(q) == q && TrimEnd(q) == q;
    assert q[1..][1..] == "\"";
    assert RemoveAll(q[1..][1..], '"') == "";
  }
}
