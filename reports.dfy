/**
 * The student-performance report: group the records by student, average each
 * student's grades, and rank the students by average, highest first.
 */
module Reports {
  import opened Wrappers
  import opened IntParsing
  import opened Rounding
  import opened Grouping
  import opened StableSort

  /** One output row; `averageGrade` is in hundredths (`450` is the reported `4.5`). */
  datatype Row = Row(studentName: string, averageGrade: int)

  /** The sort key, `x['average_grade']`. */
  function AverageKey(r: Row): int { r.averageGrade }

  /** The second loop: one row per student in key order, for each student whose list is non-empty. */
  function Averages(order: seq<string>, grades: map<string, seq<int>>): seq<Row>
    requires forall n :: n in order ==> n in grades
  {
    if |order| == 0 then []
    else
      var name := order[|order| - 1];
      Averages(order[..|order| - 1], grades)
        + if grades[name] != [] then [Row(name, AverageHundredths(grades[name]))] else []
  }

  /** The non-empty guard never drops a student: one row per key, in key order. */
  lemma {:induction false} AveragesExact(order: seq<string>, grades: map<string, seq<int>>)
    requires forall n :: n in order ==> n in grades && grades[n] != []
    ensures |Averages(order, grades)| == |order|
    ensures forall i :: 0 <= i < |order| ==>
              Averages(order, grades)[i] == Row(order[i], AverageHundredths(grades[order[i]]))
  {
    if |order| > 0 {
      var init := order[..|order| - 1];
      AveragesExact(init, grades);
      forall i | 0 <= i < |order| ensures Averages(order, grades)[i] == Row(order[i], AverageHundredths(grades[order[i]])) {
        if i < |init| {
          assert order[i] == init[i];
        }
      }
    }
  }

  /** The report `generate` returns for `data`. */
  function Report(data: seq<Record>): seq<Row> {
    var g := GroupSpec(data);
    SortDesc(Averages(g.order, g.grades), AverageKey)
  }

  /** The position, in `data`, of the first record that gave a row's student a grade. */
  function FirstSeenRank(data: seq<Record>): Row -> int {
    (r: Row) => FirstSeen(data, r.studentName)
  }

  /** The rows before sorting: one per student, in first-seen order. */
  lemma UnsortedRows(data: seq<Record>)
    ensures var g := GroupSpec(data);
            && |Averages(g.order, g.grades)| == |g.order|
            && (forall i :: 0 <= i < |g.order| ==>
                  GradesOf(data, g.order[i]) != []
                  && Averages(g.order, g.grades)[i] == Row(g.order[i], AverageHundredths(GradesOf(data, g.order[i]))))
            && IncreasingBy(Averages(g.order, g.grades), FirstSeenRank(data))
  {
    var g := GroupSpec(data);
    GroupSpecCorrect(data);
    AveragesExact(g.order, g.grades);
  }

  /** Each row names a student with usable grades and carries their exact mean, rounded. */
  lemma ReportRowsAreAverages(data: seq<Record>)
    ensures forall i :: 0 <= i < |Report(data)| ==>
              GradesOf(data, Report(data)[i].studentName) != []
              && Report(data)[i].averageGrade == AverageHundredths(GradesOf(data, Report(data)[i].studentName))
  {
    var g := GroupSpec(data);
    var rows := Averages(g.order, g.grades);
    var r := Report(data);
    UnsortedRows(data);
    SortDescCorrect(rows, AverageKey);
    forall i | 0 <= i < |r|
      ensures GradesOf(data, r[i].studentName) != []
      ensures r[i].averageGrade == AverageHundredths(GradesOf(data, r[i].studentName))
    {
      assert r[i] in multiset(rows);
      var m :| 0 <= m < |rows| && rows[m] == r[i];
    }
  }

  lemma GroupedStudent(data: seq<Record>, name: string)
    requires GradesOf(data, name) != []
    ensures name in GroupSpec(data).order
  {
    GroupSpecCorrect(data);
  }

  /** Every student with at least one usable grade has a row. */
  lemma ReportIsComplete(data: seq<Record>)
    ensures forall name :: GradesOf(data, name) != [] ==>
              exists i :: 0 <= i < |Report(data)| && Report(data)[i].studentName == name
  {
    var g := GroupSpec(data);
    var rows := Averages(g.order, g.grades);
    var r := Report(data);
    UnsortedRows(data);
    SortDescCorrect(rows, AverageKey);
    forall name | GradesOf(data, name) != []
      ensures exists i :: 0 <= i < |r| && r[i].studentName == name
    {
      GroupedStudent(data, name);
      var m :| 0 <= m < |g.order| && g.order[m] == name;
      assert rows[m] in multiset(r);
      var i :| 0 <= i < |r| && r[i] == rows[m];
    }
  }

  /** The rows are in non-increasing order of average grade. */
  lemma ReportIsSorted(data: seq<Record>)
    ensures forall i, j :: 0 <= i < j < |Report(data)| ==> Report(data)[i].averageGrade >= Report(data)[j].averageGrade
  {
    var g := GroupSpec(data);
    SortDescCorrect(Averages(g.order, g.grades), AverageKey);
  }

  /** Students with equal rounded averages keep the order of their first usable record. */
  lemma ReportTiesInFirstSeenOrder(data: seq<Record>)
    ensures forall i, j :: 0 <= i < j < |Report(data)| && Report(data)[i].averageGrade == Report(data)[j].averageGrade ==>
              FirstSeen(data, Report(data)[i].studentName) < FirstSeen(data, Report(data)[j].studentName)
  {
    var g := GroupSpec(data);
    var rows := Averages(g.order, g.grades);
    var r := Report(data);
    UnsortedRows(data);
    SortDescKeepsTies(rows, AverageKey, FirstSeenRank(data));
    forall i, j | 0 <= i < j < |r| && r[i].averageGrade == r[j].averageGrade
      ensures FirstSeen(data, r[i].studentName) < FirstSeen(data, r[j].studentName)
    {
      assert AverageKey(r[i]) == AverageKey(r[j]);
      assert FirstSeenRank(data)(r[i]) < FirstSeenRank(data)(r[j]);
    }
  }

  /** No student has two rows. */
  lemma ReportNamesDistinct(data: seq<Record>)
    ensures forall i, j :: 0 <= i < j < |Report(data)| ==> Report(data)[i].studentName != Report(data)[j].studentName
  {
    // a name twice would carry one average twice, a tie the first-seen order forbids
    ReportRowsAreAverages(data);
    ReportTiesInFirstSeenOrder(data);
  }

  /** No records, no rows. */
  lemma EmptyReport()
    ensures Report([]) == []
  {
  }

  lemma GroupSpecStep(data: seq<Record>, i: nat)
    requires i < |data|
    ensures GroupSpec(data[..i + 1]) == Scan(GroupSpec(data[..i]), data[i])
  {
    assert data[..i + 1][..i] == data[..i];
  }

  lemma AveragesStep(order: seq<string>, grades: map<string, seq<int>>, k: nat)
    requires k < |order| && forall n :: n in order ==> n in grades
    ensures Averages(order[..k + 1], grades) == Averages(order[..k], grades)
              + if grades[order[k]] != [] then [Row(order[k], AverageHundredths(grades[order[k]]))] else []
  {
    assert order[..k + 1][..k] == order[..k];
  }

  /**
   * The second loop of `generate`: one row per student, in key order, for each
   * student whose list is non-empty.
   */
  method AverageRows(order: seq<string>, grades: map<string, seq<int>>) returns (rows: seq<Row>)
    requires forall n :: n in order ==> n in grades
    ensures rows == Averages(order, grades)
  {
    rows := [];
    var k := 0;
    while k < |order|
      invariant 0 <= k <= |order|
      invariant rows == Averages(order[..k], grades)
    {
      var studentGrades := grades[order[k]];
      AveragesStep(order, grades, k);
      if studentGrades != [] {
        rows := rows + [Row(order[k], AverageHundredths(studentGrades))];
      }
      k := k + 1;
    }
    assert order[..k] == order;
  }

  /** A fresh array holding `rows`, for the in-place sort. */
  method RowArray(rows: seq<Row>) returns (a: array<Row>)
    ensures fresh(a) && a[..] == rows
  {
    a := new Row[|rows|](i requires 0 <= i < |rows| => rows[i]);
  }

  /** The report object: `BaseReport.__init__` keeps the records as `data`. */
  class StudentPerformanceReport {
    var data: seq<Record>

    constructor (data: seq<Record>)
      ensures this.data == data
    {
      this.data := data;
    }

    /**
     * The first loop of `generate`: scan `data` once into the grouping
     * dictionary, skipping each record whose `KeyError` or `ValueError` the
     * `try` block catches.
     */
    method GroupGrades() returns (order: seq<string>, grades: map<string, seq<int>>)
      ensures StudentGrades(order, grades) == GroupSpec(data)
    {
      order, grades := [], map[];
      var i := 0;
      while i < |data|
        invariant 0 <= i <= |data|
        invariant StudentGrades(order, grades) == GroupSpec(data[..i])
      {
        var row := data[i];
        GroupSpecStep(data, i);
        ScanCases(StudentGrades(order, grades), row);
        if "student_name" in row {
          var studentName := row["student_name"];
          if "grade" in row {
            var grade := ParseInt(row["grade"]);
            if grade.Some? {
              if studentName in grades {
                grades := grades[studentName := grades[studentName] + [grade.value]];
              } else {
                order := order + [studentName];
                grades := grades[studentName := [grade.value]];
              }
            }
          }
        }
        i := i + 1;
      }
      assert data[..i] == data;
    }

    /**
     * `generate`: the grouping loop, then the averaging loop and the in-place
     * sort, proved to compute `Report(data)`. It reads `data` and changes
     * nothing, so calling it twice gives equal results.
     */
    method Generate() returns (result: seq<Row>)
      ensures result == Report(data)
    {
      var order, grades := GroupGrades();
      ghost var g := GroupSpec(data);
      assert order == g.order && grades == g.grades;

      // the averaging pass, appending one row per student with grades
      var rows := AverageRows(order, grades);

      // the in-place sort by average, highest first
      var a := RowArray(rows);
      SortInPlace(a, AverageKey);
      result := a[..];
    }
  }
}
