/**
 * The scenarios the repository's tests exercise, computed from the model.
 */
module ReportExamples {
  import opened Wrappers
  import opened IntParsing
  import opened Rounding
  import opened Grouping
  import opened StableSort
  import opened Reports

  /** A data row of the test files: `student_name,subject,teacher_name,date,grade`. */
  function CsvRow(student: string, subject: string, teacher: string, date: string, grade: string): Record {
    map["student_name" := student, "subject" := subject, "teacher_name" := teacher, "date" := date, "grade" := grade]
  }

  lemma ReadDigit(student: string, subject: string, teacher: string, date: string, c: char)
    requires IsDigit(c)
    ensures ReadGrade(CsvRow(student, subject, teacher, date, [c])) == Some(Grade(student, DigitValue(c)))
  {
    var d := DigitValue(c);
    assert DigitChar(d) == c;
    assert ShowInt(d) == [c];
    ParseShowRoundTrip(d, "", "");
    assert "" + [c] + "" == [c];
  }

  const Semenova := "Семенова Елена"
  const Titov := "Титов Владислав"
  const Vlasova := "Власова Алина"

  lemma NamesDistinct()
    ensures Semenova != Titov && Semenova != Vlasova && Titov != Vlasova
  {
    assert Semenova[0] != Titov[0] && Semenova[0] != Vlasova[0] && Titov[0] != Vlasova[0];
  }

  // the rows of the sample file of the tests
  const S0 := CsvRow(Semenova, "Английский язык", "Ковалева Анна", "2023-10-10", "5")
  const S1 := CsvRow(Titov, "География", "Орлов Сергей", "2023-10-12", "4")
  const S2 := CsvRow(Vlasova, "Биология", "Ткаченко Наталья", "2023-10-15", "5")
  const S3 := CsvRow(Semenova, "Математика", "Иванов Петр", "2023-10-16", "4")
  const S4 := CsvRow(Titov, "Физика", "Сидоров Иван", "2023-10-17", "3")

  /** `g` holds the three sample students in this key order, with these lists. */
  predicate SampleState(g: StudentGrades, semenova: seq<int>, titov: seq<int>, vlasova: seq<int>) {
    && g.order == [Semenova, Titov, Vlasova]
    && Semenova in g.grades && g.grades[Semenova] == semenova
    && Titov in g.grades && g.grades[Titov] == titov
    && Vlasova in g.grades && g.grades[Vlasova] == vlasova
  }

  /** The grades the five sample rows carry. */
  lemma SampleGrades()
    ensures ReadGrade(S0) == Some(Grade(Semenova, 5))
    ensures ReadGrade(S1) == Some(Grade(Titov, 4))
    ensures ReadGrade(S2) == Some(Grade(Vlasova, 5))
    ensures ReadGrade(S3) == Some(Grade(Semenova, 4))
    ensures ReadGrade(S4) == Some(Grade(Titov, 3))
  {
    ReadDigit(Semenova, "Английский язык", "Ковалева Анна", "2023-10-10", '5');
    ReadDigit(Titov, "География", "Орлов Сергей", "2023-10-12", '4');
    ReadDigit(Vlasova, "Биология", "Ткаченко Наталья", "2023-10-15", '5');
    ReadDigit(Semenova, "Математика", "Иванов Петр", "2023-10-16", '4');
    ReadDigit(Titov, "Физика", "Сидоров Иван", "2023-10-17", '3');
  }

  /** The sample's grades, record by record, as `ReadGrade` reads them. */
  predicate SampleRows(rs: seq<Record>) {
    && |rs| == 5
    && ReadGrade(rs[0]) == Some(Grade(Semenova, 5))
    && ReadGrade(rs[1]) == Some(Grade(Titov, 4))
    && ReadGrade(rs[2]) == Some(Grade(Vlasova, 5))
    && ReadGrade(rs[3]) == Some(Grade(Semenova, 4))
    && ReadGrade(rs[4]) == Some(Grade(Titov, 3))
  }

  /** A record with a usable grade appends it to its student's list. */
  lemma ScanGrade(g: StudentGrades, r: Record, name: string, grade: int)
    requires g.Valid() && ReadGrade(r) == Some(Grade(name, grade))
    ensures Scan(g, r) == Append(g, name, grade)
  {
  }

  /** A further grade for Семенова or Титов extends that list alone. */
  lemma AppendSeen(g: StudentGrades, semenova: seq<int>, titov: seq<int>, vlasova: seq<int>, grade: int)
    requires g.Valid() && SampleState(g, semenova, titov, vlasova)
    ensures SampleState(Append(g, Semenova, grade), semenova + [grade], titov, vlasova)
    ensures SampleState(Append(g, Titov, grade), semenova, titov + [grade], vlasova)
  {
    NamesDistinct();
  }

  /** Власова's first grade adds her as the third key. */
  lemma AppendVlasova(g: StudentGrades, grade: int)
    requires g.Valid() && g.order == [Semenova, Titov]
    requires Semenova in g.grades && g.grades[Semenova] == [5] && Titov in g.grades && g.grades[Titov] == [4]
    ensures SampleState(Append(g, Vlasova, grade), [5], [4], [grade])
  {
    NamesDistinct();
    assert Vlasova !in g.order;
  }

  lemma SampleAfter1(rs: seq<Record>)
    requires SampleRows(rs)
    ensures GroupSpec(rs[..1]).order == [Semenova]
    ensures Semenova in GroupSpec(rs[..1]).grades && GroupSpec(rs[..1]).grades[Semenova] == [5]
  {
    GroupSpecStep(rs, 0);
    assert rs[..0] == [];
    ScanGrade(GroupSpec(rs[..0]), rs[0], Semenova, 5);
  }

  lemma SampleAfter2(rs: seq<Record>)
    requires SampleRows(rs)
    ensures GroupSpec(rs[..2]).order == [Semenova, Titov]
    ensures Semenova in GroupSpec(rs[..2]).grades && GroupSpec(rs[..2]).grades[Semenova] == [5]
    ensures Titov in GroupSpec(rs[..2]).grades && GroupSpec(rs[..2]).grades[Titov] == [4]
  {
    var g := GroupSpec(rs[..1]);
    SampleAfter1(rs);
    NamesDistinct();
    assert Titov !in g.grades;
    assert GroupSpec(rs[..2]) == Scan(g, rs[1]) by {
      GroupSpecStep(rs, 1);
    }
    ScanGrade(g, rs[1], Titov, 4);
  }

  /** The sample after its first three records: three keys in first-seen order. */
  lemma SampleAfter3(rs: seq<Record>)
    requires SampleRows(rs)
    ensures SampleState(GroupSpec(rs[..3]), [5], [4], [5])
  {
    SampleAfter2(rs);
    GroupSpecStep(rs, 2);
    ScanGrade(GroupSpec(rs[..2]), rs[2], Vlasova, 5);
    AppendVlasova(GroupSpec(rs[..2]), 5);
  }

  /** A second grade for a student already seen extends their list and keeps the key order. */
  lemma SampleAfter4(rs: seq<Record>)
    requires SampleRows(rs)
    ensures SampleState(GroupSpec(rs[..4]), [5, 4], [4], [5])
  {
    var g := GroupSpec(rs[..3]);
    SampleAfter3(rs);
    assert GroupSpec(rs[..4]) == Scan(g, rs[3]) by {
      GroupSpecStep(rs, 3);
    }
    ScanGrade(g, rs[3], Semenova, 4);
    AppendSeen(g, [5], [4], [5], 4);
  }

  /** The sample grouped: keys in first-seen order, each with its grades in file order. */
  lemma SampleGrouping(rs: seq<Record>)
    requires SampleRows(rs)
    ensures SampleState(GroupSpec(rs), [5, 4], [4, 3], [5])
  {
    var g := GroupSpec(rs[..4]);
    SampleAfter4(rs);
    assert GroupSpec(rs) == Scan(g, rs[4]);
    ScanGrade(g, rs[4], Titov, 3);
    AppendSeen(g, [5, 4], [4], [5], 3);
  }

  /** The averaging pass on the sample: 4.5, 3.5 and 5.0 in key order. */
  lemma SampleAverages(g: StudentGrades)
    requires SampleState(g, [5, 4], [4, 3], [5])
    ensures Averages(g.order, g.grades) == [Row(Semenova, 450), Row(Titov, 350), Row(Vlasova, 500)]
  {
    assert AverageHundredths([5, 4]) == 450 by { assert [5, 4][..1] == [5]; AverageIs([5, 4], 450); }
    assert AverageHundredths([4, 3]) == 350 by { assert [4, 3][..1] == [4]; AverageIs([4, 3], 350); }
    assert AverageHundredths([5]) == 500 by { AverageIs([5], 500); }
    assert g.order[..0] == [];
    AveragesStep(g.order, g.grades, 0);
    AveragesStep(g.order, g.grades, 1);
    AveragesStep(g.order, g.grades, 2);
    assert g.order[..3] == g.order;
  }

  /** The sort on the sample: Vlasova's 5.0 moves ahead of both others. */
  lemma SampleSort()
    ensures SortDesc([Row(Semenova, 450), Row(Titov, 350), Row(Vlasova, 500)], AverageKey)
         == [Row(Vlasova, 500), Row(Semenova, 450), Row(Titov, 350)]
  {
    var s, t, v := Row(Semenova, 450), Row(Titov, 350), Row(Vlasova, 500);
    var rows := [s, t, v];
    assert rows[..0] == [];
    SortDescPrefix(rows, AverageKey, 0);
    assert SortDesc(rows[..1], AverageKey) == [s];
    SortDescPrefix(rows, AverageKey, 1);
    assert SortDesc(rows[..2], AverageKey) == [s, t];
    SortDescPrefix(rows, AverageKey, 2);
    assert rows[..3] == rows;
    assert Insert([s], v, AverageKey) == [v, s] by {
      assert [s][..0] == [];
    }
    assert Insert([s, t], v, AverageKey) == Insert([s], v, AverageKey) + [t] by {
      assert [s, t][..1] == [s];
    }
  }

  /** `test_report_sorting`: Власова 5.0, then Семенова 4.5, then Титов 3.5. */
  lemma SampleReport()
    ensures Report([S0, S1, S2, S3, S4]) == [Row(Vlasova, 500), Row(Semenova, 450), Row(Titov, 350)]
  {
    SampleGrades();
    SampleGrouping([S0, S1, S2, S3, S4]);
    SampleAverages(GroupSpec([S0, S1, S2, S3, S4]));
    SampleSort();
  }

  // the rows of the invalid-grade file of the tests: the middle one has no number
  const I0 := S0
  const I1 := CsvRow(Titov, "География", "Орлов Сергей", "2023-10-12", "invalid")
  const I2 := S2

  /** The unparsable grade raises `ValueError`; the row is skipped and the scan goes on. */
  lemma InvalidGradeSkipped()
    ensures ReadGrade(I1) == None
    ensures GroupSpec([I0, I1, I2]) == GroupSpec([I0, I2])
  {
    ParseRejects();
    SkippedRecord([I0], I1);
    assert [I0] + [I1] == [I0, I1];
    assert GroupSpec([I0, I1, I2]) == Scan(GroupSpec([I0, I1]), I2) by {
      assert [I0, I1, I2][..2] == [I0, I1];
    }
    assert GroupSpec([I0, I2]) == Scan(GroupSpec([I0]), I2) by {
      assert [I0, I2][..1] == [I0];
    }
  }

  /** Any three records read as the invalid-grade file: Семенова 5, an unusable grade, Власова 5. */
  predicate InvalidRows(rs: seq<Record>) {
    && |rs| == 3
    && ReadGrade(rs[0]) == Some(Grade(Semenova, 5))
    && ReadGrade(rs[1]) == None
    && ReadGrade(rs[2]) == Some(Grade(Vlasova, 5))
  }

  /** The invalid-grade file groups into Семенова [5] and Власова [5]; Титов is no key. */
  lemma InvalidGrouping(rs: seq<Record>)
    requires InvalidRows(rs)
    ensures GroupSpec(rs).order == [Semenova, Vlasova]
    ensures Semenova in GroupSpec(rs).grades && GroupSpec(rs).grades[Semenova] == [5]
    ensures Vlasova in GroupSpec(rs).grades && GroupSpec(rs).grades[Vlasova] == [5]
  {
    NamesDistinct();
    GroupSpecStep(rs, 0);
    assert rs[..0] == [];
    ScanGrade(GroupSpec(rs[..0]), rs[0], Semenova, 5);
    GroupSpecStep(rs, 1);
    assert GroupSpec(rs) == Scan(GroupSpec(rs[..2]), rs[2]);
    ScanGrade(GroupSpec(rs[..2]), rs[2], Vlasova, 5);
  }

  /** The invalid-grade file's averaging pass: 5.0 for both students, in key order. */
  lemma InvalidAverages(g: StudentGrades)
    requires g.order == [Semenova, Vlasova]
    requires Semenova in g.grades && g.grades[Semenova] == [5] && Vlasova in g.grades && g.grades[Vlasova] == [5]
    ensures Averages(g.order, g.grades) == [Row(Semenova, 500), Row(Vlasova, 500)]
  {
    AverageIs([5], 500);
    assert g.order[..0] == [];
    AveragesStep(g.order, g.grades, 0);
    AveragesStep(g.order, g.grades, 1);
    assert g.order[..2] == g.order;
  }

  /** Two rows with the same 5.0: the sort keeps them in first-seen order. */
  lemma InvalidSort()
    ensures SortDesc([Row(Semenova, 500), Row(Vlasova, 500)], AverageKey) == [Row(Semenova, 500), Row(Vlasova, 500)]
  {
    var rows := [Row(Semenova, 500), Row(Vlasova, 500)];
    assert rows[..0] == [];
    SortDescPrefix(rows, AverageKey, 0);
    SortDescPrefix(rows, AverageKey, 1);
    assert rows[..2] == rows;
  }

  /** The invalid-grade file's report: Титов is absent, and the two 5.0 rows keep first-seen order. */
  lemma InvalidGradeReport()
    ensures Report([I0, I1, I2]) == [Row(Semenova, 500), Row(Vlasova, 500)]
  {
    SampleGrades();
    InvalidGradeSkipped();
    InvalidGrouping([I0, I1, I2]);
    InvalidAverages(GroupSpec([I0, I1, I2]));
    InvalidSort();
  }
}
