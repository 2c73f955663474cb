/**
 * The first pass of the student-performance report: one scan over the records
 * that collects, per student, the grades that parse, in a `defaultdict(list)`
 * whose keys keep their insertion order.
 */
module Grouping {
  import opened Wrappers
  import opened IntParsing

  /** One data row of an input file: column name to cell text. */
  type Record = map<string, string>

  /** What the report takes from a usable record. */
  datatype Grade = Grade(student: string, grade: int)

  /**
   * `row['student_name']` and `int(row['grade'])`; `None` where either raises
   * (`KeyError` for a missing column, `ValueError` for a grade that is not an integer).
   */
  function ReadGrade(r: Record): Option<Grade> {
    if "student_name" !in r || "grade" !in r then None
    else
      match ParseInt(r["grade"])
      case None => None
      case Some(g) => Some(Grade(r["student_name"], g))
  }

  /** Record `r` contributes a grade to student `name`. */
  predicate GradeFor(r: Record, name: string) {
    ReadGrade(r).Some? && ReadGrade(r).value.student == name
  }

  /**
   * The grouping dictionary: its keys in insertion order, and each key's list.
   * Valid: the order lists every key exactly once.
   */
  datatype StudentGrades = StudentGrades(order: seq<string>, grades: map<string, seq<int>>) {
    ghost predicate Valid() {
      && (forall i, j :: 0 <= i < j < |order| ==> order[i] != order[j])
      && (forall n :: n in grades ==> n in order)
      && (forall n :: n in order ==> n in grades)
    }
  }

  function Empty(): StudentGrades {
    StudentGrades([], map[])
  }

  /** `student_grades[name].append(grade)` on a `defaultdict(list)`. */
  function Append(g: StudentGrades, name: string, grade: int): (g': StudentGrades)
    requires g.Valid()
    ensures g'.Valid()
    ensures g'.grades.Keys == g.grades.Keys + {name}
    ensures g'.order == if name in g.grades then g.order else g.order + [name]
    ensures g'.grades[name] == (if name in g.grades then g.grades[name] else []) + [grade]
    ensures forall n :: n in g.grades && n != name ==> g'.grades[n] == g.grades[n]
  {
    if name in g.grades then StudentGrades(g.order, g.grades[name := g.grades[name] + [grade]])
    else StudentGrades(g.order + [name], g.grades[name := [grade]])
  }

  /** One iteration of the scan: a usable record is appended, any other is skipped. */
  function Scan(g: StudentGrades, r: Record): StudentGrades
    requires g.Valid()
  {
    match ReadGrade(r)
    case None => g
    case Some(e) => Append(g, e.student, e.grade)
  }

  /** The branches of the `try` block: which records are appended and which are skipped. */
  lemma ScanCases(g: StudentGrades, r: Record)
    requires g.Valid()
    ensures "student_name" !in r || "grade" !in r ==> Scan(g, r) == g
    ensures "student_name" in r && "grade" in r && ParseInt(r["grade"]).None? ==> Scan(g, r) == g
    ensures "student_name" in r && "grade" in r && ParseInt(r["grade"]).Some? ==>
              Scan(g, r) == Append(g, r["student_name"], ParseInt(r["grade"]).value)
  {
  }

  /**
   * The grouping after scanning `data` in order. Every list it holds is
   * non-empty: a key is created only by an append.
   */
  function GroupSpec(data: seq<Record>): (g: StudentGrades)
    ensures g.Valid()
    ensures forall n :: n in g.grades ==> g.grades[n] != []
  {
    if |data| == 0 then Empty() else Scan(GroupSpec(data[..|data| - 1]), data[|data| - 1])
  }

  /** The grades `data` gives student `name`, in record order. */
  function GradesOf(data: seq<Record>, name: string): seq<int> {
    if |data| == 0 then []
    else
      var last := data[|data| - 1];
      GradesOf(data[..|data| - 1], name) + if GradeFor(last, name) then [ReadGrade(last).value.grade] else []
  }

  /** The index of the first record giving `name` a grade, or `|data|` if there is none. */
  function FirstSeen(data: seq<Record>, name: string): nat {
    if |data| == 0 then 0
    else
      var f := FirstSeen(data[..|data| - 1], name);
      if f < |data| - 1 then f
      else if GradeFor(data[|data| - 1], name) then |data| - 1
      else |data|
  }

  lemma {:induction false} FirstSeenIsFirst(data: seq<Record>, name: string)
    ensures FirstSeen(data, name) <= |data|
    ensures FirstSeen(data, name) < |data| ==> GradeFor(data[FirstSeen(data, name)], name)
    ensures forall k :: 0 <= k < |data| && k < FirstSeen(data, name) ==> !GradeFor(data[k], name)
  {
    if |data| > 0 {
      var init := data[..|data| - 1];
      FirstSeenIsFirst(init, name);
      forall k | 0 <= k < |data| && k < FirstSeen(data, name) ensures !GradeFor(data[k], name) {
        assert k < |init| ==> data[k] == init[k];
      }
      if FirstSeen(init, name) < |init| {
        assert data[FirstSeen(init, name)] == init[FirstSeen(init, name)];
      }
    }
  }

  /**
   * `g` is what scanning `data` must build: exactly the students with a usable
   * record are keys, each with exactly that student's grades in record order,
   * and the keys are ordered by the position of each student's first usable record.
   */
  ghost predicate Describes(g: StudentGrades, data: seq<Record>) {
    && (forall n :: n in g.grades ==> FirstSeen(data, n) < |data|)
    && (forall n :: FirstSeen(data, n) < |data| ==> n in g.grades)
    && (forall n :: n in g.grades ==> g.grades[n] == GradesOf(data, n))
    && (forall n :: n !in g.grades ==> GradesOf(data, n) == [])
    && (forall i, j :: 0 <= i < j < |g.order| ==> FirstSeen(data, g.order[i]) < FirstSeen(data, g.order[j]))
  }

  /** One scan step keeps the facts about a single student `n`. */
  lemma ScanStepFor(data: seq<Record>, n: string)
    requires |data| > 0
    requires Describes(GroupSpec(data[..|data| - 1]), data[..|data| - 1])
    ensures n in GroupSpec(data).grades <==> FirstSeen(data, n) < |data|
    ensures n in GroupSpec(data).grades ==> GroupSpec(data).grades[n] == GradesOf(data, n)
    ensures n !in GroupSpec(data).grades ==> GradesOf(data, n) == []
  {
    var init, last := data[..|data| - 1], data[|data| - 1];
    FirstSeenIsFirst(init, n);
  }

  /** A student already seen keeps the position of their first usable record. */
  lemma FirstSeenKept(data: seq<Record>, n: string)
    requires |data| > 0 && FirstSeen(data[..|data| - 1], n) < |data| - 1
    ensures FirstSeen(data, n) == FirstSeen(data[..|data| - 1], n)
  {
  }

  /** A scan step leaves the key order alone or appends one new student at its end. */
  lemma ScanOrder(g: StudentGrades, r: Record)
    requires g.Valid()
    ensures Scan(g, r).order == g.order
            || (ReadGrade(r).Some? && ReadGrade(r).value.student !in g.grades
                && Scan(g, r).order == g.order + [ReadGrade(r).value.student])
  {
  }

  /** Appending a key seen later than every key already listed keeps the keys in first-seen order. */
  lemma FirstSeenAppend(data: seq<Record>, order: seq<string>, e: string, bound: nat)
    requires forall i, j :: 0 <= i < j < |order| ==> FirstSeen(data, order[i]) < FirstSeen(data, order[j])
    requires forall i :: 0 <= i < |order| ==> FirstSeen(data, order[i]) < bound
    requires FirstSeen(data, e) == bound
    ensures forall i, j :: 0 <= i < j < |order + [e]| ==>
              FirstSeen(data, (order + [e])[i]) < FirstSeen(data, (order + [e])[j])
  {
    forall i, j | 0 <= i < j < |order + [e]|
      ensures FirstSeen(data, (order + [e])[i]) < FirstSeen(data, (order + [e])[j])
    {
      assert (order + [e])[i] == order[i];
      if j < |order| {
        assert (order + [e])[j] == order[j];
      }
    }
  }

  /** One scan step keeps the key order. */
  lemma ScanStepOrder(data: seq<Record>)
    requires |data| > 0
    requires Describes(GroupSpec(data[..|data| - 1]), data[..|data| - 1])
    ensures forall i, j :: 0 <= i < j < |GroupSpec(data).order| ==>
              FirstSeen(data, GroupSpec(data).order[i]) < FirstSeen(data, GroupSpec(data).order[j])
  {
    var init, last := data[..|data| - 1], data[|data| - 1];
    var g0 := GroupSpec(init);
    assert GroupSpec(data) == Scan(g0, last);
    ScanOrder(g0, last);
    forall i | 0 <= i < |g0.order|
      ensures FirstSeen(data, g0.order[i]) == FirstSeen(init, g0.order[i]) < |init|
    {
      assert g0.order[i] in g0.grades;
      FirstSeenKept(data, g0.order[i]);
    }
    if GroupSpec(data).order != g0.order {
      var e := ReadGrade(last).value.student;
      FirstSeenIsFirst(init, e);
      FirstSeenAppend(data, g0.order, e, |init|);
    }
  }

  /** What the scan builds, for every input: see `Describes`. */
  lemma {:induction false} GroupSpecCorrect(data: seq<Record>)
    ensures Describes(GroupSpec(data), data)
  {
    if |data| > 0 {
      GroupSpecCorrect(data[..|data| - 1]);
      forall n
        ensures n in GroupSpec(data).grades <==> FirstSeen(data, n) < |data|
        ensures n in GroupSpec(data).grades ==> GroupSpec(data).grades[n] == GradesOf(data, n)
        ensures n !in GroupSpec(data).grades ==> GradesOf(data, n) == []
      {
        ScanStepFor(data, n);
      }
      ScanStepOrder(data);
    }
  }

  /** A record without a usable grade leaves the grouping exactly as it was. */
  lemma SkippedRecord(data: seq<Record>, r: Record)
    requires ReadGrade(r).None?
    ensures GroupSpec(data + [r]) == GroupSpec(data)
  {
    assert (data + [r])[..|data|] == data;
  }
}
