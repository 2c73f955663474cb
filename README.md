# Student performance report, modelled in Dafny

`student_analysis` reads school grade records (CSV rows with the columns
`student_name`, `subject`, `teacher_name`, `date`, `grade`) and prints a
report. Its one report, `StudentPerformanceReport.generate`, does three
things in order:

1. **Group.** It scans the records once into a `defaultdict(list)`, from
   student name to that student's integer grades. A record whose
   `student_name` or `grade` column is missing (`KeyError`) is skipped. So is
   a record whose grade `int()` rejects (`ValueError`).
2. **Average.** For each student, in the dictionary's insertion order, it
   emits a row with the student's name and `round(sum / len, 2)`.
3. **Sort.** It sorts the rows by that rounded average, highest first, with
   Python's stable `list.sort`.

The model follows that structure, one module per concern:

| file | module | models |
|---|---|---|
| `wrappers.dfy` | `Wrappers` | `Option`, the outcome of a step that can raise |
| `int_parsing.dfy` | `IntParsing` | `int(s)` on ASCII text: strips space, `\t`, `\n`, `\v`, `\f` and `\r`, takes an optional sign, accepts digits with single `_` separators; `None` is `ValueError` |
| `rounding.dfy` | `Rounding` | the average as an exact number of hundredths, rounded half-to-even |
| `grouping.dfy` | `Grouping` | the grouping dictionary as the datatype `StudentGrades(order, grades)`: key insertion order plus a map to grade lists; `GroupSpec` is the scan as a left fold |
| `stable_sort.dfy` | `StableSort` | the stable descending sort, specified by insertion (`SortDesc`) and carried out in place on an array |
| `reports.dfy` | `Reports` | the output `Row`, the functional specification `Report`, and the class `StudentPerformanceReport`, whose `Generate` method runs the loops and is proved to compute `Report(data)` |
| `report_examples.dfy` | `ReportExamples` | the sample file and the invalid-grade file of the repository's tests, computed through the model |

An average is an integer number of hundredths: `450` is the reported `4.5`.
The sort key is that rounded value, as in the source. So two students whose
exact means differ but round to the same hundredth are tied, and ties keep
first-seen order.

`generate` only reads `self.data`. `Generate` has no `modifies` clause, and its
result is the function `Report(data)`. So two calls on the same object return
equal results.

## Model

| member | source | states |
|---|---|---|
| IntParsing.ParseInt | reports/student_performance_report.py:14 | `int()` on a grade cell: `None` stands for `ValueError`; its properties are stated by ParseShowRoundTrip, ParseAccepts and ParseRejects |
| IntParsing.ParseShowRoundTrip | reports/student_performance_report.py:14 | `int()` reads back every integer that `str()` prints, whatever surrounding whitespace (space, `\t`, `\n`, `\v`, `\f`, `\r`) pads it |
| IntParsing.ParseAccepts | reports/student_performance_report.py:14 | `int()` accepts `"5"`, `" 4\n"` and `"-3"` with those values |
| IntParsing.ParseRejects | reports/student_performance_report.py:14-17 | `int()` raises `ValueError` (`None`) on `"invalid"`, `"4.5"` and `"1__0"` |
| Rounding.RoundHalfEven | reports/student_performance_report.py:25 | the result is within one half of `n / d`, and on an exact half it is the even neighbour |
| Rounding.NearestHalfEvenUnique | reports/student_performance_report.py:25 | at most one integer meets that rounding rule, so the rounded value is determined |
| Rounding.AverageHundredths | reports/student_performance_report.py:22-25 | `h / 100` is the mean `sum / len` rounded to two decimals: `h * len` is within half of `len` of `100 * sum`, and even on a tie |
| Rounding.AverageIs | reports/student_performance_report.py:22-25 | any value meeting the two-decimal rounding rule for a list of grades is its reported average |
| Rounding.AverageExamplesWhole | tests/test_student_performance.py:132-152 | `[5, 5]`, `[3, 4, 5]`, `[2, 3, 4]` and `[5]` average to 5.0, 4.0, 3.0 and 5.0 |
| Rounding.AverageExamplesFractional | reports/student_performance_report.py:22-25 | `[4, 5]` averages to 4.5, and `[4, 4, 5]` rounds 4.333… to 4.33 |
| Rounding.AverageTieToEven | reports/student_performance_report.py:25 | the mean 1.125 is a tie at the second decimal and rounds to the even 1.12 |
| Grouping.ReadGrade | reports/student_performance_report.py:13-17 | `row['student_name']` and `int(row['grade'])`, with `None` for the `KeyError` and `ValueError` cases; stated by ScanCases, SkippedRecord and InvalidGradeSkipped |
| Grouping.Scan | reports/student_performance_report.py:12-17 | one iteration of the grouping loop; stated by ScanCases, ScanOrder and SkippedRecord |
| Grouping.Append | reports/student_performance_report.py:15 | appending to the `defaultdict` keeps every key listed once; a new key goes last in the order; only the named list changes, gaining the grade at its end |
| Grouping.ScanCases | reports/student_performance_report.py:12-17 | a record missing `student_name` or `grade`, or with an unparsable grade, leaves the grouping unchanged; any other record appends its grade |
| Grouping.ScanOrder | reports/student_performance_report.py:15 | one scan step either keeps the key order or appends the record's student, who was not yet a key |
| Grouping.GroupSpec | reports/student_performance_report.py:9-17 | the grouping after the loop is well formed, and no key has an empty list, so the `if grades` guard never fails |
| Grouping.FirstSeenIsFirst | reports/student_performance_report.py:11-15 | `FirstSeen` is the index of the first record giving the student a grade; no earlier record does |
| Grouping.ScanStepFor | reports/student_performance_report.py:11-15 | one scan step keeps, for every student, the key set, the grade lists and the absence of gradeless students in line with the records read so far |
| Grouping.ScanStepOrder | reports/student_performance_report.py:11-15 | one scan step keeps the keys in the order of each student's first usable record |
| Grouping.GroupSpecCorrect | reports/student_performance_report.py:9-17 | the keys are exactly the students with a usable record. Each list is exactly that student's grades in record order. The keys are ordered by each student's first usable record |
| Grouping.SkippedRecord | reports/student_performance_report.py:12-17 | a record without a usable grade leaves the grouping exactly as it was |
| StableSort.Insert | reports/student_performance_report.py:28 | one insertion step of the stable descending sort; stated by InsertPermutes, InsertSorted and InsertWithKey |
| StableSort.SortDesc | reports/student_performance_report.py:28 | `list.sort(key=..., reverse=True)` as a function; stated by SortDescCorrect and SortDescKeepsTies |
| StableSort.InsertPermutes | reports/student_performance_report.py:28 | one insertion step adds exactly the inserted element |
| StableSort.InsertSorted | reports/student_performance_report.py:28 | one insertion step into a descending sequence keeps it descending |
| StableSort.InsertWithKey | reports/student_performance_report.py:28 | one insertion step puts the element after every element with its key and leaves other keys' orders alone |
| StableSort.SortDescCorrect | reports/student_performance_report.py:28 | the sort is a permutation, its output is non-increasing in the key, and for every key the elements with that key keep their input order |
| StableSort.SortDescKeepsTies | reports/student_performance_report.py:28 | stability: elements with equal keys appear in the output in the same relative order as in the input |
| StableSort.InsertInPlace | reports/student_performance_report.py:28 | moving `a[i]` left past the smaller keys turns `a[..i+1]` into the insertion of `a[i]` into `a[..i]`, and changes nothing beyond `i` |
| StableSort.SortInPlace | reports/student_performance_report.py:28 | the in-place sort leaves the array holding the stable descending sort of its old contents |
| Reports.Averages | reports/student_performance_report.py:19-26 | the averaging loop as a function, with the `if grades` check; stated by AveragesExact and UnsortedRows |
| Reports.Report | reports/student_performance_report.py:8-30 | what `generate` returns; stated by ReportRowsAreAverages, ReportIsComplete, ReportNamesDistinct, ReportIsSorted, ReportTiesInFirstSeenOrder and EmptyReport |
| Reports.AveragesExact | reports/student_performance_report.py:19-26 | when every list is non-empty, there is one row per key, in key order, each with that student's average |
| Reports.UnsortedRows | reports/student_performance_report.py:19-26 | before sorting, row `i` is the `i`-th student seen, with the average of exactly their usable grades, and the rows are in first-seen order |
| Reports.ReportRowsAreAverages | reports/student_performance_report.py:19-28 | every output row names a student with at least one usable grade and carries the rounded mean of exactly those grades |
| Reports.GroupedStudent | reports/student_performance_report.py:11-15 | a student with a usable grade is a key of the grouping |
| Reports.ReportIsComplete | reports/student_performance_report.py:19-28 | every student with at least one usable grade has a row |
| Reports.ReportNamesDistinct | reports/student_performance_report.py:19-28 | no student has two rows |
| Reports.ReportIsSorted | reports/student_performance_report.py:28 | the rows are in non-increasing order of rounded average |
| Reports.ReportTiesInFirstSeenOrder | reports/student_performance_report.py:19-28 | rows with equal rounded averages are ordered by their students' first usable record |
| Reports.EmptyReport | tests/test_student_performance.py:97-100 | no records give no rows |
| Reports.AverageRows | reports/student_performance_report.py:19-26 | the averaging loop returns one row per key with a non-empty list, in key order, with its rounded average |
| Reports.StudentPerformanceReport.constructor | reports/base_report.py:8-9 | the report keeps the records it is given as `data` |
| Reports.StudentPerformanceReport.GroupGrades | reports/student_performance_report.py:9-17 | the grouping loop builds exactly the grouping `GroupSpec(data)` |
| Reports.StudentPerformanceReport.Generate | reports/student_performance_report.py:8-30 | `generate` returns exactly `Report(data)`, so every `Report` lemma holds of its result |
| ReportExamples.SampleGrades | tests/test_student_performance.py:13-20 | the five sample rows carry the grades 5, 4, 5, 4, 3 for their students |
| ReportExamples.SampleGrouping | tests/test_student_performance.py:13-20 | the sample groups into Семенова [5, 4], Титов [4, 3], Власова [5], in that key order |
| ReportExamples.SampleAverages | reports/student_performance_report.py:19-26 | the sample's averaging pass gives 4.5, 3.5 and 5.0 in key order |
| ReportExamples.SampleSort | reports/student_performance_report.py:28 | sorting the sample moves Власова's 5.0 ahead of both others |
| ReportExamples.SampleReport | tests/test_student_performance.py:85-95 | the sample report is Власова 5.0, Семенова 4.5, Титов 3.5 |
| ReportExamples.InvalidGradeSkipped | tests/test_student_performance.py:28-33 | the row with grade `invalid` reads as `ValueError`, and the file groups as if the row were absent |
| ReportExamples.InvalidGrouping | tests/test_student_performance.py:28-33 | the invalid-grade file groups into Семенова [5] and Власова [5], and Титов is no key |
| ReportExamples.InvalidAverages | reports/student_performance_report.py:19-26 | the invalid-grade file's averaging pass gives 5.0 for Семенова, then 5.0 for Власова |
| ReportExamples.InvalidSort | reports/student_performance_report.py:28 | the two equal 5.0 rows keep first-seen order through the sort |
| ReportExamples.InvalidGradeReport | tests/test_student_performance.py:28-33 | the invalid-grade file's report is Семенова 5.0, then Власова 5.0; Титов has no row |

## Left out

- Reading the CSV files (`utils/file_reader.py`), the command line (`main.py`) and printing through `tabulate` (`BaseReport.display`) are I/O and foreign libraries. The model starts from the records as a `seq<Record>`. Several files read in turn are that sequence concatenated, file by file.
- Rounding.AverageHundredths: the source divides and rounds binary floats. The model rounds the exact rational mean. The two can differ at exact means whose third decimal ends in 5 and that are not binary-representable, where Python's `round` may go either way. They can also differ away from ties once a student's grades sum to more than about 4.5·10^13 in magnitude (2^53/200); there both the reported value and which students tie on the sort key can differ.
- IntParsing.ParseInt: Python's `int()` also accepts non-ASCII digits and non-ASCII whitespace, and it refuses literals longer than 4300 digits. The model covers text made of ASCII characters only.
- A short CSV row gives `None` for its missing columns. When the missing column is `grade`, `int(None)` raises `TypeError`, which `generate` does not catch. When it is only `student_name`, because the header puts that column after `grade`, nothing is raised: `row['student_name']` is `None`, and the grade is grouped and reported under the key `None`. A `Record` maps names to strings, so it can express neither the crash nor the `None` key, and both are outside the model.
- A `sum / len` too large for a float raises `OverflowError`. The model's integers are unbounded.
- Python's `list.sort` is Timsort. The model sorts by insertion. Every stable sort gives the same list, and stability is what is proved.
- Reports.StudentPerformanceReport.Generate: the source is one method. The model splits its loops into `GroupGrades`, `AverageRows` and `SortInPlace`, and copies the rows into an array for the in-place sort. The result dictionaries `{'student_name', 'average_grade'}` are the `Row` datatype.
