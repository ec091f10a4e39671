/** The question collection library: filters, lookups, sums, the CSV export,
    element-wise maps, and the editors that copy the collection and change the
    copy at the question with a given id. */
module Nested {
  import opened Js
  import opened Questions

  // ---------------------------------------------------------------------------
  // Filters

  predicate IsPublished(q: Question) {
    q.published
  }

  /** A question is empty when its body, its expected answer and its options are all empty. */
  predicate IsNonEmpty(q: Question) {
    q.body != "" || q.expected != "" || |q.options| != 0
  }

  /** `getPublishedQuestions`: the published questions, in their original order. */
  function GetPublishedQuestions(questions: seq<Question>): (r: seq<Question>)
    ensures forall i :: 0 <= i < |r| ==> r[i].published && r[i] in questions
    ensures forall i :: 0 <= i < |questions| && questions[i].published ==> questions[i] in r
    ensures IsSubsequence(r, questions)
  {
    FilterIsSubsequence(questions, IsPublished);
    Filter(questions, IsPublished)
  }

  /** `getNonEmptyQuestions`: the questions that are not empty, in their original
      order. (The source copies each question first; values need no copy.) */
  function GetNonEmptyQuestions(questions: seq<Question>): (r: seq<Question>)
    ensures forall i :: 0 <= i < |r| ==> IsNonEmpty(r[i]) && r[i] in questions
    ensures forall i :: 0 <= i < |questions| && IsNonEmpty(questions[i]) ==> questions[i] in r
    ensures IsSubsequence(r, questions)
  {
    FilterIsSubsequence(questions, IsNonEmpty);
    Filter(questions, IsNonEmpty)
  }

  /** Both filters are exactly `Filter`, so they split over concatenation: what
      each returns for a collection is what it returns for its parts, in order. */
  lemma FiltersSplitOverConcat(a: seq<Question>, b: seq<Question>)
    ensures GetPublishedQuestions(a + b) == GetPublishedQuestions(a) + GetPublishedQuestions(b)
    ensures GetNonEmptyQuestions(a + b) == GetNonEmptyQuestions(a) + GetNonEmptyQuestions(b)
  {
    FilterConcat(a, b, IsPublished);
    FilterConcat(a, b, IsNonEmpty);
  }

  // ---------------------------------------------------------------------------
  // Lookups

  /** `questions.findIndex(q => q.id === id)`: the first position holding the id, or -1. */
  function FindIndexById(questions: seq<Question>, id: int): (k: int)
    ensures -1 <= k < |questions|
    ensures k == -1 <==> !HasId(questions, id)
    ensures k >= 0 ==> questions[k].id == id && forall j :: 0 <= j < k ==> questions[j].id != id
    decreases |questions|
  {
    if questions == [] then -1
    else if questions[0].id == id then 0
    else
      var k := FindIndexById(questions[1..], id);
      assert forall j :: 1 <= j < |questions| ==> questions[j] == questions[1..][j - 1];
      if k == -1 then -1 else k + 1
  }

  /** `findQuestion`: the first question with the id, or `null` when there is none. */
  function FindQuestion(questions: seq<Question>, id: int): (r: Option<Question>)
    ensures r.None? <==> !HasId(questions, id)
    ensures r.Some? ==> r.value == questions[FindIndexById(questions, id)]
    decreases |questions|
  {
    if questions == [] then None
    else if questions[0].id == id then Some(questions[0])
    else
      assert forall j :: 1 <= j < |questions| ==> questions[j] == questions[1..][j - 1];
      FindQuestion(questions[1..], id)
  }

  /** Every position holds a question with the same id in both collections. */
  predicate SameIds(a: seq<Question>, b: seq<Question>) {
    |a| == |b| && forall i :: 0 <= i < |a| ==> a[i].id == b[i].id
  }

  /** A collection laid out with the same ids finds every id at the same place and
      is duplicate-free exactly when the other one is. */
  lemma {:induction false} SameIdsSameLookups(a: seq<Question>, b: seq<Question>, id: int)
    requires SameIds(a, b)
    ensures FindIndexById(a, id) == FindIndexById(b, id)
    ensures HasId(a, id) <==> HasId(b, id)
    ensures UniqueIds(a) <==> UniqueIds(b)
    decreases |a|
  {
    if a != [] {
      SameIdsSameLookups(a[1..], b[1..], id);
    }
  }
  /** `SameIdsSameLookups` for every id at once. */
  lemma SameIdsSameEveryLookup(a: seq<Question>, b: seq<Question>)
    requires SameIds(a, b)
    ensures forall id :: FindIndexById(a, id) == FindIndexById(b, id)
    ensures UniqueIds(a) <==> UniqueIds(b)
  {
    forall id ensures FindIndexById(a, id) == FindIndexById(b, id) {
      SameIdsSameLookups(a, b, id);
    }
    SameIdsSameLookups(a, b, 0);
  }


  // ---------------------------------------------------------------------------
  // Removing a question

  /** `removeQuestion` as written: the position from `findIndex` goes straight to
      `splice(index, 1)`. With the id present the first match is deleted; with it
      absent the index is -1, and `splice(-1, 1)` deletes the LAST question. */
  method RemoveQuestionAsWritten(questions: seq<Question>, id: int) returns (r: seq<Question>)
    ensures HasId(questions, id) ==>
      var k := FindIndexById(questions, id);
      r == questions[..k] + questions[k + 1..]
    ensures !HasId(questions, id) && questions != [] ==> r == questions[..|questions| - 1]
    ensures questions == [] ==> r == []
  {
    var index := FindIndexById(questions, id);
    var removed := questions;
    SpliceOneAtFoundIndex(removed, index);
    removed := Splice(removed, index, 1, []);
    r := removed;
  }

  /** What `splice(index, 1)` leaves for an index that `findIndex` can return. */
  lemma SpliceOneAtFoundIndex(s: seq<Question>, index: int)
    requires -1 <= index < |s|
    ensures index >= 0 ==> Splice(s, index, 1, []) == s[..index] + s[index + 1..]
    ensures index == -1 && s != [] ==> Splice(s, index, 1, []) == s[..|s| - 1]
    ensures index == -1 && s == [] ==> Splice(s, index, 1, []) == []
  {
    if index >= 0 {
      SpliceDeleteOne(s, index);
    } else {
      SpliceMinusOne(s);
    }
  }

  /** The smallest input on which `removeQuestion` as written loses a question that
      does not have the id: `[q]` with an id other than `q.id` comes back empty. */
  method RemoveAbsentIdLosesQuestion(q: Question) returns (r: seq<Question>)
    ensures !HasId([q], q.id + 1)
    ensures r == []
  {
    r := RemoveQuestionAsWritten([q], q.id + 1);
  }

  /** `removeQuestion` as its documentation describes it: the first question with
      the id is deleted and the rest keep their order; if no question has the id,
      the copy is the original collection. Duplicate-free ids stay duplicate-free,
      and then the id no longer occurs. */
  method RemoveQuestion(questions: seq<Question>, id: int) returns (r: seq<Question>)
    ensures HasId(questions, id) ==>
      var k := FindIndexById(questions, id);
      |r| == |questions| - 1 && r == questions[..k] + questions[k + 1..]
    ensures !HasId(questions, id) ==> r == questions
    ensures UniqueIds(questions) ==> UniqueIds(r) && !HasId(r, id)
  {
    var index := FindIndexById(questions, id);
    var removed := questions;
    if index != -1 {
      SpliceDeleteOne(removed, index);
      removed := Splice(removed, index, 1, []);
      if UniqueIds(questions) {
        RemovalKeepsIdsUnique(questions, index);
      }
    }
    r := removed;
  }

  lemma RemovalKeepsIdsUnique(qs: seq<Question>, k: int)
    requires 0 <= k < |qs| && UniqueIds(qs)
    ensures UniqueIds(qs[..k] + qs[k + 1..])
    ensures !HasId(qs[..k] + qs[k + 1..], qs[k].id)
  {
    var r := qs[..k] + qs[k + 1..];
    assert forall i :: 0 <= i < |r| ==> r[i] == if i < k then qs[i] else qs[i + 1];
  }

  // ---------------------------------------------------------------------------
  // Element-wise maps

  /** `getNames`: the names, position by position. */
  function GetNames(questions: seq<Question>): (r: seq<string>)
    ensures |r| == |questions|
    ensures forall i :: 0 <= i < |r| ==> r[i] == questions[i].name
    decreases |questions|
  {
    if questions == [] then [] else [questions[0].name] + GetNames(questions[1..])
  }

  /** `makeAnswers`: one fresh answer per question, position by position. */
  function MakeAnswers(questions: seq<Question>): (r: seq<Answer>)
    ensures |r| == |questions|
    ensures forall i :: 0 <= i < |r| ==>
      r[i].questionId == questions[i].id && r[i].text == "" && !r[i].submitted && !r[i].correct
    decreases |questions|
  {
    if questions == [] then []
    else [Answer(questions[0].id, "", false, false)] + MakeAnswers(questions[1..])
  }

  /** `publishAll`: every question published, nothing else changed. */
  function PublishAll(questions: seq<Question>): (r: seq<Question>)
    ensures |r| == |questions|
    ensures forall i :: 0 <= i < |r| ==> r[i] == questions[i].(published := true)
    decreases |questions|
  {
    if questions == [] then []
    else [questions[0].(published := true)] + PublishAll(questions[1..])
  }

  lemma PublishAllIdempotent(questions: seq<Question>)
    ensures PublishAll(PublishAll(questions)) == PublishAll(questions)
  {
  }

  /** After `publishAll` the published questions are all of them. */
  lemma PublishAllPublishesEverything(questions: seq<Question>)
    ensures GetPublishedQuestions(PublishAll(questions)) == PublishAll(questions)
  {
    FilterAll(PublishAll(questions), IsPublished);
  }

  // ---------------------------------------------------------------------------
  // Sums

  /** Total score of a collection. */
  function TotalPoints(questions: seq<Question>): int
    decreases |questions|
  {
    if questions == [] then 0 else questions[0].points + TotalPoints(questions[1..])
  }

  /** `questions.map(q => q.points)`. */
  function PointsOf(questions: seq<Question>): (r: seq<int>)
    ensures |r| == |questions|
    ensures forall i :: 0 <= i < |r| ==> r[i] == questions[i].points
    decreases |questions|
  {
    if questions == [] then [] else [questions[0].points] + PointsOf(questions[1..])
  }

  /** `questions.map(q => q.published ? q.points : 0)`. */
  function PublishedPointsOf(questions: seq<Question>): (r: seq<int>)
    ensures |r| == |questions|
    ensures forall i :: 0 <= i < |r| ==> r[i] == (if questions[i].published then questions[i].points else 0)
    decreases |questions|
  {
    if questions == [] then []
    else [if questions[0].published then questions[0].points else 0] + PublishedPointsOf(questions[1..])
  }

  lemma {:induction false} SumOfPoints(questions: seq<Question>)
    ensures Sum(PointsOf(questions)) == TotalPoints(questions)
    decreases |questions|
  {
    if questions != [] {
      SumOfPoints(questions[1..]);
    }
  }

  /** Zeroing the unpublished scores and summing is summing the published questions. */
  lemma {:induction false} SumOfPublishedPoints(questions: seq<Question>)
    ensures Sum(PublishedPointsOf(questions)) == TotalPoints(GetPublishedQuestions(questions))
    decreases |questions|
  {
    if questions != [] {
      SumOfPublishedPoints(questions[1..]);
      FilterConcat([questions[0]], questions[1..], IsPublished);
      FilterSingleton(questions[0], IsPublished);
      assert [questions[0]] + questions[1..] == questions;
    }
  }

  /** `sumPoints`: the total of all scores; `reduce` without an initial value throws on `[]`. */
  function SumPoints(questions: seq<Question>): (r: Outcome<int>)
    ensures r.Throws? <==> questions == []
    ensures r.Ok? ==> r.value == TotalPoints(questions)
  {
    SumOfPoints(questions);
    ReduceAdd(PointsOf(questions))
  }

  /** `sumPublishedPoints`: the total over the published questions; it too throws on
      `[]`, but a non-empty collection with nothing published gives 0. */
  function SumPublishedPoints(questions: seq<Question>): (r: Outcome<int>)
    ensures r.Throws? <==> questions == []
    ensures r.Ok? ==> r.value == TotalPoints(GetPublishedQuestions(questions))
  {
    SumOfPublishedPoints(questions);
    ReduceAdd(PublishedPointsOf(questions))
  }

  lemma {:induction false} PublishedTotalAtMostTotal(questions: seq<Question>)
    requires forall i :: 0 <= i < |questions| ==> questions[i].points >= 0
    ensures TotalPoints(GetPublishedQuestions(questions)) <= TotalPoints(questions)
    decreases |questions|
  {
    if questions != [] {
      PublishedTotalAtMostTotal(questions[1..]);
      FilterConcat([questions[0]], questions[1..], IsPublished);
      FilterSingleton(questions[0], IsPublished);
      assert [questions[0]] + questions[1..] == questions;
    }
  }

  /** With non-negative scores the published total never exceeds the total. */
  lemma SumPublishedAtMostSumPoints(questions: seq<Question>)
    requires questions != []
    requires forall i :: 0 <= i < |questions| ==> questions[i].points >= 0
    ensures SumPublishedPoints(questions).Ok? && SumPoints(questions).Ok?
    ensures SumPublishedPoints(questions).value <= SumPoints(questions).value
  {
    PublishedTotalAtMostTotal(questions);
  }

  /** Once everything is published, the two sums agree. */
  lemma SumPublishedAfterPublishAll(questions: seq<Question>)
    requires questions != []
    ensures SumPublishedPoints(PublishAll(questions)).Ok?
    ensures SumPublishedPoints(PublishAll(questions)).value == SumPoints(questions).value
  {
    PublishAllPublishesEverything(questions);
    SamePointsSameTotal(PublishAll(questions), questions);
  }

  lemma {:induction false} SamePointsSameTotal(a: seq<Question>, b: seq<Question>)
    requires |a| == |b| && forall i :: 0 <= i < |a| ==> a[i].points == b[i].points
    ensures TotalPoints(a) == TotalPoints(b)
    decreases |a|
  {
    if a != [] {
      SamePointsSameTotal(a[1..], b[1..]);
    }
  }

  // ---------------------------------------------------------------------------
  // CSV export

  /** The header line without its newline. */
  const CsvHeaderRow: string := "id,name,options,points,published"

  /** The header line, with the newline the source appends to it. */
  const CsvHeader: string := CsvHeaderRow + "\n"

  /** One record: id, name, number of options, points, published. */
  function CsvRow(q: Question): string {
    IntToString(q.id) + "," + q.name + "," + IntToString(|q.options|) + ","
      + IntToString(q.points) + "," + BoolToString(q.published)
  }

  /** The fields of a record, as `CsvRow` writes them. */
  function CsvFields(q: Question): seq<string> {
    [IntToString(q.id), q.name, IntToString(|q.options|), IntToString(q.points), BoolToString(q.published)]
  }

  function CsvRows(questions: seq<Question>): (r: seq<string>)
    ensures |r| == |questions|
    ensures forall i :: 0 <= i < |r| ==> r[i] == CsvRow(questions[i])
  {
    seq(|questions|, i requires 0 <= i < |questions| => CsvRow(questions[i]))
  }

  /** `toCSV`: the header with its newline, then the records joined by newlines. So
      an empty collection gives the header and its newline, and a non-empty one
      ends without a newline. */
  function ToCSV(questions: seq<Question>): (csv: string)
    ensures questions == [] ==> csv == CsvHeader
    ensures |csv| >= |CsvHeader| && csv[..|CsvHeader|] == CsvHeader
    ensures questions != [] ==> csv[|csv| - 1] != '\n'
  {
    LastRowCharIsNotNewline(questions);
    CsvHeader + Join(CsvRows(questions), "\n")
  }

  lemma LastRowCharIsNotNewline(questions: seq<Question>)
    ensures questions != [] ==> Join(CsvRows(questions), "\n") != []
    ensures questions != [] ==> var j := Join(CsvRows(questions), "\n"); j[|j| - 1] != '\n'
    ensures questions != [] ==> var j := Join(CsvRows(questions), "\n");
      var b := BoolToString(questions[|questions| - 1].published);
      |j| >= |b| && j[|j| - |b|..] == b
  {
    if questions != [] {
      JoinedRowsEndWithFlag(CsvRows(questions), questions[|questions| - 1]);
    }
  }

  /** Records joined by newlines end with the last question's flag, hence with `e`. */
  lemma JoinedRowsEndWithFlag(rows: seq<string>, q: Question)
    requires rows != [] && rows[|rows| - 1] == CsvRow(q)
    ensures var j := Join(rows, "\n"); var b := BoolToString(q.published);
      |j| >= |b| && j[|j| - |b|..] == b && j != [] && j[|j| - 1] == 'e'
  {
    var b := BoolToString(q.published);
    assert b[|b| - 1] == 'e';
    LastRowEndsWithFlag(rows, q);
    JoinEndsWith(rows, "\n", b);
  }

  /** The last record ends with the last question's flag. */
  lemma LastRowEndsWithFlag(rows: seq<string>, q: Question)
    requires rows != [] && rows[|rows| - 1] == CsvRow(q)
    ensures var last := rows[|rows| - 1]; var b := BoolToString(q.published);
      |last| >= |b| && last[|last| - |b|..] == b
  {
    CsvRowEndsWithFlag(q);
  }

  /** When the last element ends with `b`, so does the join. */
  lemma JoinEndsWith(xs: seq<string>, sep: string, b: string)
    requires xs != []
    requires var last := xs[|xs| - 1]; |last| >= |b| && last[|last| - |b|..] == b
    ensures var j := Join(xs, sep); |j| >= |b| && j[|j| - |b|..] == b
    ensures var j := Join(xs, sep); b != [] ==> j[|j| - 1] == b[|b| - 1]
  {
    JoinEndsWithLast(xs, sep);
    SuffixOfSuffix(Join(xs, sep), xs[|xs| - 1], b);
  }

  lemma SuffixOfSuffix(j: string, last: string, b: string)
    requires |j| >= |last| && j[|j| - |last|..] == last
    requires |last| >= |b| && last[|last| - |b|..] == b
    ensures |j| >= |b| && j[|j| - |b|..] == b && (b != [] ==> j[|j| - 1] == b[|b| - 1])
  {
    assert j[|j| - |b|..] == j[|j| - |last|..][|last| - |b|..];
  }

  /** A record ends with the question's `published` flag. */
  lemma CsvRowEndsWithFlag(q: Question)
    ensures var r := CsvRow(q); var b := BoolToString(q.published);
      |r| >= |b| && r[|r| - |b|..] == b
  {
    var r := CsvRow(q);
    var b := BoolToString(q.published);
    var front := IntToString(q.id) + "," + q.name + "," + IntToString(|q.options|) + ","
      + IntToString(q.points) + ",";
    assert r == front + b;
  }

  lemma {:induction false} JoinEndsWithLast(xs: seq<string>, sep: string)
    requires xs != []
    ensures var j := Join(xs, sep); |j| >= |xs[|xs| - 1]| && j[|j| - |xs[|xs| - 1]|..] == xs[|xs| - 1]
    decreases |xs|
  {
    if |xs| > 1 {
      JoinEndsWithLast(xs[1..], sep);
    }
  }

  lemma CsvRowIsJoinedFields(q: Question)
    ensures CsvRow(q) == Join(CsvFields(q), ",")
  {
    var f := CsvFields(q);
    JoinFive(f[0], f[1], f[2], f[3], f[4], ",");
    assert f == [f[0], f[1], f[2], f[3], f[4]];
  }

  /** Five strings joined by a separator. */
  lemma JoinFive(a: string, b: string, c: string, d: string, e: string, sep: string)
    ensures Join([a, b, c, d, e], sep) == a + sep + b + sep + c + sep + d + sep + e
  {
    var f := [a, b, c, d, e];
    assert Join(f[4..], sep) == e;
    assert Join(f[3..], sep) == d + sep + e by { assert f[3..][1..] == f[4..]; }
    assert Join(f[2..], sep) == c + sep + d + sep + e by { assert f[2..][1..] == f[3..]; }
    assert Join(f[1..], sep) == b + sep + c + sep + d + sep + e by { assert f[1..][1..] == f[2..]; }
  }

  /** Characters other than digits, `-`, the comma and the letters of `true` and
      `false` enter a record only through the name. */
  lemma CsvRowAvoids(q: Question, c: char)
    requires c !in q.name && c != '-' && !IsDigit(c) && c !in "truefals" && c != ','
    ensures c !in CsvRow(q)
  {
    var f := CsvFields(q);
    forall k | 0 <= k < |f| ensures c !in f[k] {
      if k == 0 || k == 2 || k == 3 {
        assert forall d :: d in f[k] ==> IsDigit(d) || d == '-';
      }
    }
    CsvRowIsJoinedFields(q);
    JoinAvoids(f, ",", c);
  }

  /** A record splits back into its five fields when the name holds no comma. */
  lemma CsvRowSplitsIntoFields(q: Question)
    requires ',' !in q.name
    ensures Split(CsvRow(q), ',') == CsvFields(q)
  {
    var f := CsvFields(q);
    forall k | 0 <= k < |f| ensures ',' !in f[k] {
      if k == 0 || k == 2 || k == 3 {
        assert forall c :: c in f[k] ==> IsDigit(c) || c == '-';
      }
    }
    CsvRowIsJoinedFields(q);
    SplitJoin(f, ',');
  }

  /** The export splits into the header line and one record per question, in order;
      an empty collection leaves an empty last line after the header's newline. */
  lemma CsvSplitsIntoLines(questions: seq<Question>)
    requires forall i :: 0 <= i < |questions| ==> '\n' !in questions[i].name
    ensures Split(ToCSV(questions), '\n') == CsvLines(questions)
  {
    CsvLinesHaveNoBreak(questions);
    CsvIsJoinedLines(questions);
    SplitJoin(CsvLines(questions), '\n');
  }

  /** The lines of the export: the header row, then the records, or one empty line. */
  function CsvLines(questions: seq<Question>): seq<string> {
    [CsvHeaderRow] + (if questions == [] then [""] else CsvRows(questions))
  }

  lemma CsvLinesHaveNoBreak(questions: seq<Question>)
    requires forall i :: 0 <= i < |questions| ==> '\n' !in questions[i].name
    ensures forall k :: 0 <= k < |CsvLines(questions)| ==> '\n' !in CsvLines(questions)[k]
  {
    var lines := CsvLines(questions);
    var rest := if questions == [] then [""] else CsvRows(questions);
    assert lines == [CsvHeaderRow] + rest;
    HeaderHasNoBreak();
    RowsHaveNoBreak(questions);
    forall k | 0 <= k < |lines| ensures '\n' !in lines[k] {
      if k > 0 {
        assert lines[k] == rest[k - 1];
      }
    }
  }

  lemma RowsHaveNoBreak(questions: seq<Question>)
    requires forall i :: 0 <= i < |questions| ==> '\n' !in questions[i].name
    ensures forall i :: 0 <= i < |questions| ==> '\n' !in CsvRows(questions)[i]
  {
    forall i | 0 <= i < |questions| ensures '\n' !in CsvRows(questions)[i] {
      CsvRowHasNoBreak(questions[i]);
    }
  }

  lemma CsvRowHasNoBreak(q: Question)
    requires '\n' !in q.name
    ensures '\n' !in CsvRow(q)
  {
    assert '\n' !in "truefals";
    CsvRowAvoids(q, '\n');
  }

  lemma HeaderHasNoBreak()
    ensures '\n' !in CsvHeaderRow
  {
    assert forall c :: c in CsvHeaderRow ==> c == ',' || 'a' <= c <= 'z';
  }

  /** The export is its lines joined by newlines. */
  lemma CsvIsJoinedLines(questions: seq<Question>)
    ensures ToCSV(questions) == Join(CsvLines(questions), "\n")
  {
    var lines := CsvLines(questions);
    assert lines[1..] == (if questions == [] then [""] else CsvRows(questions));
    assert CsvHeader == CsvHeaderRow + "\n";
  }

  lemma {:induction false} JoinAvoids(xs: seq<string>, sep: string, c: char)
    requires c !in sep
    requires forall k :: 0 <= k < |xs| ==> c !in xs[k]
    ensures c !in Join(xs, sep)
    decreases |xs|
  {
    if |xs| > 1 {
      JoinAvoids(xs[1..], sep, c);
    }
  }

  /** What a record says about its question. */
  datatype CsvRecord = CsvRecord(id: int, name: string, optionCount: int, points: int, published: bool)

  function RecordOf(q: Question): CsvRecord {
    CsvRecord(q.id, q.name, |q.options|, q.points, q.published)
  }

  /** Reads one record line: five comma-separated fields, the first, third and fourth
      decimal integers (at least one digit, optionally after a minus sign), the last
      `true` or `false`. */
  function DecodeRow(line: string): Option<CsvRecord> {
    var f := Split(line, ',');
    if |f| == 5 && IsIntText(f[0]) && IsIntText(f[2]) && IsIntText(f[3]) && (f[4] == "true" || f[4] == "false")
    then Some(CsvRecord(ParseInt(f[0]), f[1], ParseInt(f[2]), ParseInt(f[3]), f[4] == "true"))
    else None
  }

  /** A record reads back as its question's record when the name holds no comma. */
  lemma CsvRowRoundTrip(q: Question)
    requires ',' !in q.name
    ensures DecodeRow(CsvRow(q)) == Some(RecordOf(q))
  {
    CsvRowSplitsIntoFields(q);
    var f := CsvFields(q);
    assert Split(CsvRow(q), ',') == f;
    assert IsIntText(f[0]) && IsIntText(f[2]) && IsIntText(f[3]);
    IntRoundTrip(q.id);
    IntRoundTrip(|q.options|);
    IntRoundTrip(q.points);
  }

  /** Reading the export back: split on newlines it gives `CsvLines`, one line more
      than there are questions; line 0 is the header row and line `i + 1` decodes
      to the id, name, number of options, points and flag of question `i`. */
  lemma CsvRecordRoundTrip(questions: seq<Question>, i: int)
    requires forall k :: 0 <= k < |questions| ==> '\n' !in questions[k].name && ',' !in questions[k].name
    requires 0 <= i < |questions|
    ensures Split(ToCSV(questions), '\n') == CsvLines(questions)
    ensures |CsvLines(questions)| == |questions| + 1 && CsvLines(questions)[0] == CsvHeaderRow
    ensures DecodeRow(CsvLines(questions)[i + 1]) == Some(RecordOf(questions[i]))
  {
    CsvSplitsIntoLines(questions);
    CsvLineDecodes(questions, i);
  }

  lemma CsvLineDecodes(questions: seq<Question>, i: int)
    requires forall k :: 0 <= k < |questions| ==> ',' !in questions[k].name
    requires 0 <= i < |questions|
    ensures |CsvLines(questions)| == |questions| + 1 && CsvLines(questions)[0] == CsvHeaderRow
    ensures DecodeRow(CsvLines(questions)[i + 1]) == Some(RecordOf(questions[i]))
  {
    var q := questions[i];
    CsvRowRoundTrip(q);
    var rows := CsvRows(questions);
    assert CsvLines(questions) == [CsvHeaderRow] + rows;
    assert rows[i] == CsvRow(q);
  }

  /** The four questions of the documented export. Only the exported fields come
      from the documentation; body, expected answer and option texts are placeholders. */
  const ExampleAddition := Question(1, "Addition", "What is 1 + 1?", ShortAnswer, [], "2", 1, true)
  const ExampleLetters := Question(2, "Letters", "What is the last letter?", ShortAnswer, [], "Z", 1, false)
  const ExampleColors := Question(5, "Colors", "Which is a primary color?", MultipleChoice, ["red", "apple", "firetruck"], "red", 1, true)
  const ExampleShapes := Question(9, "Shapes", "How many sides does a triangle have?", MultipleChoice, ["1", "2", "3"], "3", 2, false)

  lemma ExampleRows()
    ensures CsvRow(ExampleAddition) == "1,Addition,0,1,true"
    ensures CsvRow(ExampleLetters) == "2,Letters,0,1,false"
  {
    assert IntToString(0) == "0" && IntToString(1) == "1" && IntToString(2) == "2";
  }

  lemma ExampleColorsRow()
    ensures CsvRow(ExampleColors) == "5,Colors,3,1,true"
  {
    assert |ExampleColors.options| == 3;
    assert IntToString(5) == "5" && IntToString(3) == "3" && IntToString(1) == "1";
  }

  lemma ExampleShapesRow()
    ensures CsvRow(ExampleShapes) == "9,Shapes,3,2,false"
  {
    assert |ExampleShapes.options| == 3;
    assert IntToString(9) == "9" && IntToString(3) == "3" && IntToString(2) == "2";
  }

  /** The example in the documentation of `toCSV`: for its four questions the export
      is these five lines joined by newlines. */
  lemma ToCSVExample()
    ensures ToCSV([ExampleAddition, ExampleLetters, ExampleColors, ExampleShapes])
         == Join(["id,name,options,points,published", "1,Addition,0,1,true", "2,Letters,0,1,false",
                  "5,Colors,3,1,true", "9,Shapes,3,2,false"], "\n")
  {
    var qs := [ExampleAddition, ExampleLetters, ExampleColors, ExampleShapes];
    var rows := CsvRows(qs);
    assert rows == [CsvRow(ExampleAddition), CsvRow(ExampleLetters), CsvRow(ExampleColors), CsvRow(ExampleShapes)];
    ExampleRows();
    ExampleColorsRow();
    ExampleShapesRow();
    CsvIsJoinedLines(qs);
  }

  // ---------------------------------------------------------------------------
  // Same type

  /** `questions.every(q => q.type === kind)`. */
  function AllOfKind(questions: seq<Question>, kind: QuestionType): (r: bool)
    ensures r <==> forall i :: 0 <= i < |questions| ==> questions[i].kind == kind
    decreases |questions|
  {
    if questions == [] then true
    else
      assert forall i :: 1 <= i < |questions| ==> questions[i] == questions[1..][i - 1];
      questions[0].kind == kind && AllOfKind(questions[1..], kind)
  }

  /** `sameType`: true for `[]`, and otherwise true exactly when every question has
      the type of the first; that is, when any two questions have the same type. */
  function SameType(questions: seq<Question>): (r: bool)
    ensures r <==> forall i, j :: 0 <= i < |questions| && 0 <= j < |questions| ==> questions[i].kind == questions[j].kind
    ensures |questions| <= 1 ==> r
  {
    if |questions| == 0 then true else AllOfKind(questions, questions[0].kind)
  }

  // ---------------------------------------------------------------------------
  // Adding a question

  /** `addNewQuestion`: the collection unchanged, then the blank question built from
      the id, name and type. */
  function AddNewQuestion(questions: seq<Question>, id: int, name: string, kind: QuestionType,
                          blank: BlankFactory): (r: seq<Question>)
    ensures |r| == |questions| + 1 && r[..|questions|] == questions
    ensures r[|questions|] == blank(id, name, kind)
    ensures BlankCarriesArguments(blank) ==>
      r[|questions|].id == id && r[|questions|].name == name && r[|questions|].kind == kind
  {
    questions + [blank(id, name, kind)]
  }

  /** A question added under an id nobody has is the one `findQuestion` then finds,
      and duplicate-free ids stay duplicate-free. */
  lemma AddedQuestionIsFound(questions: seq<Question>, id: int, name: string, kind: QuestionType,
                             blank: BlankFactory)
    requires BlankCarriesArguments(blank)
    requires !HasId(questions, id)
    ensures FindQuestion(AddNewQuestion(questions, id, name, kind, blank), id) == Some(blank(id, name, kind))
    ensures UniqueIds(questions) ==> UniqueIds(AddNewQuestion(questions, id, name, kind, blank))
  {
    var r := AddNewQuestion(questions, id, name, kind, blank);
    assert r[|questions|].id == id;
    assert forall j :: 0 <= j < |questions| ==> r[j] == questions[j];
  }

  // ---------------------------------------------------------------------------
  // Editors that change the question with a given id, on a copy of the collection

  /** `renameQuestionById`: the copy has the first question with the id renamed and
      everything else as it was. When no question has the id, the source writes to
      `copiedQuestions[-1]`, which is `undefined`, and throws. */
  method RenameQuestionById(questions: seq<Question>, targetId: int, newName: string)
    returns (r: Outcome<seq<Question>>)
    ensures r.Throws? <==> !HasId(questions, targetId)
    ensures r.Throws? ==> r.error == PropertyOfUndefined
    ensures r.Ok? ==> var k := FindIndexById(questions, targetId);
      |r.value| == |questions|
      && r.value[k] == questions[k].(name := newName)
      && (forall j :: 0 <= j < |questions| && j != k ==> r.value[j] == questions[j])
    ensures r.Ok? ==> SameIds(r.value, questions)
    ensures r.Ok? ==> (forall id :: FindIndexById(r.value, id) == FindIndexById(questions, id))
    ensures r.Ok? ==>
      (UniqueIds(r.value) <==> UniqueIds(questions))
  {
    var index := FindIndexById(questions, targetId);
    var copied := new Question[|questions|](i requires 0 <= i < |questions| => questions[i]);
    if index == -1 {
      return Throws(PropertyOfUndefined);
    }
    copied[index] := copied[index].(name := newName);
    r := Ok(copied[..]);
    SameIdsSameEveryLookup(r.value, questions);
  }

  /** `changeQuestionTypeById`: the copy has the first question with the id given the
      new type, and its options emptied unless the new type is multiple choice;
      everything else is as it was. So if only multiple-choice questions had options
      before, the same holds after. A missing id throws, as in `RenameQuestionById`. */
  method ChangeQuestionTypeById(questions: seq<Question>, targetId: int, newType: QuestionType)
    returns (r: Outcome<seq<Question>>)
    ensures r.Throws? <==> !HasId(questions, targetId)
    ensures r.Throws? ==> r.error == PropertyOfUndefined
    ensures r.Ok? ==> var k := FindIndexById(questions, targetId);
      |r.value| == |questions|
      && r.value[k] == questions[k].(kind := newType,
                                     options := if newType == MultipleChoice then questions[k].options else [])
      && (forall j :: 0 <= j < |questions| && j != k ==> r.value[j] == questions[j])
    ensures r.Ok? ==> SameIds(r.value, questions)
    ensures r.Ok? && OptionsOnlyOnMultipleChoice(questions) ==> OptionsOnlyOnMultipleChoice(r.value)
    ensures r.Ok? ==> (forall id :: FindIndexById(r.value, id) == FindIndexById(questions, id))
    ensures r.Ok? ==>
      (UniqueIds(r.value) <==> UniqueIds(questions))
  {
    var index := FindIndexById(questions, targetId);
    var copied := new Question[|questions|](i requires 0 <= i < |questions| => questions[i]);
    if index == -1 {
      return Throws(PropertyOfUndefined);
    }
    copied[index] := copied[index].(kind := newType);
    if copied[index].kind != MultipleChoice {
      copied[index] := copied[index].(options := []);
    }
    var changed := copied[..];
    assert changed[index] == questions[index].(kind := newType,
      options := if newType == MultipleChoice then questions[index].options else []);
    assert forall j :: 0 <= j < |questions| && j != index ==> changed[j] == questions[j];
    r := Ok(changed);
    SameIdsSameEveryLookup(changed, questions);
  }

  /** `editOption`: in the copy, the first question with the id gets `newOption`
      appended to its options when the index is -1, and otherwise written over the
      option at that index, so the number of options stays the same; everything else
      is as it was. A missing id throws, as in `RenameQuestionById`. */
  method EditOption(questions: seq<Question>, targetId: int, targetOptionIndex: int, newOption: string)
    returns (r: Outcome<seq<Question>>)
    requires HasId(questions, targetId) && targetOptionIndex != -1 ==>
      0 <= targetOptionIndex < |questions[FindIndexById(questions, targetId)].options|
    ensures r.Throws? <==> !HasId(questions, targetId)
    ensures r.Throws? ==> r.error == PropertyOfUndefined
    ensures r.Ok? ==> var k := FindIndexById(questions, targetId);
      var before := questions[k].options;
      |r.value| == |questions|
      && r.value[k] == questions[k].(options := if targetOptionIndex == -1 then before + [newOption]
                                                else before[targetOptionIndex := newOption])
      && (forall j :: 0 <= j < |questions| && j != k ==> r.value[j] == questions[j])
    ensures r.Ok? ==> var k := FindIndexById(questions, targetId);
      |r.value[k].options| == |questions[k].options| + (if targetOptionIndex == -1 then 1 else 0)
    ensures r.Ok? ==> SameIds(r.value, questions)
  {
    var questionIndex := FindIndexById(questions, targetId);
    var copied := new Question[|questions|](i requires 0 <= i < |questions| => questions[i]);
    if questionIndex == -1 {
      return Throws(PropertyOfUndefined);
    }
    if targetOptionIndex == -1 {
      copied[questionIndex] := copied[questionIndex].(options := copied[questionIndex].options + [newOption]);
    } else {
      copied[questionIndex] := copied[questionIndex].(
        options := copied[questionIndex].options[targetOptionIndex := newOption]);
    }
    return Ok(copied[..]);
  }

  /** `duplicateQuestionInArray`: the copy with `duplicateQuestion(newId, target)`
      inserted directly after the first question with the target id. If the duplicate
      carries the new id, it sits right after its original, and a new id that nobody
      had keeps duplicate-free ids duplicate-free. */
  method DuplicateQuestionInArray(questions: seq<Question>, targetId: int, newId: int,
                                  duplicate: DuplicateFactory) returns (r: seq<Question>)
    requires HasId(questions, targetId)
    ensures var k := FindIndexById(questions, targetId);
      |r| == |questions| + 1
      && r[..k + 1] == questions[..k + 1]
      && r[k + 1] == duplicate(newId, questions[k])
      && r[k + 2..] == questions[k + 1..]
    ensures DuplicateCarriesId(duplicate) ==> r[FindIndexById(questions, targetId) + 1].id == newId
    ensures DuplicateCarriesId(duplicate) && UniqueIds(questions) && !HasId(questions, newId) ==> UniqueIds(r)
  {
    var index := FindIndexById(questions, targetId);
    var copied := questions;
    var duplicatedQuestion := duplicate(newId, copied[index]);
    SpliceInsertOne(copied, index + 1, duplicatedQuestion);
    copied := Splice(copied, index + 1, 0, [duplicatedQuestion]);
    if DuplicateCarriesId(duplicate) && UniqueIds(questions) && !HasId(questions, newId) {
      InsertionKeepsIdsUnique(questions, index + 1, duplicatedQuestion);
    }
    r := copied;
  }

  lemma InsertionKeepsIdsUnique(qs: seq<Question>, k: int, q: Question)
    requires 0 <= k <= |qs| && UniqueIds(qs) && !HasId(qs, q.id)
    ensures UniqueIds(qs[..k] + [q] + qs[k..])
  {
    var r := qs[..k] + [q] + qs[k..];
    assert forall i :: 0 <= i < |r| ==> r[i] == if i < k then qs[i] else if i == k then q else qs[i - 1];
  }

  /** The scenario of the documentation: duplicating id 2 in ids [1, 2, 3] under the
      new id 99 gives ids [1, 2, 99, 3]. */
  method DuplicateExample(q1: Question, q2: Question, q3: Question, duplicate: DuplicateFactory)
    returns (r: seq<Question>)
    requires q1.id == 1 && q2.id == 2 && q3.id == 3
    requires DuplicateCarriesId(duplicate)
    ensures |r| == 4 && r[0] == q1 && r[1] == q2 && r[2] == duplicate(99, q2) && r[3] == q3
    ensures r[0].id == 1 && r[1].id == 2 && r[2].id == 99 && r[3].id == 3
  {
    assert FindIndexById([q1, q2, q3], 2) == 1;
    r := DuplicateQuestionInArray([q1, q2, q3], 2, 99, duplicate);
    assert r[..2] == [q1, q2];
    assert r[3..] == [q3];
  }
}
