/**
 * Saving an answer-sheet question: the modules and their rows are flattened
 * into the parallel answer, id, fraction and feedback arrays of the question
 * form, one part is recorded per module, and the answers are stored by
 * reusing the question's old answer records before inserting new ones.
 */
module QuestionType {
  import opened Wrappers
  import opened StringOps
  import opened AnswersheetModule
  import opened AnswersheetApi

  // ------------------------------------------------------------ flattening

  /** One flattened row: its answer value, its answer-record id and its feedback text. */
  datatype FlatAnswer = FlatAnswer(value: PhpValue, id: PhpValue, feedback: PhpValue)

  /** The parallel arrays of the question form. */
  datatype FormArrays = FormArrays(
    answer: seq<PhpValue>,
    answersheetanswer: seq<PhpValue>,
    fraction: seq<real>,
    feedback: seq<PhpValue>)

  /** A feedback editor structure: a format and a text. */
  datatype FeedbackEditor = FeedbackEditor(format: int, text: PhpValue)

  /** Moodle's FORMAT_PLAIN text format. */
  const FormatPlain: int := 2

  /** The array gathered for one row: 'id' first, then each cell's value under its column, a later cell overriding. */
  function RowFields(id: int, cells: seq<ApiCell>): (f: map<string, PhpValue>)
    ensures "id" in f
  {
    if |cells| == 0 then map["id" := PhpInt(id)]
    else RowFields(id, cells[..|cells| - 1])[cells[|cells| - 1].column := PhpString(cells[|cells| - 1].value)]
  }

  /** $array[$key]: the entry, or null for a missing key. */
  function Field(f: map<string, PhpValue>, key: string): PhpValue
  {
    if key in f then f[key] else PhpNull
  }

  /**
   * The answer value of a row: ord(options) - 64 for a radio module, the
   * answer cell for letter-by-letter and free text, and the (usually
   * missing) 'value' entry for a type outside TYPES.
   */
  function FlatValue(mtype: int, f: map<string, PhpValue>): PhpValue
  {
    if mtype == RadioChecked then PhpInt(Ord(ToPhpString(Field(f, "options"))) - 64)
    else if mtype == LetterByLetter || mtype == FreeText then Field(f, "answer")
    else Field(f, "value")
  }

  /** The branches of FlatValue are the source's tests on the TYPES name of the module type. */
  lemma FlatValueFollowsTypeName(mtype: int)
    ensures mtype == RadioChecked <==> mtype in Types && Types[mtype] == "radiochecked"
    ensures mtype == LetterByLetter || mtype == FreeText <==>
      mtype in Types && (Types[mtype] == "letterbyletter" || Types[mtype] == "freetext")
  {
  }

  function FlatRow(mtype: int, row: ApiRow): FlatAnswer
  {
    var f := RowFields(row.id, row.cells);
    FlatAnswer(FlatValue(mtype, f), f["id"], Field(f, "feedback"))
  }

  /** The flattened rows of one module, in row order. */
  function FlatRows(mtype: int, rows: seq<ApiRow>): (r: seq<FlatAnswer>)
    ensures |r| == |rows|
  {
    if |rows| == 0 then [] else FlatRows(mtype, rows[..|rows| - 1]) + [FlatRow(mtype, rows[|rows| - 1])]
  }

  /** The i-th flattened row of a module is the flattening of its i-th row. */
  lemma {:induction false} FlatRowsMeaning(mtype: int, rows: seq<ApiRow>, i: nat)
    requires i < |rows|
    ensures FlatRows(mtype, rows)[i] == FlatRow(mtype, rows[i])
  {
    var n := |rows| - 1;
    if i < n {
      FlatRowsMeaning(mtype, rows[..n], i);
    }
  }

  function FlatModule(m: ApiModule): seq<FlatAnswer>
  {
    FlatRows(m.mtype, m.rows)
  }

  /** The flattened answers: module by module, row by row. */
  function Flattened(ms: seq<ApiModule>): seq<FlatAnswer>
  {
    if |ms| == 0 then [] else Flattened(ms[..|ms| - 1]) + FlatModule(ms[|ms| - 1])
  }

  /** The number of rows in the modules before module k. */
  function RowsBefore(ms: seq<ApiModule>, k: nat): nat
    requires k <= |ms|
  {
    if k == 0 then 0 else RowsBefore(ms, k - 1) + |ms[k - 1].rows|
  }

  lemma {:induction false} RowsBeforePrefix(ms: seq<ApiModule>, n: nat, k: nat)
    requires k <= n <= |ms|
    ensures RowsBefore(ms[..n], k) == RowsBefore(ms, k)
  {
    if k > 0 {
      RowsBeforePrefix(ms, n, k - 1);
    }
  }

  /** The concatenation of a list of lists, and the number of elements before list k. */
  function Concat<T>(xs: seq<seq<T>>): seq<T>
  {
    if |xs| == 0 then [] else Concat(xs[..|xs| - 1]) + xs[|xs| - 1]
  }

  function LengthBefore<T>(xs: seq<seq<T>>, k: nat): nat
    requires k <= |xs|
  {
    if k == 0 then 0 else LengthBefore(xs, k - 1) + |xs[k - 1]|
  }

  lemma {:induction false} LengthBeforePrefix<T>(xs: seq<seq<T>>, n: nat, k: nat)
    requires k <= n <= |xs|
    ensures LengthBefore(xs[..n], k) == LengthBefore(xs, k)
  {
    if k > 0 {
      LengthBeforePrefix(xs, n, k - 1);
    }
  }

  lemma {:induction false} LengthBeforeMonotone<T>(xs: seq<seq<T>>, j: nat, k: nat)
    requires j <= k <= |xs|
    ensures LengthBefore(xs, j) <= LengthBefore(xs, k)
  {
    if j < k {
      LengthBeforeMonotone(xs, j, k - 1);
    }
  }

  lemma {:induction false} ConcatLength<T>(xs: seq<seq<T>>)
    ensures |Concat(xs)| == LengthBefore(xs, |xs|)
  {
    if |xs| > 0 {
      var n := |xs| - 1;
      ConcatLength(xs[..n]);
      LengthBeforePrefix(xs, n, n);
    }
  }

  /** Element i of list k sits at position LengthBefore(k) + i of the concatenation. */
  lemma {:induction false} ConcatPosition<T>(xs: seq<seq<T>>, k: nat, i: nat)
    requires k < |xs| && i < |xs[k]|
    ensures LengthBefore(xs, k) + i < |Concat(xs)|
    ensures Concat(xs)[LengthBefore(xs, k) + i] == xs[k][i]
  {
    var n := |xs| - 1;
    var init := xs[..n];
    ConcatLength(init);
    LengthBeforePrefix(xs, n, n);
    var j := LengthBefore(xs, k) + i;
    if k < n {
      ConcatPosition(init, k, i);
      LengthBeforePrefix(xs, n, k);
      LengthBeforeMonotone(xs, k + 1, n);
      assert Concat(xs)[j] == Concat(init)[j];
    } else {
      assert Concat(xs)[j] == xs[n][i];
    }
  }

  /** The flattened modules, one list per module. */
  function FlatModules(ms: seq<ApiModule>): (r: seq<seq<FlatAnswer>>)
    ensures |r| == |ms|
    ensures forall k :: 0 <= k < |ms| ==> |r[k]| == |ms[k].rows|
  {
    if |ms| == 0 then [] else FlatModules(ms[..|ms| - 1]) + [FlatModule(ms[|ms| - 1])]
  }

  lemma {:induction false} FlatModulesMeaning(ms: seq<ApiModule>, k: nat)
    requires k < |ms|
    ensures FlatModules(ms)[k] == FlatModule(ms[k])
  {
    var n := |ms| - 1;
    if k < n {
      FlatModulesMeaning(ms[..n], k);
    }
  }

  lemma {:induction false} FlattenedIsConcat(ms: seq<ApiModule>)
    ensures Flattened(ms) == Concat(FlatModules(ms))
  {
    if |ms| > 0 {
      var n := |ms| - 1;
      FlattenedIsConcat(ms[..n]);
      assert FlatModules(ms)[..n] == FlatModules(ms[..n]);
    }
  }

  lemma {:induction false} RowsBeforeIsLengthBefore(ms: seq<ApiModule>, k: nat)
    requires k <= |ms|
    ensures RowsBefore(ms, k) == LengthBefore(FlatModules(ms), k)
  {
    if k > 0 {
      RowsBeforeIsLengthBefore(ms, k - 1);
    }
  }

  /** There is exactly one flattened answer per row. */
  lemma FlattenedLength(ms: seq<ApiModule>)
    ensures |Flattened(ms)| == RowsBefore(ms, |ms|)
  {
    FlattenedIsConcat(ms);
    ConcatLength(FlatModules(ms));
    RowsBeforeIsLengthBefore(ms, |ms|);
  }

  /** Row i of module k is flattened to position RowsBefore(k) + i: module order first, then row order. */
  lemma FlattenedPosition(ms: seq<ApiModule>, k: nat, i: nat)
    requires k < |ms| && i < |ms[k].rows|
    ensures RowsBefore(ms, k) + i < |Flattened(ms)|
    ensures Flattened(ms)[RowsBefore(ms, k) + i] == FlatModules(ms)[k][i]
  {
    FlattenedIsConcat(ms);
    RowsBeforeIsLengthBefore(ms, k);
    ConcatPosition(FlatModules(ms), k, i);
  }

  lemma {:induction false} RowsBeforeMonotone(ms: seq<ApiModule>, j: nat, k: nat)
    requires j <= k <= |ms|
    ensures RowsBefore(ms, j) <= RowsBefore(ms, k)
  {
    if j < k {
      RowsBeforeMonotone(ms, j, k - 1);
    }
  }

  /** The gathered row array holds, under a column, the value of the last cell in that column. */
  lemma {:induction false} RowFieldsLastWins(id: int, cells: seq<ApiCell>, j: nat)
    requires j < |cells|
    requires forall k :: j < k < |cells| ==> cells[k].column != cells[j].column
    ensures Field(RowFields(id, cells), cells[j].column) == PhpString(cells[j].value)
  {
    if j < |cells| - 1 {
      RowFieldsLastWins(id, cells[..|cells| - 1], j);
    }
  }

  /**
   * A row built by get_data() from a record flattens to the record's id and
   * feedback, and to ord(options) - 64 for a radio module or the answer for
   * the textual types.
   */
  lemma FlatRowOfRecord(mtype: int, row: ApiRow, r: AnswerRecord)
    requires RowFrom(row, r, ColumnStructure())
    ensures FlatRow(mtype, row).feedback == PhpString(r.feedback)
    ensures mtype == RadioChecked ==> FlatRow(mtype, row).value == PhpInt(Ord(r.options) - 64)
    ensures mtype == LetterByLetter || mtype == FreeText ==> FlatRow(mtype, row).value == PhpString(r.answer)
  {
    var cols := ColumnStructure();
    assert row.cells[1].column == "options" && row.cells[2].column == "answer" && row.cells[3].column == "feedback" by {
      assert CellFrom(row.cells[1], r, cols[1]) && CellFrom(row.cells[2], r, cols[2]) && CellFrom(row.cells[3], r, cols[3]);
    }
    assert row.cells[0].column == "name" by {
      assert CellFrom(row.cells[0], r, cols[0]);
    }
    RowFieldsLastWins(row.id, row.cells, 1);
    RowFieldsLastWins(row.id, row.cells, 2);
    RowFieldsLastWins(row.id, row.cells, 3);
  }

  /** Option letters A and B give the radio values 1 and 2. */
  lemma RadioLettersCount()
    ensures Ord("A") - 64 == 1 && Ord("B") - 64 == 2 && Ord("J") - 64 == 10
  {
  }

  /** The answer values of flattened rows, in order. */
  function Values(fs: seq<FlatAnswer>): (r: seq<PhpValue>)
    ensures |r| == |fs| && forall p :: 0 <= p < |fs| ==> r[p] == fs[p].value
  {
    if |fs| == 0 then [] else Values(fs[..|fs| - 1]) + [fs[|fs| - 1].value]
  }

  function Ids(fs: seq<FlatAnswer>): (r: seq<PhpValue>)
    ensures |r| == |fs| && forall p :: 0 <= p < |fs| ==> r[p] == fs[p].id
  {
    if |fs| == 0 then [] else Ids(fs[..|fs| - 1]) + [fs[|fs| - 1].id]
  }

  function Feedbacks(fs: seq<FlatAnswer>): (r: seq<PhpValue>)
    ensures |r| == |fs| && forall p :: 0 <= p < |fs| ==> r[p] == fs[p].feedback
  {
    if |fs| == 0 then [] else Feedbacks(fs[..|fs| - 1]) + [fs[|fs| - 1].feedback]
  }

  function Zeros(n: nat): (r: seq<real>)
    ensures |r| == n && forall p :: 0 <= p < n ==> r[p] == 0.0
  {
    if n == 0 then [] else Zeros(n - 1) + [0.0]
  }

  /** Each feedback text wrapped as a plain-text editor, in the same order. */
  function Wrapped(texts: seq<PhpValue>): (r: seq<FeedbackEditor>)
    ensures |r| == |texts| && forall p :: 0 <= p < |texts| ==> r[p] == FeedbackEditor(FormatPlain, texts[p])
  {
    if |texts| == 0 then [] else Wrapped(texts[..|texts| - 1]) + [FeedbackEditor(FormatPlain, texts[|texts| - 1])]
  }

  /** The form arrays with the flattened answers appended. */
  function Appended(prior: FormArrays, fs: seq<FlatAnswer>): FormArrays
  {
    FormArrays(prior.answer + Values(fs), prior.answersheetanswer + Ids(fs),
      prior.fraction + Zeros(|fs|), prior.feedback + Feedbacks(fs))
  }

  /**
   * Appending keeps the four arrays in lockstep: starting from arrays of
   * equal length, each flattened row lands at the same index in all four,
   * with fraction 0.
   */
  lemma AppendedLockstep(prior: FormArrays, fs: seq<FlatAnswer>, p: nat)
    requires |prior.answer| == |prior.answersheetanswer| == |prior.fraction| == |prior.feedback|
    requires p < |fs|
    ensures var a := Appended(prior, fs);
      && |a.answer| == |a.answersheetanswer| == |a.fraction| == |a.feedback| == |prior.answer| + |fs|
      && a.answer[|prior.answer| + p] == fs[p].value
      && a.answersheetanswer[|prior.answer| + p] == fs[p].id
      && a.fraction[|prior.answer| + p] == 0.0
      && a.feedback[|prior.answer| + p] == fs[p].feedback
  {
  }

  /**
   * save_question_options(), the flattening: every row of every module
   * becomes one answer, appended to the form arrays in lockstep, and the
   * feedback texts are then wrapped as plain-text editors (none at all when
   * there is no feedback).
   */
  method SaveQuestionOptions(modules: seq<ApiModule>, prior: FormArrays)
    returns (arrays: FormArrays, feedback: Option<seq<FeedbackEditor>>)
    ensures arrays == Appended(prior, Flattened(modules))
    ensures feedback == if |arrays.feedback| == 0 then None else Some(Wrapped(arrays.feedback))
  {
    var newanswers := FlattenModules(modules);
    arrays := AppendAnswers(prior, newanswers);
    if |arrays.feedback| == 0 {
      feedback := None;
    } else {
      var editors := WrapFeedback(arrays.feedback);
      feedback := Some(editors);
    }
  }

  /** The nested loop over modules and rows that gathers the flattened answers. */
  method FlattenModules(modules: seq<ApiModule>) returns (newanswers: seq<FlatAnswer>)
    ensures newanswers == Flattened(modules)
  {
    newanswers := [];
    var i := 0;
    while i < |modules|
      invariant 0 <= i <= |modules|
      invariant newanswers == Flattened(modules[..i])
    {
      assert modules[..i + 1][..i] == modules[..i];
      var rows := FlattenRows(modules[i]);
      newanswers := newanswers + rows;
      i := i + 1;
    }
    assert modules[..i] == modules;
  }

  /** The inner loop: the rows of one module, in order. */
  method FlattenRows(m: ApiModule) returns (rows: seq<FlatAnswer>)
    ensures rows == FlatModule(m)
  {
    rows := [];
    var j := 0;
    while j < |m.rows|
      invariant 0 <= j <= |m.rows|
      invariant rows == FlatRows(m.mtype, m.rows[..j])
    {
      assert m.rows[..j + 1][..j] == m.rows[..j];
      rows := rows + [FlatRow(m.mtype, m.rows[j])];
      j := j + 1;
    }
    assert m.rows[..j] == m.rows;
  }

  /** The lockstep loop: value, id, fraction 0 and feedback appended for each flattened answer. */
  method AppendAnswers(prior: FormArrays, newanswers: seq<FlatAnswer>) returns (arrays: FormArrays)
    ensures arrays == Appended(prior, newanswers)
  {
    arrays := prior;
    var k := 0;
    while k < |newanswers|
      invariant 0 <= k <= |newanswers|
      invariant arrays == Appended(prior, newanswers[..k])
    {
      var answer := newanswers[k];
      assert newanswers[..k + 1][..k] == newanswers[..k];
      arrays := FormArrays(arrays.answer + [answer.value], arrays.answersheetanswer + [answer.id],
        arrays.fraction + [0.0], arrays.feedback + [answer.feedback]);
      AppendedStep(prior, newanswers[..k + 1]);
      k := k + 1;
    }
    assert newanswers[..k] == newanswers;
  }

  lemma AppendedStep(prior: FormArrays, fs: seq<FlatAnswer>)
    requires |fs| > 0
    ensures
      var a := Appended(prior, fs[..|fs| - 1]);
      var f := fs[|fs| - 1];
      Appended(prior, fs) == FormArrays(a.answer + [f.value], a.answersheetanswer + [f.id], a.fraction + [0.0], a.feedback + [f.feedback])
  {
    var init := fs[..|fs| - 1];
    var f := fs[|fs| - 1];
    assert (prior.answer + Values(init)) + [f.value] == prior.answer + Values(fs);
    assert (prior.answersheetanswer + Ids(init)) + [f.id] == prior.answersheetanswer + Ids(fs);
    assert (prior.fraction + Zeros(|init|)) + [0.0] == prior.fraction + Zeros(|fs|);
    assert (prior.feedback + Feedbacks(init)) + [f.feedback] == prior.feedback + Feedbacks(fs);
  }

  /** The feedback loop: each text wrapped as a plain-text editor. */
  method WrapFeedback(texts: seq<PhpValue>) returns (editors: seq<FeedbackEditor>)
    ensures editors == Wrapped(texts)
  {
    editors := [];
    var q := 0;
    while q < |texts|
      invariant 0 <= q <= |texts|
      invariant editors == Wrapped(texts[..q])
    {
      assert texts[..q + 1][..q] == texts[..q];
      editors := editors + [FeedbackEditor(FormatPlain, texts[q])];
      q := q + 1;
    }
    assert texts[..q] == texts;
  }

  // ------------------------------------------------------------ parts

  /** One part record: the question, the start offset and the module name. */
  datatype Part = Part(questionid: int, start: nat, name: string)

  /** The modules get_data() returns for a question: none when it has none. */
  function ModulesOf(data: map<int, seq<ApiModule>>, questionid: int): seq<ApiModule>
  {
    if questionid in data then data[questionid] else []
  }

  /** The question whose modules save_parts() reads: a fixed id, whatever question is saved. */
  const PartsSourceQuestion: int := 1000

  /** The start save_parts() records for part k: 0, then the row count of the PREVIOUS module only. */
  function AsWrittenStart(ms: seq<ApiModule>, k: nat): nat
    requires k < |ms|
  {
    if k == 0 then 0 else |ms[k - 1].rows|
  }

  /** The parts recorded for the modules, as written: each start taken from the previous module. */
  function PartsAsWrittenOf(questionid: int, ms: seq<ApiModule>): (r: seq<Part>)
    ensures |r| == |ms|
  {
    if |ms| == 0 then []
    else PartsAsWrittenOf(questionid, ms[..|ms| - 1]) + [Part(questionid, AsWrittenStart(ms, |ms| - 1), ms[|ms| - 1].modulename)]
  }

  /** As written, part k carries the module's name and the row count of the module before it as its start. */
  lemma {:induction false} PartsAsWrittenOfMeaning(questionid: int, ms: seq<ApiModule>)
    ensures forall k :: 0 <= k < |ms| ==>
      PartsAsWrittenOf(questionid, ms)[k] == Part(questionid, AsWrittenStart(ms, k), ms[k].modulename)
  {
    if |ms| > 0 {
      var init := ms[..|ms| - 1];
      PartsAsWrittenOfMeaning(questionid, init);
      forall k | 0 <= k < |init|
        ensures AsWrittenStart(init, k) == AsWrittenStart(ms, k)
      {
      }
    }
  }

  /** One more module adds one part at the end. */
  lemma PartsAsWrittenStep(questionid: int, ms: seq<ApiModule>, k: nat)
    requires k < |ms|
    ensures PartsAsWrittenOf(questionid, ms[..k + 1])
         == PartsAsWrittenOf(questionid, ms[..k]) + [Part(questionid, AsWrittenStart(ms, k), ms[k].modulename)]
  {
    assert ms[..k + 1][..k] == ms[..k];
  }

  /** The parts save_parts() records for a question, as written: none for an unsaved question. */
  function PartsAsWritten(questionid: int, data: map<int, seq<ApiModule>>): seq<Part>
  {
    if questionid == 0 then [] else PartsAsWrittenOf(questionid, ModulesOf(data, PartsSourceQuestion))
  }

  /**
   * save_parts(): for a saved question, one part per module of question
   * 1000, with the start carried over from the previous module's row count.
   */
  method SaveParts(questionid: int, data: map<int, seq<ApiModule>>) returns (parts: seq<Part>)
    ensures parts == PartsAsWritten(questionid, data)
  {
    parts := [];
    if questionid == 0 {
      return;
    }
    var modules := ModulesOf(data, PartsSourceQuestion);
    var start := 0;
    var k := 0;
    while k < |modules|
      invariant 0 <= k <= |modules|
      invariant parts == PartsAsWrittenOf(questionid, modules[..k])
      invariant k < |modules| ==> start == AsWrittenStart(modules, k)
    {
      var mod := modules[k];
      PartsAsWrittenStep(questionid, modules, k);
      parts := parts + [Part(questionid, start, mod.modulename)];
      start := |mod.rows|;
      k := k + 1;
    }
    assert modules[..k] == modules;
  }

  /** As written, the parts of a question come from question 1000: a question with modules of its own can get none. */
  lemma PartsIgnoreTheSavedQuestion(m: ApiModule)
    ensures |ModulesOf(map[5 := [m]], 5)| == 1
    ensures PartsAsWritten(5, map[5 := [m]]) == []
  {
  }

  /**
   * As written, the start of the third part is the second module's row
   * count, not the position of the third module's first flattened answer.
   */
  lemma AsWrittenStartIsNotRunningTotal(m0: ApiModule, m1: ApiModule, m2: ApiModule)
    requires |m0.rows| == 2 && |m1.rows| == 3 && |m2.rows| >= 1
    ensures AsWrittenStart([m0, m1, m2], 2) == 3
    ensures RowsBefore([m0, m1, m2], 2) == 5
  {
    assert RowsBefore([m0, m1, m2], 1) == 2;
  }

  /** The parts as evidently intended: each module starting at its first flattened answer. */
  function PartsIntendedOf(questionid: int, ms: seq<ApiModule>): seq<Part>
  {
    if |ms| == 0 then []
    else PartsIntendedOf(questionid, ms[..|ms| - 1]) + [Part(questionid, RowsBefore(ms, |ms| - 1), ms[|ms| - 1].modulename)]
  }

  /** Part k of the corrected list starts after all rows of the modules before it. */
  lemma {:induction false} PartsIntendedOfMeaning(questionid: int, ms: seq<ApiModule>, k: nat)
    requires k < |ms|
    ensures |PartsIntendedOf(questionid, ms)| == |ms|
    ensures PartsIntendedOf(questionid, ms)[k] == Part(questionid, RowsBefore(ms, k), ms[k].modulename)
  {
    var n := |ms| - 1;
    if k < n {
      PartsIntendedOfMeaning(questionid, ms[..n], k);
      RowsBeforePrefix(ms, n, k);
    } else if n > 0 {
      PartsIntendedOfMeaning(questionid, ms[..n], 0);
    }
  }

  /** The parts as evidently intended: the saved question's own modules. */
  function PartsIntended(questionid: int, data: map<int, seq<ApiModule>>): seq<Part>
  {
    if questionid == 0 then [] else PartsIntendedOf(questionid, ModulesOf(data, questionid))
  }

  /** save_parts() corrected: the running total of the earlier modules' rows, over the saved question's modules. */
  method SavePartsIntended(questionid: int, data: map<int, seq<ApiModule>>) returns (parts: seq<Part>)
    ensures parts == PartsIntended(questionid, data)
  {
    parts := [];
    if questionid == 0 {
      return;
    }
    var modules := ModulesOf(data, questionid);
    var start := 0;
    var k := 0;
    while k < |modules|
      invariant 0 <= k <= |modules|
      invariant parts == PartsIntendedOf(questionid, modules[..k])
      invariant start == RowsBefore(modules, k)
    {
      var mod := modules[k];
      assert modules[..k + 1][..k] == modules[..k];
      RowsBeforePrefix(modules, k + 1, k);
      parts := parts + [Part(questionid, start, mod.modulename)];
      start := start + |mod.rows|;
      k := k + 1;
    }
    assert modules[..k] == modules;
  }

  /** With the corrected starts, each part starts at the flattened answer of its module's first row. */
  lemma IntendedPartStartsAtItsFirstAnswer(questionid: int, data: map<int, seq<ApiModule>>, k: nat)
    requires questionid != 0 && k < |ModulesOf(data, questionid)|
    requires |ModulesOf(data, questionid)[k].rows| > 0
    ensures |PartsIntended(questionid, data)| == |ModulesOf(data, questionid)|
    ensures
      var ms := ModulesOf(data, questionid);
      var start := PartsIntended(questionid, data)[k].start;
      start < |Flattened(ms)| && Flattened(ms)[start] == FlatRow(ms[k].mtype, ms[k].rows[0])
  {
    PartsIntendedOfMeaning(questionid, ModulesOf(data, questionid), k);
    var ms := ModulesOf(data, questionid);
    FlattenedPosition(ms, k, 0);
    FlatModulesMeaning(ms, k);
    FlatRowsMeaning(ms[k].mtype, ms[k].rows, 0);
  }

  // ------------------------------------------------------------ answer records

  /** Where an answer is stored: an old record reused, or a newly inserted one. */
  datatype Target = Reused(id: int) | Inserted

  /** The storing of the answer with key `key`: the answer-sheet record it links and the answer record used. */
  datatype Placement = Placement(key: nat, sheetid: PhpValue, target: Target)

  /** The keys of the answers that are not blank, in order. */
  function NonBlankKeys(blank: seq<bool>): (r: seq<nat>)
    ensures |r| <= |blank|
    ensures forall p :: 0 <= p < |r| ==> r[p] < |blank| && !blank[r[p]]
  {
    if |blank| == 0 then []
    else NonBlankKeys(blank[..|blank| - 1]) + (if blank[|blank| - 1] then [] else [|blank| - 1])
  }

  /** The keys come in increasing order and every non-blank key is among them. */
  lemma {:induction false} NonBlankKeysComplete(blank: seq<bool>)
    ensures forall p, q :: 0 <= p < q < |NonBlankKeys(blank)| ==> NonBlankKeys(blank)[p] < NonBlankKeys(blank)[q]
    ensures forall key :: 0 <= key < |blank| && !blank[key] ==> key in NonBlankKeys(blank)
  {
    if |blank| > 0 {
      NonBlankKeysComplete(blank[..|blank| - 1]);
    }
  }

  /** $question->answersheetanswer[$key]: the linked answer-sheet record id, null when the key is missing. */
  function SheetIdAt(sheetids: seq<PhpValue>, key: nat): PhpValue
  {
    if key < |sheetids| then sheetids[key] else PhpNull
  }

  /** The k-th non-blank answer takes the k-th old record when there is one, and a new record otherwise. */
  function TargetFor(oldids: seq<int>, k: nat): Target
  {
    if k < |oldids| then Reused(oldids[k]) else Inserted
  }

  /** The placements of the non-blank keys, the p-th taking the p-th old record when there is one. */
  function Placements(keys: seq<nat>, sheetids: seq<PhpValue>, oldids: seq<int>): (r: seq<Placement>)
    ensures |r| == |keys|
  {
    if |keys| == 0 then []
    else
      var n := |keys| - 1;
      Placements(keys[..n], sheetids, oldids) + [Placement(keys[n], SheetIdAt(sheetids, keys[n]), TargetFor(oldids, n))]
  }

  /** The old records left over once `used` of them have been taken. */
  function Leftover(oldids: seq<int>, used: nat): seq<int>
  {
    if used < |oldids| then oldids[used..] else []
  }

  /** The p-th kept answer is stored with its own answer-sheet id in the p-th old record, or a new one when none is left. */
  lemma {:induction false} PlacementsMeaning(keys: seq<nat>, sheetids: seq<PhpValue>, oldids: seq<int>)
    ensures forall p :: 0 <= p < |keys| ==>
      Placements(keys, sheetids, oldids)[p] == Placement(keys[p], SheetIdAt(sheetids, keys[p]), TargetFor(oldids, p))
  {
    if |keys| > 0 {
      var n := |keys| - 1;
      PlacementsMeaning(keys[..n], sheetids, oldids);
    }
  }

  /** The reused records of a placement list, in order. */
  function ReusedIds(ps: seq<Placement>): seq<int>
  {
    if |ps| == 0 then []
    else ReusedIds(ps[..|ps| - 1]) + (if ps[|ps| - 1].target.Reused? then [ps[|ps| - 1].target.id] else [])
  }

  /**
   * Every old record is either reused exactly once or deleted as left
   * over: together they are the old records, in ascending-id order.
   */
  lemma {:induction false} OldRecordsPartitioned(keys: seq<nat>, sheetids: seq<PhpValue>, oldids: seq<int>)
    ensures ReusedIds(Placements(keys, sheetids, oldids)) + Leftover(oldids, |keys|) == oldids
  {
    ReusedPrefix(keys, sheetids, oldids);
    if |keys| < |oldids| {
      assert oldids[..|keys|] + oldids[|keys|..] == oldids;
    }
  }

  /** The reused records are the first old records, one per answer while they last. */
  lemma {:induction false} ReusedPrefix(keys: seq<nat>, sheetids: seq<PhpValue>, oldids: seq<int>)
    ensures ReusedIds(Placements(keys, sheetids, oldids)) == oldids[..if |keys| < |oldids| then |keys| else |oldids|]
  {
    if |keys| > 0 {
      var n := |keys| - 1;
      ReusedPrefix(keys[..n], sheetids, oldids);
      var ps := Placements(keys, sheetids, oldids);
      assert ps[..n] == Placements(keys[..n], sheetids, oldids);
      if n < |oldids| {
        assert oldids[..n + 1] == oldids[..n] + [oldids[n]];
      }
    }
  }

  /** New records are inserted only for the answers beyond the old records. */
  lemma InsertedOnlyPastOldRecords(keys: seq<nat>, sheetids: seq<PhpValue>, oldids: seq<int>, p: nat)
    requires p < |keys|
    ensures Placements(keys, sheetids, oldids)[p].target.Inserted? <==> p >= |oldids|
  {
    PlacementsMeaning(keys, sheetids, oldids);
  }

  /**
   * save_question_answers(): skip blank answers; give each other answer, in
   * key order, the next old answer record (ascending by id), or a new one
   * when none is left, and link it to the answer's answer-sheet record; the
   * old records left over are deleted.
   */
  method SaveQuestionAnswers(blank: seq<bool>, sheetids: seq<PhpValue>, oldids: seq<int>)
    returns (placed: seq<Placement>, deleted: seq<int>)
    ensures placed == Placements(NonBlankKeys(blank), sheetids, oldids)
    ensures deleted == Leftover(oldids, |NonBlankKeys(blank)|)
  {
    var oldanswers := oldids;
    placed := [];
    ghost var keys: seq<nat> := [];
    var key := 0;
    while key < |blank|
      invariant 0 <= key <= |blank|
      invariant keys == NonBlankKeys(blank[..key])
      invariant placed == Placements(keys, sheetids, oldids)
      invariant oldanswers == Leftover(oldids, |keys|)
    {
      NonBlankKeysStep(blank, key);
      if !blank[key] {
        var target;
        PlacementsStep(keys, key, sheetids, oldids);
        if |oldanswers| > 0 {
          target := Reused(oldanswers[0]);
          oldanswers := oldanswers[1..];
        } else {
          target := Inserted;
        }
        placed := placed + [Placement(key, SheetIdAt(sheetids, key), target)];
        keys := keys + [key];
      }
      key := key + 1;
    }
    assert blank[..key] == blank;
    deleted := oldanswers;
  }

  lemma NonBlankKeysStep(blank: seq<bool>, key: nat)
    requires key < |blank|
    ensures NonBlankKeys(blank[..key + 1]) == NonBlankKeys(blank[..key]) + (if blank[key] then [] else [key])
  {
    assert blank[..key + 1][..key] == blank[..key];
  }

  lemma PlacementsStep(keys: seq<nat>, key: nat, sheetids: seq<PhpValue>, oldids: seq<int>)
    ensures Placements(keys + [key], sheetids, oldids)
      == Placements(keys, sheetids, oldids) + [Placement(key, SheetIdAt(sheetids, key), TargetFor(oldids, |keys|))]
    ensures TargetFor(oldids, |keys|) == if |Leftover(oldids, |keys|)| > 0 then Reused(Leftover(oldids, |keys|)[0]) else Inserted
    ensures Leftover(oldids, |keys| + 1) == if |Leftover(oldids, |keys|)| > 0 then Leftover(oldids, |keys|)[1..] else []
  {
    assert (keys + [key])[..|keys|] == keys;
  }
}
