/**
 * The preparation of the answer-sheet modules for display in an attempt:
 * the radio choice lists with their selected flag, the letter-by-letter
 * slots, the correct answer of each module type, the correctness mark and
 * the per-row unique identifiers.  The attempt's accessors (field names,
 * last submitted values) and the display options are inputs.
 */
module Display {
  import opened Wrappers
  import opened StringOps
  import opened AnswersheetModule
  import opened AnswersheetApi

  /**
   * The attempt and display context: the prefix get_qt_field_name() puts
   * before a name, the last submitted value of each variable, whether
   * correctness is shown, and the CSS class of a wrong (0) and a right (1)
   * answer.
   */
  datatype Attempt = Attempt(
    fieldPrefix: string,
    lastVars: map<string, string>,
    correctness: bool,
    wrongClass: string,
    rightClass: string)

  /** The correctness mark of a choice or a row: the class and the 0/1 verdict. */
  datatype Mark = Mark(additionalclass: string, iscorrect: int)

  /** A radio choice: its letter, its 1-based value, whether the response selects it, and its mark. */
  datatype Choice = Choice(letter: string, value: int, selected: bool, mark: Option<Mark>)

  /** A letter-by-letter slot: the expected letter ('' past the answer's end) and its 1-based index. */
  datatype Slot = Slot(letter: string, index: int)

  datatype Answers = NoAnswers | Choices(choices: seq<Choice>) | Slots(slots: seq<Slot>)

  /** One prepared row. */
  datatype ShownQuestion = ShownQuestion(
    id: string,
    response: string,
    cells: map<string, string>,
    correctanswer: Option<PhpValue>,
    answers: Answers,
    mark: Option<Mark>,
    questionuid: string)

  /** One prepared module; `typeflag` is the key set to true (the class name, '' for an unknown type). */
  datatype ShownModule = ShownModule(
    id: int,
    modulename: string,
    questions: seq<ShownQuestion>,
    columns: seq<Column>,
    colspan: int,
    typeflag: string,
    possibleanswers: Option<seq<string>>)

  // --------------------------------------------- compare_response_with_answer

  /**
   * compare_response_with_answer(): 1 when the trimmed, lower-cased response
   * and correct answer are loosely equal (numerically when both are
   * numeric), 0 otherwise.  An integer correct answer is first turned into
   * its decimal string.
   */
  function CompareResponseWithAnswer(response: string, correctanswer: PhpValue): (r: int)
    ensures r == 0 || r == 1
    ensures r == 1 <==> LooseEqual(Normal(ToPhpString(correctanswer)), Normal(response))
  {
    if LooseEqual(Normal(ToPhpString(correctanswer)), Normal(response)) then 1 else 0
  }

  /** trim(strtolower(s)). */
  function Normal(s: string): string
  {
    Trim(Lower(s))
  }

  /** Text answers: the verdict is symmetric in response and answer. */
  lemma CompareIsSymmetric(a: string, b: string)
    ensures CompareResponseWithAnswer(a, PhpString(b)) == CompareResponseWithAnswer(b, PhpString(a))
  {
    LooseEqualIsEquivalence(Normal(a), Normal(b), Normal(a));
  }

  /** The decimal form of an integer is lower-case and trimmed already. */
  lemma DecimalIsLowerTrimmed(n: int)
    ensures Normal(IntToString(n)) == IntToString(n)
  {
    var s := IntToString(n);
    assert Lower(s) == s;
    assert s[0] == '-' || IsDigit(s[0]);
    TrimOfTrimmed(s);
  }

  /**
   * For a radio row whose answer cell is the k-th capital letter, the
   * response k (its value in the choice list) is right.
   */
  lemma RadioValueMatchesLetter(answer: string, k: nat)
    requires 1 <= k <= 26 && |answer| > 0 && answer[0] as int == 64 + k
    ensures CompareResponseWithAnswer(IntToString(k), PhpInt(Ord(answer) - 64)) == 1
  {
    DecimalIsLowerTrimmed(k);
    LooseEqualIsEquivalence(IntToString(k), IntToString(k), IntToString(k));
  }

  // ------------------------------------------------------------ choices

  /** The indices 0 .. numoptions - 1 the closures run over (PHP range(), so 0 and -1 when numoptions is 0). */
  function OptionIndices(numoptions: int): seq<int>
  {
    Range(0, numoptions - 1)
  }

  /** The radio module's possible answers: chr(65 + i) for every index. */
  function PossibleAnswers(numoptions: int): (r: seq<string>)
    ensures |r| == |OptionIndices(numoptions)|
    ensures numoptions >= 1 ==> |r| == numoptions && forall i :: 0 <= i < numoptions ==> r[i] == Chr(65 + i)
  {
    var idx := OptionIndices(numoptions);
    seq(|idx|, k requires 0 <= k < |idx| => Chr(65 + idx[k]))
  }

  /** Four options offer A, B, C and D. */
  lemma FourPossibleAnswers()
    ensures PossibleAnswers(4) == ["A", "B", "C", "D"]
  {
  }

  /** One radio choice for index i: selected when the response loosely equals i + 1, marked then if correctness is shown. */
  function MakeChoice(i: int, response: string, verdict: int, ctx: Attempt): (c: Choice)
    ensures c.letter == Chr(65 + i) && c.value == i + 1
    ensures c.selected <==> LooseEqualInt(response, i + 1)
    ensures c.mark.Some? <==> c.selected && ctx.correctness
  {
    var selected := LooseEqualInt(response, i + 1);
    Choice(Chr(65 + i), i + 1, selected,
      if selected && ctx.correctness then Some(MarkFor(verdict, ctx)) else None)
  }

  /** $displayoptions[$iscorrect]->additionalclass with the verdict. */
  function MarkFor(verdict: int, ctx: Attempt): Mark
  {
    Mark(if verdict == 1 then ctx.rightClass else ctx.wrongClass, verdict)
  }

  /** The choice list of a radio row. */
  function RadioChoices(numoptions: int, response: string, verdict: int, ctx: Attempt): (r: seq<Choice>)
    ensures |r| == |OptionIndices(numoptions)|
    ensures numoptions >= 1 ==> forall i :: 0 <= i < numoptions ==>
      r[i].letter == Chr(65 + i) && r[i].value == i + 1 && (r[i].selected <==> LooseEqualInt(response, i + 1))
  {
    var idx := OptionIndices(numoptions);
    seq(|idx|, k requires 0 <= k < |idx| => MakeChoice(idx[k], response, verdict, ctx))
  }

  /** At most one choice is selected: values are distinct, and a response has one numeric value. */
  lemma AtMostOneSelected(numoptions: int, response: string, verdict: int, ctx: Attempt, i: nat, j: nat)
    requires i < |RadioChoices(numoptions, response, verdict, ctx)| && j < |RadioChoices(numoptions, response, verdict, ctx)|
    requires RadioChoices(numoptions, response, verdict, ctx)[i].selected
    requires RadioChoices(numoptions, response, verdict, ctx)[j].selected
    ensures i == j
  {
    var idx := OptionIndices(numoptions);
    assert idx[i] + 1 == idx[j] + 1;
  }

  /** The response that is the decimal form of k selects exactly the k-th choice. */
  lemma DecimalResponseSelects(numoptions: int, k: int, verdict: int, ctx: Attempt, i: nat)
    requires 1 <= k && 1 <= numoptions && i < numoptions
    ensures RadioChoices(numoptions, IntToString(k), verdict, ctx)[i].selected <==> i + 1 == k
  {
    IntNumericOfIntToString(k);
  }

  // -------------------------------------------------------------- slots

  /**
   * One letter slot at index i: '' when i is at or past the answer's length,
   * otherwise the character at offset i (a negative offset counts from the
   * end, and one before the start reads as '').
   */
  function MakeSlot(answer: string, i: int): (s: Slot)
    ensures s.index == i + 1
    ensures 0 <= i < |answer| ==> s.letter == [answer[i]]
    ensures i >= |answer| ==> s.letter == ""
  {
    if i >= |answer| then Slot("", i + 1)
    else if i >= 0 then Slot([answer[i]], i + 1)
    else if -i <= |answer| then Slot([answer[|answer| + i]], i + 1)
    else Slot("", i + 1)
  }

  /** The slot list of a letter-by-letter row. */
  function LetterSlots(answer: string, numoptions: int): (r: seq<Slot>)
    ensures |r| == |OptionIndices(numoptions)|
    ensures numoptions >= 1 ==> forall i :: 0 <= i < numoptions ==>
      r[i].index == i + 1 && r[i].letter == (if i < |answer| then [answer[i]] else "")
  {
    var idx := OptionIndices(numoptions);
    seq(|idx|, k requires 0 <= k < |idx| => MakeSlot(answer, idx[k]))
  }

  /** With no options, range(0, -1) yields the indices 0 and -1: the second slot shows the answer's last letter. */
  lemma NoOptionsGivesTwoSlots(answer: string)
    requires |answer| > 0
    ensures |LetterSlots(answer, 0)| == 2
    ensures LetterSlots(answer, 0)[1] == Slot([answer[|answer| - 1]], 0)
  {
  }

  // --------------------------------------------------------------- rows

  /** The row's cells by column, a later cell of the same column overriding an earlier one. */
  function CellFields(cells: seq<ApiCell>): (m: map<string, string>)
    ensures forall c :: c in cells ==> c.column in m
    ensures forall k :: k in m ==> exists c :: c in cells && c.column == k
  {
    if cells == [] then map[]
    else
      var last := cells[|cells| - 1];
      var init := cells[..|cells| - 1];
      assert forall c :: c in cells ==> c in init || c == last;
      assert forall c :: c in init ==> c in cells;
      CellFields(init)[last.column := last.value]
  }

  /** The value of the answer cell, '' (PHP null) when the row has none. */
  function AnswerCell(fields: map<string, string>): string
  {
    if "answer" in fields then fields["answer"] else ""
  }

  /** "question_<m>_<r>". */
  function QuestionUid(mi: nat, ri: nat): string
  {
    "question_" + NatToString(mi) + "_" + NatToString(ri)
  }

  /** The correct answer of a row: ord(answer) - 64 for radio, the answer cell for the textual types. */
  function CorrectAnswer(mtype: int, fields: map<string, string>): (r: Option<PhpValue>)
    ensures mtype == RadioChecked ==> r == Some(PhpInt(Ord(AnswerCell(fields)) - 64))
    ensures mtype == FreeText || mtype == LetterByLetter ==> r == Some(PhpString(AnswerCell(fields)))
    ensures r.Some? <==> mtype in Types
  {
    if mtype == RadioChecked then Some(PhpInt(Ord(AnswerCell(fields)) - 64))
    else if mtype == FreeText || mtype == LetterByLetter then Some(PhpString(AnswerCell(fields)))
    else None
  }

  /** A radio answer 'A' is index 1, 'B' index 2. */
  lemma RadioCorrectAnswerIsLetterIndex(fields: map<string, string>)
    requires "answer" in fields && fields["answer"] == "B"
    ensures CorrectAnswer(RadioChecked, fields) == Some(PhpInt(2))
  {
  }

  /** The row's last submitted value: get_last_qt_var() with default ''. */
  function RowResponse(row: ApiRow, ctx: Attempt): string
  {
    var name := "answer" + IntToString(row.answerid);
    if name in ctx.lastVars then ctx.lastVars[name] else ""
  }

  /** The verdict compare_response_with_answer() gives a row (0 when the type has no correct answer). */
  function RowVerdict(correct: Option<PhpValue>, response: string): int
  {
    if correct.Some? then CompareResponseWithAnswer(response, correct.value) else 0
  }

  /** The row's answers array: choices for radio, slots for letter by letter, empty otherwise. */
  function RowAnswers(m: ApiModule, response: string, verdict: int, fields: map<string, string>, ctx: Attempt): (r: Answers)
    ensures r.Choices? <==> m.mtype == RadioChecked
    ensures r.Slots? <==> m.mtype == LetterByLetter
  {
    if m.mtype == RadioChecked then Choices(RadioChoices(m.numoptions, response, verdict, ctx))
    else if m.mtype == LetterByLetter then Slots(LetterSlots(AnswerCell(fields), m.numoptions))
    else NoAnswers
  }

  /**
   * Row ri of module m (module index mi) with its cells already copied by
   * column: the field name and last submitted value, the type-specific
   * correct answer and answers array, the correctness mark and the uid.
   */
  function ShapeRow(m: ApiModule, mi: nat, ri: nat, row: ApiRow, fields: map<string, string>, ctx: Attempt): ShownQuestion
  {
    var response := RowResponse(row, ctx);
    var correct := CorrectAnswer(m.mtype, fields);
    var verdict := RowVerdict(correct, response);
    var mark := if ctx.correctness && correct.Some? then Some(MarkFor(verdict, ctx)) else None;
    ShownQuestion(ctx.fieldPrefix + ("answer" + IntToString(row.answerid)), response, fields, correct,
      RowAnswers(m, response, verdict, fields, ctx), mark, QuestionUid(mi, ri))
  }

  /** Row ri of module m (module index mi) as prepared for display. */
  function ShowRow(m: ApiModule, mi: nat, ri: nat, row: ApiRow, ctx: Attempt): ShownQuestion
  {
    ShapeRow(m, mi, ri, row, CellFields(row.cells), ctx)
  }

  /** A row's uid is question_<m>_<r> and its id is the attempt's field name for answer<answerid>. */
  lemma ShowRowIdentifiers(m: ApiModule, mi: nat, ri: nat, row: ApiRow, ctx: Attempt)
    ensures ShowRow(m, mi, ri, row, ctx).questionuid == QuestionUid(mi, ri)
    ensures ShowRow(m, mi, ri, row, ctx).id == ctx.fieldPrefix + ("answer" + IntToString(row.answerid))
  {
  }

  /** A row is marked exactly when correctness is shown and the module type is known. */
  lemma ShowRowMarked(m: ApiModule, mi: nat, ri: nat, row: ApiRow, ctx: Attempt)
    ensures ShowRow(m, mi, ri, row, ctx).mark.Some? <==> ctx.correctness && m.mtype in Types
  {
  }

  /** A selected choice of a marked radio row carries the row's own mark. */
  lemma SelectedChoiceSharesRowMark(m: ApiModule, mi: nat, ri: nat, row: ApiRow, ctx: Attempt, i: nat)
    requires m.mtype == RadioChecked && ctx.correctness
    requires ShowRow(m, mi, ri, row, ctx).answers.Choices?
    requires i < |ShowRow(m, mi, ri, row, ctx).answers.choices|
    requires ShowRow(m, mi, ri, row, ctx).answers.choices[i].selected
    ensures ShowRow(m, mi, ri, row, ctx).answers.choices[i].mark == ShowRow(m, mi, ri, row, ctx).mark
  {
    var fields := CellFields(row.cells);
    var response := RowResponse(row, ctx);
    var correct := CorrectAnswer(m.mtype, fields);
    var verdict := RowVerdict(correct, response);
    var shown := ShowRow(m, mi, ri, row, ctx);
    assert shown == ShapeRow(m, mi, ri, row, fields, ctx);
    assert shown.mark == Some(MarkFor(verdict, ctx));
    var choices := RadioChoices(m.numoptions, response, verdict, ctx);
    assert shown.answers == Choices(choices);
    var idx := OptionIndices(m.numoptions);
    assert choices[i] == MakeChoice(idx[i], response, verdict, ctx);
  }

  /** Module number mi as prepared for display. */
  function ShowModule(m: ApiModule, mi: nat, ctx: Attempt): (r: ShownModule)
    ensures r.colspan == m.numoptions + 1
    ensures |r.questions| == |m.rows|
    ensures forall ri :: 0 <= ri < |m.rows| ==> r.questions[ri] == ShowRow(m, mi, ri, m.rows[ri], ctx)
    ensures r.possibleanswers.Some? <==> m.mtype == RadioChecked
  {
    ShownModule(m.id, m.modulename,
      seq(|m.rows|, ri requires 0 <= ri < |m.rows| => ShowRow(m, mi, ri, m.rows[ri], ctx)),
      m.columns, m.numoptions + 1,
      if m.mtype in Types then Types[m.mtype] else "",
      if m.mtype == RadioChecked then Some(PossibleAnswers(m.numoptions)) else None)
  }

  lemma DropPrefix(p: string, t: string)
    ensures (p + t)[|p|..] == t
  {
  }

  /** Row identifiers are unique: distinct (module, row) positions get distinct questionuid strings. */
  lemma QuestionUidInjective(m1: nat, r1: nat, m2: nat, r2: nat)
    requires QuestionUid(m1, r1) == QuestionUid(m2, r2)
    ensures m1 == m2 && r1 == r2
  {
    var t1 := NatToString(m1) + "_" + NatToString(r1);
    var t2 := NatToString(m2) + "_" + NatToString(r2);
    assert QuestionUid(m1, r1) == "question_" + t1;
    assert QuestionUid(m2, r2) == "question_" + t2;
    DropPrefix("question_", t1);
    DropPrefix("question_", t2);
    NumberPairInjective(m1, r1, m2, r2);
  }

  // ------------------------------------------------------- processmodules

  /**
   * processmodules(): each module in order, numbered from 0, with each of
   * its rows in order, numbered from 0 within the module.
   */
  method ProcessModules(data: seq<ApiModule>, ctx: Attempt) returns (newdata: seq<ShownModule>)
    ensures |newdata| == |data|
    ensures forall mi :: 0 <= mi < |data| ==> newdata[mi] == ShowModule(data[mi], mi, ctx)
  {
    newdata := [];
    var moduleindex := 0;
    while moduleindex < |data|
      invariant 0 <= moduleindex <= |data| && |newdata| == moduleindex
      invariant forall mi :: 0 <= mi < moduleindex ==> newdata[mi] == ShowModule(data[mi], mi, ctx)
    {
      var m := data[moduleindex];
      var questions := ShowRows(m, moduleindex, ctx);
      var typeflag := if m.mtype in Types then Types[m.mtype] else "";
      var possibleanswers := if m.mtype == RadioChecked then Some(PossibleAnswers(m.numoptions)) else None;
      var shown := ShownModule(m.id, m.modulename, questions, m.columns, m.numoptions + 1, typeflag, possibleanswers);
      assert shown == ShowModule(m, moduleindex, ctx);
      newdata := newdata + [shown];
      moduleindex := moduleindex + 1;
    }
  }

  /** The inner loop of processmodules(): the rows of module number mi, in order. */
  method ShowRows(m: ApiModule, mi: nat, ctx: Attempt) returns (questions: seq<ShownQuestion>)
    ensures questions == ShowModule(m, mi, ctx).questions
  {
    questions := [];
    var rowindex := 0;
    while rowindex < |m.rows|
      invariant 0 <= rowindex <= |m.rows| && |questions| == rowindex
      invariant forall ri :: 0 <= ri < rowindex ==> questions[ri] == ShowRow(m, mi, ri, m.rows[ri], ctx)
    {
      var row := m.rows[rowindex];
      var fields := CopyCells(row.cells);
      var newquestion := ShapeRow(m, mi, rowindex, row, fields, ctx);
      questions := questions + [newquestion];
      rowindex := rowindex + 1;
    }
    var spec := ShowModule(m, mi, ctx).questions;
    assert |questions| == |spec|;
    assert forall ri :: 0 <= ri < |spec| ==> questions[ri] == spec[ri];
  }

  /** The loop that copies a row's cells into the row by column. */
  method CopyCells(cells: seq<ApiCell>) returns (fields: map<string, string>)
    ensures fields == CellFields(cells)
  {
    fields := map[];
    var i := 0;
    while i < |cells|
      invariant 0 <= i <= |cells|
      invariant fields == CellFields(cells[..i])
    {
      assert cells[..i + 1][..i] == cells[..i];
      fields := fields[cells[i].column := cells[i].value];
      i := i + 1;
    }
    assert cells[..i] == cells;
  }

  /** A column present in the cells maps to the value of its last cell. */
  lemma {:induction false} CellFieldsLastWins(cells: seq<ApiCell>, k: nat)
    requires k < |cells| && forall j :: k < j < |cells| ==> cells[j].column != cells[k].column
    ensures CellFields(cells)[cells[k].column] == cells[k].value
  {
    if k < |cells| - 1 {
      var init := cells[..|cells| - 1];
      assert init[k] == cells[k];
      CellFieldsLastWins(init, k);
    }
  }

  /** In a row from get_data the answer cell holds the record's answer. */
  lemma RowAnswerIsRecordAnswer(row: ApiRow, r: AnswerRecord)
    requires RowFrom(row, r, ColumnStructure())
    ensures AnswerCell(CellFields(row.cells)) == r.answer
  {
    var cols := ColumnStructure();
    assert cols[2].column == "answer" && cols[3].column == "feedback";
    assert CellFrom(row.cells[2], r, cols[2]) && CellFrom(row.cells[3], r, cols[3]);
    assert row.cells[2].column == "answer" && row.cells[2].value == r.answer;
    CellFieldsLastWins(row.cells, 2);
  }
}
