/**
 * The answer sheet API: the fixed four-column schema, the projection of
 * modules and their answer records into rows of cells, and the conversion of
 * an answer between its human form and its stored form.
 */
module AnswersheetApi {
  import opened Wrappers
  import opened StringOps
  import opened AnswersheetModule

  // ------------------------------------------------------------ schema

  datatype SelectOption = SelectOption(name: string, selected: bool)

  /** One column definition of the table structure. */
  datatype Column = Column(
    column: string,
    ctype: string,
    visible: bool,
    canedit: bool,
    labelText: string,
    columnid: int,
    length: int,
    field: string,
    sampleValue: string,
    options: Option<seq<SelectOption>>)

  const SelectType: string := "select"

  /** The candidate letters of the options column: '-' (selected) and then A to J. */
  function CandidateOptions(): (opts: seq<SelectOption>)
    ensures |opts| == 11
    ensures opts[0] == SelectOption("-", true)
    ensures forall i :: 1 <= i < 11 ==> opts[i] == SelectOption(Chr(64 + i), false)
    ensures forall i :: 0 <= i < 11 ==> (opts[i].selected <==> i == 0)
  {
    [ SelectOption("-", true),
      SelectOption("A", false), SelectOption("B", false), SelectOption("C", false),
      SelectOption("D", false), SelectOption("E", false), SelectOption("F", false),
      SelectOption("G", false), SelectOption("H", false), SelectOption("I", false),
      SelectOption("J", false) ]
  }

  /** The names the schema gives its four columns, in order. */
  const ColumnNames: seq<string> := ["name", "options", "answer", "feedback"]

  /**
   * get_table_structure(): four columns, name, options, answer and feedback,
   * in that order; only options is a select column and only it carries
   * candidate options; feedback alone is hidden.
   */
  function TableStructure(): (cols: seq<Column>)
    ensures |cols| == 4
    ensures forall k :: 0 <= k < 4 ==> cols[k].column == ColumnNames[k]
    ensures forall k :: 0 <= k < 4 ==> (cols[k].ctype == SelectType <==> k == 1)
    ensures forall k :: 0 <= k < 4 ==> (cols[k].ctype != SelectType ==> cols[k].ctype == ParamText)
    ensures forall k :: 0 <= k < 4 ==> (cols[k].options.Some? <==> k == 1)
    ensures cols[1].options == Some(CandidateOptions())
    ensures forall k :: 0 <= k < 4 ==> (cols[k].visible <==> k != 3)
    ensures cols[0].length == 50 && cols[1].length == 1000 && cols[2].length == 1000 && cols[3].length == 1000
  {
    [ Column("name", ParamText, true, true, "No", 1, 50, "text", "A", None),
      Column("options", SelectType, true, true, "Correct", 3, 1000, "select", "...", Some(CandidateOptions())),
      Column("answer", ParamText, true, true, "Text", 4, 1000, "select", "...", None),
      Column("feedback", ParamText, false, true, "Feedback", 5, 1000, "select", "...", None) ]
  }

  /** get_column_structure(): the values of the table structure, in order. */
  function ColumnStructure(): (cols: seq<Column>)
    ensures |cols| == 4
    ensures forall k :: 0 <= k < 4 ==> cols[k] == TableStructure()[k]
  {
    TableStructure()
  }

  /** The columnid values of the schema are distinct, so a cell is found by its columnid. */
  lemma ColumnIdsDistinct()
    ensures forall i, j :: 0 <= i < j < 4 ==> ColumnStructure()[i].columnid != ColumnStructure()[j].columnid
    ensures forall i, j :: 0 <= i < j < 4 ==> ColumnStructure()[i].column != ColumnStructure()[j].column
  {
  }

  // --------------------------------------------------------- records

  /** One row of the answer table: an answer record of a module. */
  datatype AnswerRecord = AnswerRecord(
    id: int,
    moduleid: int,
    answerid: int,
    sortorder: int,
    name: string,
    options: string,
    answer: string,
    feedback: string)

  /** $record->get($column) for the four schema columns. */
  function RecordGet(r: AnswerRecord, column: string): string
    requires column in ColumnNames
  {
    if column == "name" then r.name
    else if column == "options" then r.options
    else if column == "answer" then r.answer
    else r.feedback
  }

  // ------------------------------------------------------- get_data()

  datatype ApiCell = ApiCell(column: string, value: string, ctype: string, visible: bool)

  datatype ApiRow = ApiRow(id: int, sortorder: int, cells: seq<ApiCell>, answerid: int)

  /**
   * The arguments get_indicator() hands to the language-string formatter: the
   * string name, the option count and the last letter.
   */
  datatype Indicator = Indicator(stringname: string, options: int, lastletter: string)

  datatype ApiModule = ApiModule(
    id: int,
    modulename: string,
    modulesortorder: int,
    numoptions: int,
    mtype: int,
    className: string,
    indicator: Indicator,
    rows: seq<ApiRow>,
    columns: seq<Column>)

  function GetIndicator(m: ModuleRecord): (ind: Indicator)
    ensures m.mtype in Types ==> ind.stringname == "indicator:" + Types[m.mtype]
    ensures m.mtype !in Types ==> ind.stringname == "indicator:"
    ensures ind.options == m.numoptions && ind.lastletter == IndicatorLastLetter(m.numoptions)
  {
    Indicator(IndicatorStringName(m), m.numoptions, IndicatorLastLetter(m.numoptions))
  }

  /** The answer records of a module: $question->answersheets[id] ?? []. */
  function RecordsOf(answersheets: map<int, seq<AnswerRecord>>, moduleid: int): seq<AnswerRecord>
  {
    if moduleid in answersheets then answersheets[moduleid] else []
  }

  /** A cell copies column, type and visibility from its column and its value from the record. */
  predicate CellFrom(c: ApiCell, r: AnswerRecord, col: Column)
  {
    col.column in ColumnNames &&
    c == ApiCell(col.column, RecordGet(r, col.column), col.ctype, col.visible)
  }

  /** A row holds the record's id, order and answer id, and exactly one cell per column, in column order. */
  predicate RowFrom(row: ApiRow, r: AnswerRecord, cols: seq<Column>)
  {
    && row.id == r.id && row.sortorder == r.sortorder && row.answerid == r.answerid
    && |row.cells| == |cols|
    && forall k :: 0 <= k < |cols| ==> CellFrom(row.cells[k], r, cols[k])
  }

  /** A module entry carries the module's fields and one row per record, in record order. */
  predicate ModuleFrom(e: ApiModule, m: ModuleRecord, recs: seq<AnswerRecord>, cols: seq<Column>)
  {
    && e.id == m.id && e.modulename == m.name && e.modulesortorder == m.sortorder
    && e.numoptions == m.numoptions && e.mtype == m.mtype
    && m.mtype in Types && e.className == Types[m.mtype] && e.indicator == GetIndicator(m)
    && e.columns == cols
    && |e.rows| == |recs|
    && forall j :: 0 <= j < |recs| ==> RowFrom(e.rows[j], recs[j], cols)
  }

  /** The cells of one record: one per column, in column order. */
  method BuildCells(record: AnswerRecord, columns: seq<Column>) returns (row: seq<ApiCell>)
    requires forall k :: 0 <= k < |columns| ==> columns[k].column in ColumnNames
    ensures |row| == |columns|
    ensures forall k :: 0 <= k < |columns| ==> CellFrom(row[k], record, columns[k])
  {
    row := [];
    var k := 0;
    while k < |columns|
      invariant 0 <= k <= |columns| && |row| == k
      invariant forall c :: 0 <= c < k ==> CellFrom(row[c], record, columns[c])
    {
      var column := columns[k];
      row := row + [ApiCell(column.column, RecordGet(record, column.column), column.ctype, column.visible)];
      k := k + 1;
    }
  }

  /** The rows of one module: one per record, in record order. */
  method BuildRows(records: seq<AnswerRecord>, columns: seq<Column>) returns (modulerows: seq<ApiRow>)
    requires forall k :: 0 <= k < |columns| ==> columns[k].column in ColumnNames
    ensures |modulerows| == |records|
    ensures forall q :: 0 <= q < |records| ==> RowFrom(modulerows[q], records[q], columns)
  {
    modulerows := [];
    var j := 0;
    while j < |records|
      invariant 0 <= j <= |records| && |modulerows| == j
      invariant forall q :: 0 <= q < j ==> RowFrom(modulerows[q], records[q], columns)
    {
      var record := records[j];
      var row := BuildCells(record, columns);
      modulerows := modulerows + [ApiRow(record.id, record.sortorder, row, record.answerid)];
      j := j + 1;
    }
  }

  /**
   * get_data(): one entry per module, in module order, holding one row per
   * answer record of that module, in record order, each row with exactly one
   * cell per schema column.  None stands for the TypeError get_class() raises
   * for the first module whose type is outside TYPES.
   */
  method GetData(modules: seq<ModuleRecord>, answersheets: map<int, seq<AnswerRecord>>)
    returns (data: Option<seq<ApiModule>>)
    ensures data.None? <==> exists i :: 0 <= i < |modules| && modules[i].mtype !in Types
    ensures data.Some? ==> |data.value| == |modules|
    ensures data.Some? ==> forall i :: 0 <= i < |modules| ==>
      ModuleFrom(data.value[i], modules[i], RecordsOf(answersheets, modules[i].id), ColumnStructure())
  {
    var columns := ColumnStructure();
    ColumnStructureNames();
    data := BuildModules(modules, answersheets, columns);
  }

  /** Every column of the schema is one of the four record fields. */
  lemma ColumnStructureNames()
    ensures forall k :: 0 <= k < |ColumnStructure()| ==> ColumnStructure()[k].column in ColumnNames
  {
  }

  /**
   * The loop of get_data(): one entry per module, in order, with the given
   * columns, or None for the TypeError of the first module of unknown type.
   */
  method BuildModules(modules: seq<ModuleRecord>, answersheets: map<int, seq<AnswerRecord>>, columns: seq<Column>)
    returns (data: Option<seq<ApiModule>>)
    requires forall k :: 0 <= k < |columns| ==> columns[k].column in ColumnNames
    ensures data.None? <==> exists i :: 0 <= i < |modules| && modules[i].mtype !in Types
    ensures data.Some? ==> |data.value| == |modules|
    ensures data.Some? ==> forall i :: 0 <= i < |modules| ==>
      ModuleFrom(data.value[i], modules[i], RecordsOf(answersheets, modules[i].id), columns)
  {
    var built: seq<ApiModule> := [];
    var i := 0;
    while i < |modules|
      invariant 0 <= i <= |modules| && |built| == i
      invariant forall p :: 0 <= p < i ==> modules[p].mtype in Types
      invariant forall p :: 0 <= p < i ==>
        ModuleFrom(built[p], modules[p], RecordsOf(answersheets, modules[p].id), columns)
    {
      var mod := modules[i];
      var modulerows := BuildRows(RecordsOf(answersheets, mod.id), columns);
      var cls := GetClass(mod);
      if cls.None? {
        return None;
      }
      var entry := ApiModule(mod.id, mod.name, mod.sortorder, mod.numoptions, mod.mtype,
                             cls.value, GetIndicator(mod), modulerows, columns);
      assert ModuleFrom(entry, mod, RecordsOf(answersheets, mod.id), columns);
      built := built + [entry];
      i := i + 1;
    }
    data := Some(built);
  }

  // ------------------------------------------ stored and human values

  /**
   * to_stored_value(): for a radio module, the index of the value in the
   * decoded option list (its last occurrence), or 0 when it is not listed;
   * for every other type, the trimmed value.
   */
  function ToStoredValue(value: string, mtype: int, options: seq<string>): (r: PhpValue)
    ensures mtype == RadioChecked && value in options ==>
      r.PhpInt? && 0 <= r.i < |options| && options[r.i] == value &&
      forall j :: r.i < j < |options| ==> options[j] != value
    ensures mtype == RadioChecked && Distinct(options) && value in options ==>
      r.PhpInt? && r.i >= 0 && options[r.i] == value && forall j :: 0 <= j < |options| && options[j] == value ==> j == r.i
    ensures mtype == RadioChecked && value !in options ==> r == PhpInt(0)
    ensures mtype != RadioChecked ==> r == PhpString(Trim(value))
  {
    if mtype == RadioChecked then
      match FlipLookup(options, value)
      case Some(idx) => PhpInt(idx)
      case None => PhpInt(0)
    else PhpString(Trim(value))
  }

  /**
   * to_human_value() as written: for a radio module it returns the value
   * ITSELF when it is a valid index of the option list, and '' otherwise; for
   * every other type the trimmed value.
   */
  function ToHumanValue(value: PhpValue, mtype: int, options: seq<string>): (r: string)
    ensures mtype == RadioChecked && value.PhpInt? && 0 <= value.i < |options| ==> r == NatToString(value.i)
    ensures mtype == RadioChecked && value.PhpString? && IsCanonicalNat(value.s) && DigitsValue(value.s) < |options| ==>
      r == value.s
    ensures mtype == RadioChecked && value.PhpNull? ==> r == ""
    ensures mtype == RadioChecked && value.PhpInt? && !(0 <= value.i < |options|) ==> r == ""
    ensures mtype == RadioChecked && value.PhpString? && !(IsCanonicalNat(value.s) && DigitsValue(value.s) < |options|) ==>
      r == ""
    ensures mtype == RadioChecked && r != "" ==> ParseIndex(r).Some? && ParseIndex(r).value < |options|
    ensures mtype != RadioChecked ==> r == Trim(ToPhpString(value))
  {
    if mtype == RadioChecked then
      if IsListIndex(value, options) then
        (if value.PhpInt? then ParseIndexInvertsNatToString(value.i, NatToString(value.i)); ToPhpString(value)
         else ToPhpString(value))
      else ""
    else Trim(ToPhpString(value))
  }

  /** For letter-by-letter and free-text modules, storing and reading back yields the trimmed value. */
  lemma TextRoundTrip(v: string, mtype: int, options: seq<string>)
    requires mtype != RadioChecked
    ensures ToHumanValue(ToStoredValue(v, mtype, options), mtype, options) == Trim(v)
  {
    TrimIdempotent(v);
  }

  /**
   * As written, the radio round trip yields the option's index as a string,
   * not its label: with options ['-', 'A', 'B', 'C', 'D'], 'B' is stored as 2
   * and read back as "2".
   */
  lemma RadioRoundTripYieldsIndex()
    ensures ToStoredValue("B", RadioChecked, ["-", "A", "B", "C", "D"]) == PhpInt(2)
    ensures ToHumanValue(PhpInt(2), RadioChecked, ["-", "A", "B", "C", "D"]) == "2"
    ensures ToHumanValue(ToStoredValue("B", RadioChecked, ["-", "A", "B", "C", "D"]), RadioChecked, ["-", "A", "B", "C", "D"]) != "B"
  {
    var opts := ["-", "A", "B", "C", "D"];
    assert FlipLookup(opts, "B") == Some(2);
    assert NatToString(2) == "2";
  }

  /**
   * to_human_value() as its documentation intends: dereference the option
   * list, as the question's denormalise_answer does.
   */
  function ToHumanValueIntended(value: PhpValue, mtype: int, options: seq<string>): (r: string)
    ensures mtype == RadioChecked && value.PhpInt? && 0 <= value.i < |options| ==> r == options[value.i]
    ensures mtype == RadioChecked && value.PhpString? && IsCanonicalNat(value.s) && DigitsValue(value.s) < |options| ==>
      r == options[DigitsValue(value.s)]
    ensures mtype == RadioChecked && !IsListIndex(value, options) ==> r == ""
    ensures mtype != RadioChecked ==> r == Trim(ToPhpString(value))
  {
    if mtype == RadioChecked then
      if IsListIndex(value, options) then options[KeyIndex(value).value] else ""
    else Trim(ToPhpString(value))
  }

  /** The intended reading takes a stored string index too: "2" reads as the label 'B'. */
  lemma IntendedReadsStringIndex()
    ensures ToHumanValueIntended(PhpString("2"), RadioChecked, ["-", "A", "B", "C", "D"]) == "B"
  {
    assert IsCanonicalNat("2") && DigitsValue("2") == 2;
  }

  /** With the intended reading, every listed option label survives the round trip. */
  lemma IntendedRadioRoundTrip(v: string, options: seq<string>)
    requires v in options
    ensures ToHumanValueIntended(ToStoredValue(v, RadioChecked, options), RadioChecked, options) == v
  {
  }

  /** And reading a valid index back and storing it again gives the same index, when labels are distinct. */
  lemma IntendedRadioIndexRoundTrip(i: nat, options: seq<string>)
    requires Distinct(options) && i < |options|
    ensures ToStoredValue(ToHumanValueIntended(PhpInt(i), RadioChecked, options), RadioChecked, options) == PhpInt(i)
  {
    FlipLookupOfDistinct(options, i);
  }
}
