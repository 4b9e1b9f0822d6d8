/**
 * The in-browser answer-sheet editor: a hierarchy of modules, each holding
 * rows of cells, that the editor changes in place (add and delete rows and
 * modules, edit cells, retype modules, renumber rows) and projects to the
 * JSON shape the form saves.
 *
 * Identifiers are held as the text the page carries: a saved row or module
 * by the decimal form of its number, an unsaved one by its `tmp-<n>` name.
 */
module Editor {
  import opened Wrappers
  import opened StringOps
  import opened AnswersheetModule
  import opened AnswersheetApi

  // ------------------------------------------------------------ entities

  /** A cell value: JSON null or a string. */
  datatype CellValue = Null | Text(s: string)

  /**
   * A cell of the editor grid.  `length`, `columnid` and `options` come from
   * the column definition and are absent when no column was merged in;
   * `cellid` is set by the id renumbering.
   */
  datatype Cell = Cell(
    column: string,
    ctype: string,
    value: CellValue,
    visible: bool,
    length: Option<int>,
    columnid: Option<int>,
    options: Option<seq<SelectOption>>,
    edit: bool,
    cellid: Option<string>)

  datatype Row = Row(id: string, sortorder: int, cells: seq<Cell>, rowid: Option<string>)

  /**
   * A module of the editor.  `flags` holds the boolean properties keyed by
   * type class (module.radiochecked and so on); `columns` are the column
   * definitions a loaded module carries.
   */
  datatype EditModule = EditModule(
    id: string,
    modulesortorder: int,
    modulename: string,
    mtype: int,
    numoptions: int,
    className: Option<string>,
    flags: map<string, bool>,
    rows: seq<Row>,
    columns: seq<Column>,
    modid: Option<string>)

  /** The saved JSON shape: only type, column and value per cell, id and sortorder per row. */
  datatype SavedValue = SavedNull | SavedText(s: string) | SavedNames(names: seq<string>) | SavedUndefined
  datatype SavedCell = SavedCell(ctype: string, column: string, value: SavedValue)
  datatype SavedRow = SavedRow(id: string, sortorder: int, cells: seq<SavedCell>)
  datatype SavedModule = SavedModule(sortorder: int, name: string, mtype: int, numoptions: int, rows: seq<SavedRow>)

  /** The outcome of one step of an edit that JavaScript may abort with a TypeError. */
  datatype Edited<T> = Edited(result: T, ok: bool)

  const AnswerColumn: string := "answer"
  const OptionsColumn: string := "options"

  // ------------------------------------------------------------ lookups

  /** Array.prototype.findIndex: the first position satisfying p, or nothing (JavaScript's -1). */
  function FindIndex<T>(xs: seq<T>, p: T -> bool): (r: Option<nat>)
    ensures r.Some? ==> r.value < |xs| && p(xs[r.value])
    ensures r.Some? ==> forall j :: 0 <= j < r.value ==> !p(xs[j])
    ensures r.None? <==> forall j :: 0 <= j < |xs| ==> !p(xs[j])
  {
    if |xs| == 0 then None
    else if p(xs[0]) then Some(0)
    else
      match FindIndex(xs[1..], p)
      case None => None
      case Some(i) => Some(i + 1)
  }

  function ModuleWithId(ms: seq<EditModule>, id: string): Option<nat>
  {
    FindIndex(ms, (m: EditModule) => m.id == id)
  }

  function RowWithId(rows: seq<Row>, id: string): Option<nat>
  {
    FindIndex(rows, (r: Row) => r.id == id)
  }

  function CellWithColumnId(cells: seq<Cell>, columnid: int): Option<nat>
  {
    FindIndex(cells, (c: Cell) => c.columnid == Some(columnid))
  }

  function CellInColumn(cells: seq<Cell>, column: string): Option<nat>
  {
    FindIndex(cells, (c: Cell) => c.column == column)
  }

  function ColumnNamed(cols: seq<Column>, column: string): Option<Column>
  {
    match FindIndex(cols, (k: Column) => k.column == column)
    case None => None
    case Some(i) => Some(cols[i])
  }

  /** Array.prototype.splice(i, 1), where i is a found position or -1 (which removes the last entry). */
  function SpliceOne<T>(xs: seq<T>, found: Option<nat>): (r: seq<T>)
    requires found.Some? ==> found.value < |xs|
  {
    if found.Some? then xs[..found.value] + xs[found.value + 1..]
    else if |xs| == 0 then xs
    else xs[..|xs| - 1]
  }

  /** The type class of a module type (TYPES[type]), undefined when the type is not in the table. */
  function TypeName(mtype: int): (r: Option<string>)
    ensures r.Some? <==> mtype in Types
  {
    if mtype in Types then Some(Types[mtype]) else None
  }

  /** The property key `module[TYPES[type]]` writes: the class, or the text "undefined". */
  function FlagKey(mtype: int): string
  {
    if mtype in Types then Types[mtype] else "undefined"
  }

  // ------------------------------------------------------------ temporary ids

  /** createTempId(): the id of an unsaved row or module. */
  function CreateTempId(n: nat): (id: string)
    ensures |id| > 4 && id[..4] == "tmp-" && id[4..] == NatToString(n)
  {
    "tmp-" + NatToString(n)
  }

  /** Temporary ids of different numbers differ. */
  lemma TempIdInjective(m: nat, n: nat)
    ensures CreateTempId(m) == CreateTempId(n) <==> m == n
  {
    if CreateTempId(m) == CreateTempId(n) {
      NatToStringInjective(m, n);
    }
  }

  // ------------------------------------------------------------ rows

  /** A fresh cell made from a column: value '' and editable. */
  function NewCell(k: Column): Cell
  {
    Cell(k.column, k.ctype, Text(""), k.visible, Some(k.length), Some(k.columnid), k.options, true, None)
  }

  /** The row createRow() builds: one fresh cell per column, in column order. */
  function NewRow(id: string, sortorder: int, cols: seq<Column>): (r: Row)
    ensures r.id == id && r.sortorder == sortorder && |r.cells| == |cols|
    ensures forall i :: 0 <= i < |cols| ==>
      r.cells[i].column == cols[i].column && r.cells[i].ctype == cols[i].ctype &&
      r.cells[i].value == Text("") && r.cells[i].edit
  {
    Row(id, sortorder, seq(|cols|, i requires 0 <= i < |cols| => NewCell(cols[i])), None)
  }

  /** The rows numbered 1, 2, ... in their order, nothing else changed. */
  function Renumbered(rows: seq<Row>): (r: seq<Row>)
    ensures |r| == |rows|
  {
    if |rows| == 0 then []
    else Renumbered(rows[..|rows| - 1]) + [rows[|rows| - 1].(sortorder := |rows|)]
  }

  /** Every module's rows renumbered. */
  function RenumberAll(ms: seq<EditModule>): (r: seq<EditModule>)
    ensures |r| == |ms|
  {
    seq(|ms|, k requires 0 <= k < |ms| => ms[k].(rows := Renumbered(ms[k].rows)))
  }

  /** After renumbering, row i has sortorder i + 1 and is otherwise the row it was. */
  lemma {:induction false} RenumberedMeaning(rows: seq<Row>)
    ensures forall i :: 0 <= i < |rows| ==> Renumbered(rows)[i] == rows[i].(sortorder := i + 1)
  {
    if |rows| > 0 {
      RenumberedMeaning(rows[..|rows| - 1]);
    }
  }

  /** Renumbering a renumbered list changes nothing. */
  lemma RenumberedIdempotent(rows: seq<Row>)
    ensures Renumbered(Renumbered(rows)) == Renumbered(rows)
  {
    RenumberedMeaning(rows);
    RenumberedMeaning(Renumbered(rows));
  }

  /** Appending a row and renumbering numbers the new row |rows| + 1 and leaves the others as renumbering would. */
  lemma RenumberedAppend(rows: seq<Row>, row: Row)
    ensures Renumbered(rows + [row]) == Renumbered(rows) + [row.(sortorder := |rows| + 1)]
  {
    assert (rows + [row])[..|rows|] == rows;
  }

  /** The module list after addRow() has put `row` at the end of module mi. */
  function WithRowAdded(ms: seq<EditModule>, mi: nat, row: Row): seq<EditModule>
    requires mi < |ms|
  {
    RenumberAll(ms[mi := ms[mi].(rows := ms[mi].rows + [row])])
  }

  /** addRow(): the module gains exactly one row, at the end, and all rows are renumbered. */
  lemma AddRowAppends(ms: seq<EditModule>, mi: nat, row: Row)
    requires mi < |ms|
    ensures |WithRowAdded(ms, mi, row)| == |ms|
    ensures WithRowAdded(ms, mi, row)[mi].rows == Renumbered(ms[mi].rows) + [row.(sortorder := |ms[mi].rows| + 1)]
    ensures forall k :: 0 <= k < |ms| && k != mi ==> WithRowAdded(ms, mi, row)[k].rows == Renumbered(ms[k].rows)
  {
    RenumberedAppend(ms[mi].rows, row);
  }

  /**
   * The module list after deleteRow(): unchanged when module mi has a single
   * row; otherwise the row with the id (the last row when there is none)
   * removed and all rows renumbered.
   */
  function WithRowDeleted(ms: seq<EditModule>, mi: nat, rowid: string): seq<EditModule>
    requires mi < |ms|
  {
    var rows := ms[mi].rows;
    if |rows| > 1 then RenumberAll(ms[mi := ms[mi].(rows := SpliceOne(rows, RowWithId(rows, rowid)))])
    else ms
  }

  /**
   * deleteRow() on a module with more than one row holding the id removes that
   * row alone: the others keep their relative order and are numbered 1..n-1.
   */
  lemma DeleteRowRemovesExactly(ms: seq<EditModule>, mi: nat, rowid: string, ri: nat)
    requires mi < |ms| && |ms[mi].rows| > 1 && RowWithId(ms[mi].rows, rowid) == Some(ri)
    ensures ri < |ms[mi].rows| && ms[mi].rows[ri].id == rowid
    ensures |WithRowDeleted(ms, mi, rowid)[mi].rows| == |ms[mi].rows| - 1
    ensures forall j :: 0 <= j < ri ==>
      WithRowDeleted(ms, mi, rowid)[mi].rows[j] == ms[mi].rows[j].(sortorder := j + 1)
    ensures forall j :: ri <= j < |ms[mi].rows| - 1 ==>
      WithRowDeleted(ms, mi, rowid)[mi].rows[j] == ms[mi].rows[j + 1].(sortorder := j + 1)
  {
    var rows := ms[mi].rows;
    var kept := rows[..ri] + rows[ri + 1..];
    assert SpliceOne(rows, RowWithId(rows, rowid)) == kept;
    var deleted := WithRowDeleted(ms, mi, rowid);
    assert deleted[mi].rows == Renumbered(kept);
    RenumberedMeaning(kept);
    forall j | 0 <= j < ri
      ensures deleted[mi].rows[j] == rows[j].(sortorder := j + 1)
    {
      assert kept[j] == rows[j];
    }
    forall j | ri <= j < |rows| - 1
      ensures deleted[mi].rows[j] == rows[j + 1].(sortorder := j + 1)
    {
      assert kept[j] == rows[j + 1];
    }
  }

  /** deleteRow() never leaves a module without rows. */
  lemma DeleteRowKeepsARow(ms: seq<EditModule>, mi: nat, rowid: string)
    requires mi < |ms| && |ms[mi].rows| >= 1
    ensures |WithRowDeleted(ms, mi, rowid)[mi].rows| >= 1
  {
  }

  // ------------------------------------------------------------ modules

  /** The module addModule() appends to a list of `count` modules. */
  function NewModule(count: nat, row: Row): EditModule
  {
    EditModule(CreateTempId(count + 1), count + 1, " ", RadioChecked, 4, None,
      map[Types[RadioChecked] := true], [row], [], None)
  }

  /** The module list after deleteModule(): the first module with the id removed, or the last one when none has it. */
  function WithModuleDeleted(ms: seq<EditModule>, moduleid: string): (r: seq<EditModule>)
    ensures |ms| > 0 ==> |r| == |ms| - 1
    ensures |ms| == 0 ==> r == ms
  {
    SpliceOne(ms, ModuleWithId(ms, moduleid))
  }

  /**
   * addModule() numbers a new module after the current count, so after two
   * additions and the deletion of the first, the next addition reuses the id
   * of the module still present.
   */
  lemma AddModuleIdCanRepeat(r1: Row, r2: Row, r3: Row)
    ensures
      var ms := WithModuleDeleted([NewModule(0, r1), NewModule(1, r2)], CreateTempId(1));
      |ms| == 1 && NewModule(|ms|, r3).id == ms[0].id
  {
    var ms := [NewModule(0, r1), NewModule(1, r2)];
    assert ModuleWithId(ms, CreateTempId(1)) == Some(0);
  }

  /** No two modules share an id. */
  predicate ModuleIdsDistinct(ms: seq<EditModule>)
  {
    forall i, j :: 0 <= i < j < |ms| ==> ms[i].id != ms[j].id
  }

  /** The module after changeModule(): new name, type, class, option count and type flags. */
  function Retyped(m: EditModule, name: string, mtype: int, numoptions: int): EditModule
  {
    var cleared := m.flags[Types[RadioChecked] := false][Types[LetterByLetter] := false][Types[FreeText] := false];
    m.(modulename := name, mtype := mtype, className := TypeName(mtype), numoptions := numoptions,
       flags := cleared[FlagKey(mtype) := true])
  }

  /** After changeModule() exactly the flag of the new type is set among the three type flags. */
  lemma RetypedFlags(m: EditModule, name: string, mtype: int, numoptions: int)
    ensures forall t :: t in Types ==>
      Types[t] in Retyped(m, name, mtype, numoptions).flags &&
      (Retyped(m, name, mtype, numoptions).flags[Types[t]] <==> t == mtype)
    ensures mtype in Types ==> Retyped(m, name, mtype, numoptions).className == Some(Types[mtype])
  {
  }

  /** changeModule() touches the named fields only: rows, id and sort order stay. */
  lemma RetypedKeepsRows(m: EditModule, name: string, mtype: int, numoptions: int)
    ensures Retyped(m, name, mtype, numoptions).rows == m.rows
    ensures Retyped(m, name, mtype, numoptions).id == m.id
    ensures Retyped(m, name, mtype, numoptions).modulesortorder == m.modulesortorder
  {
  }

  /** getIndicator(): the code unit of the last letter, String.fromCharCode(65 + numoptions - 1). */
  function EditorLastLetter(numoptions: int): (u: int)
    ensures 0 <= u < 0x1_0000
    ensures 1 <= numoptions <= 26 ==> u == "ABCDEFGHIJKLMNOPQRSTUVWXYZ"[numoptions - 1] as int
  {
    CharCodeUnit(65 + numoptions - 1)
  }

  /** The editor and the server agree on the indicator's last letter for 1 to 26 options. */
  lemma LastLetterAgrees(numoptions: int)
    requires 1 <= numoptions <= 26
    ensures IndicatorLastLetter(numoptions) == [EditorLastLetter(numoptions) as char]
  {
  }

  // ------------------------------------------------------------ cell edits

  /** The options after a select edit: selected exactly when the name is the new value. */
  function SelectOnly(os: seq<SelectOption>, value: string): (r: seq<SelectOption>)
    ensures |r| == |os|
    ensures forall i :: 0 <= i < |os| ==> r[i].name == os[i].name && (r[i].selected <==> os[i].name == value)
  {
    seq(|os|, i requires 0 <= i < |os| => os[i].(selected := os[i].name == value))
  }

  /**
   * change() on one row: set the value of the cell with the column id (and
   * its select flags), then the value of the answer cell.  A missing cell,
   * or a select cell without options, aborts with the edits made so far.
   */
  function ChangeRow(row: Row, columnid: int, value: string): Edited<Row>
  {
    match CellWithColumnId(row.cells, columnid)
    case None => Edited(row, false)
    case Some(ci) =>
      var c := row.cells[ci].(value := Text(value));
      if c.ctype == SelectType && c.options.None? then Edited(row.(cells := row.cells[ci := c]), false)
      else
        var c2 := if c.ctype == SelectType then c.(options := Some(SelectOnly(c.options.value, value))) else c;
        var cells := row.cells[ci := c2];
        match CellInColumn(cells, AnswerColumn)
        case None => Edited(row.(cells := cells), false)
        case Some(ai) => Edited(row.(cells := cells[ai := cells[ai].(value := Text(value))]), true)
  }

  /** change() on one module: the row with the id, if the module has one. */
  function ChangeInModule(m: EditModule, rowid: string, columnid: int, value: string): Edited<EditModule>
  {
    match RowWithId(m.rows, rowid)
    case None => Edited(m, true)
    case Some(ri) =>
      var e := ChangeRow(m.rows[ri], columnid, value);
      Edited(m.(rows := m.rows[ri := e.result]), e.ok)
  }

  /** change() over the module list, in order, stopping at the first module that aborts. */
  function ChangeAll(ms: seq<EditModule>, rowid: string, columnid: int, value: string): (r: Edited<seq<EditModule>>)
    ensures |r.result| == |ms|
  {
    if |ms| == 0 then Edited([], true)
    else
      var pre := ChangeAll(ms[..|ms| - 1], rowid, columnid, value);
      if !pre.ok then Edited(pre.result + [ms[|ms| - 1]], false)
      else
        var e := ChangeInModule(ms[|ms| - 1], rowid, columnid, value);
        Edited(pre.result + [e.result], e.ok)
  }

  /** Replacing an entry by one the predicate judges alike leaves findIndex() as it was. */
  lemma {:induction false} FindIndexAfterUpdate<T>(xs: seq<T>, p: T -> bool, i: nat, y: T)
    requires i < |xs| && p(y) == p(xs[i])
    ensures FindIndex(xs[i := y], p) == FindIndex(xs, p)
  {
    if i > 0 {
      assert xs[i := y][1..] == xs[1..][i - 1 := y];
      FindIndexAfterUpdate(xs[1..], p, i - 1, y);
    }
  }

  /**
   * An edit of a row completes exactly when the row has a cell with the
   * column id and a cell in the answer column, and the edited cell, when it
   * is a select cell, has options.
   */
  lemma ChangeRowCompletes(row: Row, columnid: int, value: string)
    ensures ChangeRow(row, columnid, value).ok <==>
      && CellWithColumnId(row.cells, columnid).Some?
      && CellInColumn(row.cells, AnswerColumn).Some?
      && (row.cells[CellWithColumnId(row.cells, columnid).value].ctype == SelectType ==>
            row.cells[CellWithColumnId(row.cells, columnid).value].options.Some?)
  {
    var found := CellWithColumnId(row.cells, columnid);
    if found.Some? {
      var ci := found.value;
      var c := row.cells[ci].(value := Text(value));
      if !(c.ctype == SelectType && c.options.None?) {
        var c2 := if c.ctype == SelectType then c.(options := Some(SelectOnly(c.options.value, value))) else c;
        FindIndexAfterUpdate(row.cells, (x: Cell) => x.column == AnswerColumn, ci, c2);
      }
    }
  }

  /**
   * A completed edit of a row sets the edited cell and the answer cell to the
   * value, marks exactly the option with that name in a select cell, and
   * leaves every other cell, the id and the sort order as they were.
   */
  lemma ChangeRowSetsCells(row: Row, columnid: int, value: string, ci: nat, ai: nat)
    requires CellWithColumnId(row.cells, columnid) == Some(ci)
    requires CellInColumn(row.cells, AnswerColumn) == Some(ai)
    requires row.cells[ci].ctype == SelectType ==> row.cells[ci].options.Some?
    ensures
      var r := ChangeRow(row, columnid, value).result;
      && r.id == row.id && r.sortorder == row.sortorder && |r.cells| == |row.cells|
      && r.cells[ci].value == Text(value) && r.cells[ai].value == Text(value)
      && (r.cells[ci].ctype == SelectType ==>
            r.cells[ci].options == Some(SelectOnly(row.cells[ci].options.value, value)))
      && (forall j :: 0 <= j < |r.cells| && j != ci && j != ai ==> r.cells[j] == row.cells[j])
  {
    var c := row.cells[ci].(value := Text(value));
    var c2 := if c.ctype == SelectType then c.(options := Some(SelectOnly(c.options.value, value))) else c;
    FindIndexAfterUpdate(row.cells, (x: Cell) => x.column == AnswerColumn, ci, c2);
  }

  /** An edit reaches no row whose id differs from the edited one. */
  lemma {:induction false} ChangeLeavesOtherRows(ms: seq<EditModule>, rowid: string, columnid: int, value: string)
    ensures forall k :: 0 <= k < |ms| ==> |ChangeAll(ms, rowid, columnid, value).result[k].rows| == |ms[k].rows|
    ensures forall k, j :: 0 <= k < |ms| && 0 <= j < |ms[k].rows| && ms[k].rows[j].id != rowid ==>
      ChangeAll(ms, rowid, columnid, value).result[k].rows[j] == ms[k].rows[j]
  {
    if |ms| > 0 {
      ChangeLeavesOtherRows(ms[..|ms| - 1], rowid, columnid, value);
    }
  }

  // ------------------------------------------------------------ saving

  /** The longest a text cell is cut to: its length, or nothing when the length is negative. */
  function CutLength(length: int): nat
  {
    if length < 0 then 0 else length
  }

  /**
   * checkCellValue(): a text cell whose value is longer than its length is
   * cut to its first `length` characters; a null value, another type or a
   * cell without a length is left as it is.
   */
  function CheckCellValue(c: Cell): (r: Cell)
    ensures r.(value := c.value) == c
    ensures r.value.Null? <==> c.value.Null?
    ensures c.value.Text? ==> r.value.s <= c.value.s
    ensures c.value.Text? && c.ctype == ParamText && c.length.Some? && |c.value.s| > c.length.value ==>
      |r.value.s| == CutLength(c.length.value)
    ensures !(c.value.Text? && c.ctype == ParamText && c.length.Some? && |c.value.s| > c.length.value) ==> r == c
  {
    match c.value
    case Null => c
    case Text(s) =>
      if c.ctype == ParamText && c.length.Some? && |s| > c.length.value
      then c.(value := Text(s[..CutLength(c.length.value)]))
      else c
  }

  /** Checking a checked cell changes nothing, so saving twice saves the same values. */
  lemma CheckCellValueIdempotent(c: Cell)
    ensures CheckCellValue(CheckCellValue(c)) == CheckCellValue(c)
  {
  }

  /** After the check, a text cell with a non-negative length holds at most that many characters. */
  lemma CheckedTextFits(c: Cell)
    requires c.value.Text? && c.ctype == ParamText && c.length.Some? && c.length.value >= 0
    ensures |CheckCellValue(c).value.s| <= c.length.value
  {
  }

  /** The cell values of a row after the check, as cleanModules() leaves them in place. */
  function CheckRow(row: Row): Row
  {
    row.(cells := seq(|row.cells|, j requires 0 <= j < |row.cells| => CheckCellValue(row.cells[j])))
  }

  function CheckModule(m: EditModule): EditModule
  {
    m.(rows := seq(|m.rows|, i requires 0 <= i < |m.rows| => CheckRow(m.rows[i])))
  }

  /** The saved cell: type, column and value; the options cell saves the names of its options. */
  function SavedCellOf(c: Cell): (r: SavedCell)
    ensures r.ctype == c.ctype && r.column == c.column
    ensures c.column == OptionsColumn && c.options.Some? ==>
      r.value.SavedNames? && |r.value.names| == |c.options.value| &&
      forall i :: 0 <= i < |c.options.value| ==> r.value.names[i] == c.options.value[i].name
    ensures c.column != OptionsColumn ==>
      (r.value == SavedNull <==> c.value.Null?) && (c.value.Text? ==> r.value == SavedText(c.value.s))
  {
    if c.column == OptionsColumn then
      match c.options
      case None => SavedCell(c.ctype, c.column, SavedUndefined)
      case Some(os) => SavedCell(c.ctype, c.column, SavedNames(seq(|os|, i requires 0 <= i < |os| => os[i].name)))
    else
      match c.value
      case Null => SavedCell(c.ctype, c.column, SavedNull)
      case Text(s) => SavedCell(c.ctype, c.column, SavedText(s))
  }

  function SavedRowOf(row: Row): SavedRow
  {
    SavedRow(row.id, row.sortorder, seq(|row.cells|, j requires 0 <= j < |row.cells| => SavedCellOf(row.cells[j])))
  }

  /** The saved module: sort order, name, type, option count and its saved rows, in order. */
  function SavedModuleOf(m: EditModule): (r: SavedModule)
    ensures r.sortorder == m.modulesortorder && r.name == m.modulename && r.mtype == m.mtype && r.numoptions == m.numoptions
    ensures |r.rows| == |m.rows|
    ensures forall i :: 0 <= i < |m.rows| ==>
      r.rows[i].id == m.rows[i].id && r.rows[i].sortorder == m.rows[i].sortorder &&
      |r.rows[i].cells| == |m.rows[i].cells|
  {
    SavedModule(m.modulesortorder, m.modulename, m.mtype, m.numoptions,
      seq(|m.rows|, i requires 0 <= i < |m.rows| => SavedRowOf(m.rows[i])))
  }

  /** Cleaning a cleaned module changes nothing, so the saved JSON is stable. */
  lemma CheckModuleIdempotent(m: EditModule)
    ensures CheckModule(CheckModule(m)) == CheckModule(m)
  {
    forall i | 0 <= i < |m.rows|
      ensures CheckRow(CheckRow(m.rows[i])) == CheckRow(m.rows[i])
    {
      var row := m.rows[i];
      forall j | 0 <= j < |row.cells|
        ensures CheckCellValue(CheckCellValue(row.cells[j])) == CheckCellValue(row.cells[j])
      {
        CheckCellValueIdempotent(row.cells[j]);
      }
    }
  }

  // ------------------------------------------------------------ loading

  /** The value of the last answer cell of a row, '' when it has none. */
  function SelectedValue(cells: seq<ApiCell>): (v: string)
    ensures (forall j :: 0 <= j < |cells| ==> cells[j].column != AnswerColumn) ==> v == ""
  {
    if |cells| == 0 then ""
    else if cells[|cells| - 1].column == AnswerColumn then cells[|cells| - 1].value
    else SelectedValue(cells[..|cells| - 1])
  }

  /** The selected value is that of the last answer cell: a later answer cell overrides an earlier one. */
  lemma {:induction false} SelectedValueIsLastAnswer(cells: seq<ApiCell>, j: nat)
    requires j < |cells| && cells[j].column == AnswerColumn
    requires forall k :: j < k < |cells| ==> cells[k].column != AnswerColumn
    ensures SelectedValue(cells) == cells[j].value
  {
    if j < |cells| - 1 {
      SelectedValueIsLastAnswer(cells[..|cells| - 1], j);
    }
  }

  /** The options of a loaded select cell: the answer's option is marked, the others keep their flag. */
  function MarkSelected(os: seq<SelectOption>, selected: string): (r: seq<SelectOption>)
    ensures |r| == |os|
    ensures forall i :: 0 <= i < |os| ==>
      r[i].name == os[i].name && (r[i].selected <==> os[i].selected || os[i].name == selected)
  {
    seq(|os|, i requires 0 <= i < |os| => os[i].(selected := os[i].selected || os[i].name == selected))
  }

  /** A loaded cell: its own properties overridden by those of its column, when found, and editable. */
  function MergeCell(c: ApiCell, col: Option<Column>, selected: string): Cell
  {
    var base :=
      match col
      case None => Cell(c.column, c.ctype, Text(c.value), c.visible, None, None, None, true, None)
      case Some(k) => Cell(k.column, k.ctype, Text(c.value), k.visible, Some(k.length), Some(k.columnid), k.options, true, None);
    if base.ctype == SelectType && base.options.Some?
    then base.(options := Some(MarkSelected(base.options.value, selected)))
    else base
  }

  function MergeRow(row: ApiRow, cols: seq<Column>): Row
  {
    var selected := SelectedValue(row.cells);
    Row(IntToString(row.id), row.sortorder,
      seq(|row.cells| , j requires 0 <= j < |row.cells| => MergeCell(row.cells[j], ColumnNamed(cols, row.cells[j].column), selected)),
      None)
  }

  /** parseModules() before the id renumbering: the type flag set and every row merged with the columns. */
  function ParsedModule(m: ApiModule): EditModule
  {
    EditModule(IntToString(m.id), m.modulesortorder, m.modulename, m.mtype, m.numoptions, Some(m.className),
      map[FlagKey(m.mtype) := true],
      seq(|m.rows|, i requires 0 <= i < |m.rows| => MergeRow(m.rows[i], m.columns)),
      m.columns, None)
  }

  /** No module of the list carries a temporary id. */
  ghost predicate NoTempIds(ms: seq<EditModule>)
  {
    forall i, k: nat :: 0 <= i < |ms| ==> ms[i].id != CreateTempId(k)
  }

  /** The server's module ids are decimal numbers, never temporary ids, so loaded modules carry none. */
  lemma LoadedModulesHaveNoTempIds(ms: seq<ApiModule>, parsed: seq<EditModule>)
    requires |parsed| == |ms|
    requires forall k :: 0 <= k < |ms| ==> parsed[k] == WithIds(ParsedModule(ms[k]), k)
    ensures NoTempIds(parsed)
  {
    forall i, k: nat | 0 <= i < |parsed|
      ensures parsed[i].id != CreateTempId(k)
    {
      var s := IntToString(ms[i].id);
      assert parsed[i].id == s;
      assert s[0] == '-' || IsDigit(s[0]);
      assert CreateTempId(k)[0] == 't';
    }
  }

  /**
   * Loading keeps the structure: one row per record row and one cell per
   * record cell, each editable and holding the record's value.
   */
  lemma ParsedModuleShape(m: ApiModule)
    ensures |ParsedModule(m).rows| == |m.rows|
    ensures forall i :: 0 <= i < |m.rows| ==>
      |ParsedModule(m).rows[i].cells| == |m.rows[i].cells| &&
      forall j :: 0 <= j < |m.rows[i].cells| ==>
        ParsedModule(m).rows[i].cells[j].value == Text(m.rows[i].cells[j].value) &&
        ParsedModule(m).rows[i].cells[j].edit
  {
  }

  /**
   * With the schema's options column, a loaded options cell keeps '-'
   * selected and also selects the option named by the row's answer.
   */
  lemma LoadedOptionsCell(c: ApiCell, selected: string, i: nat)
    requires c.column == OptionsColumn && i < 11
    ensures
      var cell := MergeCell(c, ColumnNamed(ColumnStructure(), OptionsColumn), selected);
      cell.options.Some? && |cell.options.value| == 11 &&
      (cell.options.value[i].selected <==> i == 0 || CandidateOptions()[i].name == selected)
  {
    var cols := ColumnStructure();
    assert ColumnNamed(cols, OptionsColumn) == Some(cols[1]) by {
      assert cols[0].column != OptionsColumn;
    }
  }

  function ModuleId(mi: nat): string
  {
    "id_module_" + NatToString(mi)
  }

  function RowId(mi: nat, ri: nat): string
  {
    "id_row_" + NatToString(mi) + "_" + NatToString(ri)
  }

  function CellId(column: string, mi: nat, ri: nat): string
  {
    "id_" + column + "_" + NatToString(mi) + "_" + NatToString(ri)
  }

  function RowWithIds(row: Row, mi: nat, ri: nat): Row
  {
    row.(rowid := Some(RowId(mi, ri)),
         cells := seq(|row.cells|, j requires 0 <= j < |row.cells| => row.cells[j].(cellid := Some(CellId(row.cells[j].column, mi, ri)))))
  }

  /** recomputeIds() on module mi: the module, row and cell ids made from the positions. */
  function WithIds(m: EditModule, mi: nat): EditModule
  {
    m.(modid := Some(ModuleId(mi)),
       rows := seq(|m.rows|, ri requires 0 <= ri < |m.rows| => RowWithIds(m.rows[ri], mi, ri)))
  }

  /** Distinct positions get distinct row ids. */
  lemma RowIdInjective(m1: nat, r1: nat, m2: nat, r2: nat)
    requires RowId(m1, r1) == RowId(m2, r2)
    ensures m1 == m2 && r1 == r2
  {
    assert RowId(m1, r1)[7..] == NatToString(m1) + "_" + NatToString(r1);
    assert RowId(m2, r2)[7..] == NatToString(m2) + "_" + NatToString(r2);
    NumberPairInjective(m1, r1, m2, r2);
  }

  /** Distinct modules get distinct module ids. */
  lemma ModuleIdInjective(m1: nat, m2: nat)
    requires ModuleId(m1) == ModuleId(m2)
    ensures m1 == m2
  {
    assert ModuleId(m1)[10..] == NatToString(m1);
    assert ModuleId(m2)[10..] == NatToString(m2);
    NatToStringInjective(m1, m2);
  }

  /** The computed ids are display aids only: they do not reach the saved JSON. */
  lemma SavedIgnoresIds(m: EditModule, mi: nat)
    ensures SavedModuleOf(CheckModule(WithIds(m, mi))) == SavedModuleOf(CheckModule(m))
  {
    var a := CheckModule(WithIds(m, mi));
    var b := CheckModule(m);
    forall i | 0 <= i < |m.rows|
      ensures SavedRowOf(a.rows[i]) == SavedRowOf(b.rows[i])
    {
      assert |a.rows[i].cells| == |b.rows[i].cells|;
      forall j | 0 <= j < |b.rows[i].cells|
        ensures SavedCellOf(a.rows[i].cells[j]) == SavedCellOf(b.rows[i].cells[j])
      {
        assert a.rows[i].cells[j] == b.rows[i].cells[j].(cellid := a.rows[i].cells[j].cellid);
      }
    }
  }

  // ------------------------------------------------------------ the manager

  class Manager {
    /** The module hierarchy the store holds under 'modules'. */
    var modules: seq<EditModule>
    /** The column definitions the store holds under 'columns', absent until loaded. */
    var columns: Option<seq<Column>>
    /** The counter behind the temporary row ids. */
    var temprowid: nat

    constructor(modules: seq<EditModule>, columns: Option<seq<Column>>)
      ensures this.modules == modules && this.columns == columns && temprowid == 1000
      ensures NoTempIds(modules) ==> TempIdsFresh()
    {
      this.modules := modules;
      this.columns := columns;
      temprowid := 1000;
    }

    /** No module id is a temporary id the counter will still hand out. */
    ghost predicate TempIdsFresh()
      reads this
    {
      forall i, k :: 0 <= i < |modules| && k >= temprowid ==> modules[i].id != CreateTempId(k)
    }

    /** createRow(): take the next temporary id; build the row when the columns are loaded. */
    method CreateRow(sortorder: int) returns (row: Option<Row>)
      modifies this
      ensures temprowid == old(temprowid) + 1
      ensures modules == old(modules) && columns == old(columns)
      ensures columns.None? ==> row.None?
      ensures columns.Some? ==> row == Some(NewRow(CreateTempId(old(temprowid)), sortorder, columns.value))
    {
      var id := CreateTempId(temprowid);
      temprowid := temprowid + 1;
      if columns.None? {
        return None;
      }
      row := Some(NewRow(id, sortorder, columns.value));
    }

    /** The rows renumbered 1..n, one row at a time. */
    static method RenumberRows(rows: seq<Row>) returns (r: seq<Row>)
      ensures r == Renumbered(rows)
    {
      r := [];
      var i := 0;
      while i < |rows|
        invariant 0 <= i <= |rows|
        invariant r == Renumbered(rows[..i])
      {
        assert rows[..i + 1][..i] == rows[..i];
        r := r + [rows[i].(sortorder := i + 1)];
        i := i + 1;
      }
      assert rows[..i] == rows;
    }

    /** resetRowSortorder(): every module's rows get sortorder position + 1. */
    method ResetRowSortorder()
      modifies this
      ensures modules == RenumberAll(old(modules))
      ensures columns == old(columns) && temprowid == old(temprowid)
    {
      var k := 0;
      while k < |modules|
        invariant 0 <= k <= |modules| && |modules| == |old(modules)|
        invariant forall j :: 0 <= j < k ==> modules[j] == old(modules)[j].(rows := Renumbered(old(modules)[j].rows))
        invariant forall j :: k <= j < |modules| ==> modules[j] == old(modules)[j]
        invariant columns == old(columns) && temprowid == old(temprowid)
      {
        var rows := RenumberRows(modules[k].rows);
        modules := modules[k := modules[k].(rows := rows)];
        k := k + 1;
      }
    }

    /**
     * addRow(): append a created row to the module with the id and renumber.
     * Without such a module JavaScript throws before creating a row; without
     * columns the created row is undefined and nothing is added.
     */
    method AddRow(moduleid: string) returns (found: bool)
      modifies this
      ensures found <==> ModuleWithId(old(modules), moduleid).Some?
      ensures columns == old(columns)
      ensures !found ==> modules == old(modules) && temprowid == old(temprowid)
      ensures found ==> temprowid == old(temprowid) + 1
      ensures found && columns.None? ==> modules == old(modules)
      ensures found && columns.Some? ==>
        var mi := ModuleWithId(old(modules), moduleid).value;
        modules == WithRowAdded(old(modules), mi,
          NewRow(CreateTempId(old(temprowid)), |old(modules)[mi].rows| + 1, columns.value))
    {
      var mi := ModuleWithId(modules, moduleid);
      if mi.None? {
        return false;
      }
      found := true;
      var rows := modules[mi.value].rows;
      var row := CreateRow(|rows| + 1);
      if row.None? {
        return;
      }
      modules := modules[mi.value := modules[mi.value].(rows := rows + [row.value])];
      ResetRowSortorder();
    }

    /**
     * deleteRow(): in the module with the id, when it has more than one row,
     * remove the row with the id (the last row when none has it) and renumber.
     */
    method DeleteRow(rowid: string, moduleid: string) returns (found: bool)
      modifies this
      ensures found <==> ModuleWithId(old(modules), moduleid).Some?
      ensures columns == old(columns) && temprowid == old(temprowid)
      ensures !found ==> modules == old(modules)
      ensures found ==> modules == WithRowDeleted(old(modules), ModuleWithId(old(modules), moduleid).value, rowid)
    {
      var mi := ModuleWithId(modules, moduleid);
      if mi.None? {
        return false;
      }
      found := true;
      var rows := modules[mi.value].rows;
      if |rows| > 1 {
        modules := modules[mi.value := modules[mi.value].(rows := SpliceOne(rows, RowWithId(rows, rowid)))];
        ResetRowSortorder();
      }
    }

    /** change(): the edit applied module by module, stopping where JavaScript would throw. */
    method Change(rowid: string, columnid: int, value: string) returns (ok: bool)
      modifies this
      ensures Edited(modules, ok) == ChangeAll(old(modules), rowid, columnid, value)
      ensures columns == old(columns) && temprowid == old(temprowid)
    {
      ok := true;
      var i := 0;
      while i < |modules|
        invariant 0 <= i <= |modules| && |modules| == |old(modules)|
        invariant Edited(modules[..i], ok) == ChangeAll(old(modules)[..i], rowid, columnid, value)
        invariant modules[i..] == old(modules)[i..]
        invariant columns == old(columns) && temprowid == old(temprowid)
      {
        assert old(modules)[..i + 1][..i] == old(modules)[..i];
        assert old(modules)[i] == modules[i];
        ghost var before := modules;
        if ok {
          var e := ChangeInModule(modules[i], rowid, columnid, value);
          modules := modules[i := e.result];
          ok := e.ok;
        }
        assert modules[..i + 1] == before[..i] + [modules[i]];
        i := i + 1;
      }
      assert modules[..i] == modules;
      assert old(modules)[..i] == old(modules);
    }

    /** changeModule(): retype and rename every module with the id. */
    method ChangeModule(moduleid: string, name: string, mtype: int, numoptions: int)
      modifies this
      ensures |modules| == |old(modules)|
      ensures forall k :: 0 <= k < |modules| ==>
        modules[k] == if old(modules)[k].id == moduleid then Retyped(old(modules)[k], name, mtype, numoptions) else old(modules)[k]
      ensures columns == old(columns) && temprowid == old(temprowid)
    {
      var k := 0;
      while k < |modules|
        invariant 0 <= k <= |modules| && |modules| == |old(modules)|
        invariant forall j :: 0 <= j < k ==>
          modules[j] == if old(modules)[j].id == moduleid then Retyped(old(modules)[j], name, mtype, numoptions) else old(modules)[j]
        invariant forall j :: k <= j < |modules| ==> modules[j] == old(modules)[j]
        invariant columns == old(columns) && temprowid == old(temprowid)
      {
        if modules[k].id == moduleid {
          modules := modules[k := Retyped(modules[k], name, mtype, numoptions)];
        }
        k := k + 1;
      }
    }

    /** updateModuleOption(): one option more or fewer, then changeModule() with the module's other inputs. */
    method UpdateModuleOption(moduleid: string, name: string, mtype: int, numoptions: int, add: bool)
      modifies this
      ensures |modules| == |old(modules)|
      ensures forall k :: 0 <= k < |modules| ==>
        modules[k] == if old(modules)[k].id == moduleid
          then Retyped(old(modules)[k], name, mtype, if add then numoptions + 1 else numoptions - 1)
          else old(modules)[k]
      ensures columns == old(columns) && temprowid == old(temprowid)
    {
      ChangeModule(moduleid, name, mtype, if add then numoptions + 1 else numoptions - 1);
    }

    /** deleteModule(): remove the first module with the id, or the last module when none has it. */
    method DeleteModule(moduleid: string)
      modifies this
      ensures modules == WithModuleDeleted(old(modules), moduleid)
      ensures columns == old(columns) && temprowid == old(temprowid)
    {
      modules := SpliceOne(modules, ModuleWithId(modules, moduleid));
    }

    /** addModule(): append a radio module of four options, numbered after the count, with one created row. */
    method AddModule()
      requires columns.Some?
      modifies this
      ensures columns == old(columns) && temprowid == old(temprowid) + 1
      ensures modules == old(modules) + [NewModule(|old(modules)|, NewRow(CreateTempId(old(temprowid)), 1, columns.value))]
    {
      var row := CreateRow(1);
      modules := modules + [NewModule(|modules|, row.value)];
    }

    /**
     * addModule() with the module id drawn from the temporary-id counter
     * instead of the module count: the new id is never an id already in use.
     */
    method AddModuleFresh()
      requires columns.Some? && TempIdsFresh()
      modifies this
      ensures columns == old(columns) && temprowid == old(temprowid) + 2
      ensures TempIdsFresh()
      ensures |modules| == |old(modules)| + 1 && modules[..|old(modules)|] == old(modules)
      ensures modules[|old(modules)|] == NewModule(|old(modules)|, NewRow(CreateTempId(old(temprowid) + 1), 1, columns.value)).(id := CreateTempId(old(temprowid)))
      ensures forall i :: 0 <= i < |old(modules)| ==> old(modules)[i].id != modules[|old(modules)|].id
      ensures ModuleIdsDistinct(old(modules)) ==> ModuleIdsDistinct(modules)
    {
      var id := CreateTempId(temprowid);
      temprowid := temprowid + 1;
      var row := CreateRow(1);
      modules := modules + [NewModule(|modules|, row.value).(id := id)];
      forall k | k >= temprowid
        ensures id != CreateTempId(k)
      {
        TempIdInjective(temprowid - 2, k);
      }
    }

    /** cleanModules(): cut over-long text cells in place and return the saved shape of every module, in order. */
    method CleanModules() returns (cleaned: seq<SavedModule>)
      modifies this
      ensures |modules| == |old(modules)| && |cleaned| == |modules|
      ensures forall k :: 0 <= k < |modules| ==> modules[k] == CheckModule(old(modules)[k])
      ensures forall k :: 0 <= k < |modules| ==> cleaned[k] == SavedModuleOf(modules[k])
      ensures columns == old(columns) && temprowid == old(temprowid)
    {
      cleaned := [];
      var k := 0;
      while k < |modules|
        invariant 0 <= k <= |modules| && |modules| == |old(modules)| && |cleaned| == k
        invariant forall j :: 0 <= j < k ==> modules[j] == CheckModule(old(modules)[j])
        invariant forall j :: k <= j < |modules| ==> modules[j] == old(modules)[j]
        invariant forall j :: 0 <= j < k ==> cleaned[j] == SavedModuleOf(modules[j])
        invariant columns == old(columns) && temprowid == old(temprowid)
      {
        var m := CheckModule(modules[k]);
        modules := modules[k := m];
        cleaned := cleaned + [SavedModuleOf(m)];
        k := k + 1;
      }
    }

    /** recomputeIds(): module k gets the ids made from its position and those of its rows. */
    static method RecomputeIds(ms: seq<EditModule>) returns (r: seq<EditModule>)
      ensures |r| == |ms|
      ensures forall k :: 0 <= k < |ms| ==> r[k] == WithIds(ms[k], k)
    {
      r := [];
      var k := 0;
      while k < |ms|
        invariant 0 <= k <= |ms| && |r| == k
        invariant forall j :: 0 <= j < k ==> r[j] == WithIds(ms[j], j)
      {
        r := r + [WithIds(ms[k], k)];
        k := k + 1;
      }
    }

    /** parseModules(): set each module's type flag, merge its rows with its columns, then compute the ids. */
    static method ParseModules(ms: seq<ApiModule>) returns (parsed: seq<EditModule>)
      ensures |parsed| == |ms|
      ensures forall k :: 0 <= k < |ms| ==> parsed[k] == WithIds(ParsedModule(ms[k]), k)
    {
      var merged := [];
      var k := 0;
      while k < |ms|
        invariant 0 <= k <= |ms| && |merged| == k
        invariant forall j :: 0 <= j < k ==> merged[j] == ParsedModule(ms[j])
      {
        merged := merged + [ParsedModule(ms[k])];
        k := k + 1;
      }
      parsed := RecomputeIds(merged);
    }
  }
}
