/**
 * The persistent module record of an answer sheet: the three answer types,
 * their names and raw data types, the property definitions with their
 * defaults and choices, and the derived class name and indicator letter.
 */
module AnswersheetModule {
  import opened Wrappers
  import StringOps

  /** Check the correct answer with a radio button. */
  const RadioChecked: int := 1
  /** Enter the correct answer letter by letter. */
  const LetterByLetter: int := 2
  /** Enter the correct answer in a text area. */
  const FreeText: int := 3

  /** The TYPES table: type constant to class name. */
  const Types: map<int, string> :=
    map[RadioChecked := "radiochecked", LetterByLetter := "letterbyletter", FreeText := "freetext"]

  /** Moodle's PARAM_INT and PARAM_TEXT cleaning types. */
  const ParamInt: string := "int"
  const ParamText: string := "text"

  /** The TYPES_TO_RAW_TYPE table: type constant to raw data type. */
  const TypesToRawType: map<int, string> :=
    map[RadioChecked := ParamInt, LetterByLetter := ParamText, FreeText := ParamText]

  /** One row of the module table. */
  datatype ModuleRecord = ModuleRecord(
    id: int,
    questionid: int,
    sortorder: int,
    name: string,
    numoptions: int,
    mtype: int,
    questionpoints: int)

  datatype PropertyDefault = DefaultInt(i: int) | DefaultText(s: string)

  /** A property definition: its name, cleaning type, default, nullability and allowed values. */
  datatype PropertyDef = PropertyDef(
    name: string,
    ptype: string,
    default: Option<PropertyDefault>,
    nullAllowed: bool,
    choices: Option<seq<int>>)

  /** The properties of a module record, as define_properties lists them. */
  function DefineProperties(): (props: seq<PropertyDef>)
    ensures |props| == 6
    ensures forall i, j :: 0 <= i < j < |props| ==> props[i].name != props[j].name
  {
    [ PropertyDef("questionid", ParamInt, None, false, None),
      PropertyDef("sortorder", ParamInt, Some(DefaultText("")), true, None),
      PropertyDef("name", ParamText, None, false, None),
      PropertyDef("numoptions", ParamInt, None, false, None),
      PropertyDef("type", ParamInt, Some(DefaultInt(RadioChecked)), false,
                  Some([RadioChecked, LetterByLetter, FreeText])),
      PropertyDef("questionpoints", ParamInt, Some(DefaultInt(1)), false, None) ]
  }

  /** The definition of the named property, if there is one. */
  function FindProperty(props: seq<PropertyDef>, name: string): (r: Option<PropertyDef>)
    ensures r.Some? ==> r.value in props && r.value.name == name
    ensures r.None? ==> forall p :: p in props ==> p.name != name
  {
    if props == [] then None
    else if props[0].name == name then Some(props[0])
    else FindProperty(props[1..], name)
  }

  /** A value is acceptable for a property when the property lists no choices or lists it. */
  predicate ChoiceAllowed(p: PropertyDef, value: int)
  {
    p.choices.None? || value in p.choices.value
  }

  /**
   * The type property defaults to RadioChecked and accepts exactly the keys
   * of TYPES.
   */
  lemma TypePropertyDefault()
    ensures FindProperty(DefineProperties(), "type").Some?
    ensures FindProperty(DefineProperties(), "type").value.default == Some(DefaultInt(RadioChecked))
    ensures forall t :: ChoiceAllowed(FindProperty(DefineProperties(), "type").value, t) <==> t in Types
  {
    var props := DefineProperties();
    assert props[4].name == "type";
    assert FindProperty(props, "type") == Some(props[4]);
  }

  /** The questionpoints property defaults to 1. */
  lemma QuestionPointsDefault()
    ensures FindProperty(DefineProperties(), "questionpoints").Some?
    ensures FindProperty(DefineProperties(), "questionpoints").value.default == Some(DefaultInt(1))
  {
    var props := DefineProperties();
    assert FindProperty(props, "questionpoints") == Some(props[5]);
  }

  /**
   * get_class(): the entry of TYPES for the module's type.  None stands for the
   * TypeError PHP raises when TYPES has no entry and the `: string` return
   * receives null.
   */
  function GetClass(m: ModuleRecord): (r: Option<string>)
    ensures r.Some? <==> m.mtype in Types
    ensures m.mtype == RadioChecked ==> r == Some("radiochecked")
    ensures m.mtype == LetterByLetter ==> r == Some("letterbyletter")
    ensures m.mtype == FreeText ==> r == Some("freetext")
  {
    if m.mtype in Types then Some(Types[m.mtype]) else None
  }

  /** The three class names are distinct, so the type is recoverable from the class. */
  lemma TypesInjective(s: int, t: int)
    requires s in Types && t in Types && Types[s] == Types[t]
    ensures s == t
  {
  }

  /**
   * get_data_type(): the raw data type of the module's type: int for radio,
   * text for the two textual types, nothing for a type outside the table.
   */
  function GetDataType(m: ModuleRecord): (r: Option<string>)
    ensures r.Some? <==> m.mtype in Types
    ensures m.mtype == RadioChecked ==> r == Some(ParamInt)
    ensures m.mtype in {LetterByLetter, FreeText} ==> r == Some(ParamText)
  {
    if m.mtype in TypesToRawType then Some(TypesToRawType[m.mtype]) else None
  }

  /** The `lastletter` placeholder of get_indicator(): chr(65 + numoptions - 1). */
  function IndicatorLastLetter(numoptions: int): (s: string)
    ensures 1 <= numoptions <= 26 ==> s == ["ABCDEFGHIJKLMNOPQRSTUVWXYZ"[numoptions - 1]]
  {
    StringOps.Chr(65 + numoptions - 1)
  }

  /**
   * The language string get_indicator() formats: 'indicator:' followed by the
   * type's class.  For a type outside TYPES the lookup yields null, which the
   * concatenation reads as '', leaving the bare prefix.
   */
  function IndicatorStringName(m: ModuleRecord): (r: string)
    ensures |r| >= |"indicator:"| && r[..|"indicator:"|] == "indicator:"
    ensures m.mtype in Types ==> r == "indicator:" + Types[m.mtype]
    ensures m.mtype !in Types ==> r == "indicator:"
  {
    "indicator:" + GetClass(m).GetOr("")
  }

  lemma FourOptionsEndAtD()
    ensures IndicatorLastLetter(4) == "D"
  {
  }
}
