# Answer sheet question type: a Dafny model

This project models the core of the Moodle "answer sheet" question type. An
answer sheet is a list of modules. Each module has a type: radio choice,
letter by letter, or free text. Each module holds rows, and each row is one
graded part. A row holds four cells: name, options, answer and feedback.

The model covers:

- **Module records** (`AnswersheetModule`): the three type constants, the
  `TYPES` and `TYPES_TO_RAW_TYPE` tables, the property definitions, the class
  name and the indicator's last letter.
- **The answer-sheet API** (`AnswersheetApi`): the fixed four-column schema,
  and `get_data`, which turns modules and their answer records into rows of
  cells. It also covers the conversion of an answer between its human form and
  its stored form.
- **The question** (`Question`): the response fields, completeness, sameness,
  gradability, the number of right parts, the grade, clearing wrong parts,
  the final grade over several tries with a penalty, and normalising and
  denormalising answers.
- **The attempt display** (`Display`): the preparation of modules for
  display, including radio choices, letter slots, the correct answer, the
  correctness mark and row identifiers, plus the response check used there.
- **Saving** (`QuestionType`):
  - the flattening of modules into the form's parallel answer arrays;
  - the wrapping of feedback as plain-text editors;
  - the part records;
  - the reuse of old answer records.
- **The editor's store** (`Store.State`): a key/value map with subscribers.
- **The editor** (`Editor.Manager`): the module hierarchy edited in place.
  Rows and modules are added and deleted, cells edited, modules retyped, rows
  renumbered, modules loaded, and the hierarchy cleaned for saving.

Imperative source code is modelled imperatively:

- The PHP loops are methods with loop invariants.
- The two JavaScript classes are Dafny classes whose fields the methods
  update.
- Each method is proved against a specification function.
- The properties of that function are lemmas.

PHP and JavaScript semantics are written out where they matter:

- PHP `trim`, `strtolower`, `ord`, `chr`, and `empty()` on strings.
- The last-wins lookup of `array_flip`.
- Casting canonical decimal keys to integers.
- `range()` counting down.
- PHP 8 loose `==` between numeric strings (integer forms), in `is_same_response`,
  in the display's answer comparison and in the selection of a radio choice.
- JavaScript `findIndex` returning -1, and `splice(-1, 1)` removing the last
  entry.
- `String.fromCharCode` taking its argument mod 65536.
- A `TypeError` that aborts a `forEach` midway.

## Model

| member | source | states |
|---|---|---|
| AnswersheetModule.DefineProperties | classes/local/persistent/answersheet_module.php:67-99 | six properties with distinct names |
| AnswersheetModule.FindProperty | classes/local/persistent/answersheet_module.php:67-99 | the found definition has the name; none means no property has it |
| AnswersheetModule.TypePropertyDefault | classes/local/persistent/answersheet_module.php:87-92 | the type property defaults to radio choice and accepts exactly the keys of TYPES |
| AnswersheetModule.QuestionPointsDefault | classes/local/persistent/answersheet_module.php:93-97 | questionpoints defaults to 1 |
| AnswersheetModule.GetClass | classes/local/persistent/answersheet_module.php:127-129 | the class is defined exactly for a type in TYPES, with the three names; none stands for the TypeError of the `: string` return on null |
| AnswersheetModule.TypesInjective | classes/local/persistent/answersheet_module.php:54-58 | distinct types have distinct class names |
| AnswersheetModule.GetDataType | classes/local/persistent/answersheet_module.php:134-150 | int for radio, text for the textual types, nothing outside the table |
| AnswersheetModule.IndicatorLastLetter | classes/local/persistent/answersheet_module.php:118 | for 1..26 options the last letter is the matching capital |
| AnswersheetModule.IndicatorStringName | classes/local/persistent/answersheet_module.php:119 | 'indicator:' followed by the class for a known type, and the bare 'indicator:' (null concatenated) for a type outside TYPES |
| AnswersheetModule.FourOptionsEndAtD | classes/local/persistent/answersheet_module.php:118 | four options end at D |
| AnswersheetApi.CandidateOptions | classes/local/api/answersheet.php:120-165 | eleven options, '-' selected first and then A to J unselected |
| AnswersheetApi.TableStructure | classes/local/api/answersheet.php:95-193 | four columns name, options, answer, feedback; only options is a select column with candidates; feedback alone hidden; lengths 50 and 1000 |
| AnswersheetApi.ColumnStructure | classes/local/api/answersheet.php:85-88 | the table structure's values, in order |
| AnswersheetApi.ColumnIdsDistinct | classes/local/api/answersheet.php:95-193 | column ids and column names are distinct |
| AnswersheetApi.GetIndicator | classes/local/persistent/answersheet_module.php:114-121 | the string name 'indicator:' + class, or 'indicator:' for an unknown type, with the option count and last letter |
| AnswersheetApi.BuildCells | classes/local/api/answersheet.php:49-57 | one cell per column, copying column, type and visibility and taking the record's value |
| AnswersheetApi.BuildRows | classes/local/api/answersheet.php:48-63 | one row per record, in record order |
| AnswersheetApi.BuildModules | classes/local/api/answersheet.php:45-76 | the module loop builds one entry per module in order, with its fields, its class and one row per answer record of that module; it fails (the TypeError of get_class) exactly when some module's type is outside TYPES |
| AnswersheetApi.GetData | classes/local/api/answersheet.php:42-78 | one entry per module in order, each with the module's fields, its class and one row per answer record; a failure exactly when some module's type is outside TYPES |
| AnswersheetApi.ToStoredValue | classes/local/api/answersheet.php:246-263 | radio: an index holding the value with no later index holding it (array_flip keeps the last), the only one when labels are distinct, 0 when absent; otherwise trimmed |
| AnswersheetApi.ToHumanValue | classes/local/api/answersheet.php:272-290 | radio: an integer index of the list reads as its decimal form, a canonical decimal string index as itself, null and every non-index as ''; a non-empty result always names an entry of the list; otherwise trimmed |
| AnswersheetApi.TextRoundTrip | classes/local/api/answersheet.php:246-290 | storing then reading a textual answer yields it trimmed |
| AnswersheetApi.RadioRoundTripYieldsIndex | classes/local/api/answersheet.php:279-280 | as written, 'B' is stored as 2 and read back as "2", not 'B' |
| AnswersheetApi.ToHumanValueIntended | classes/local/api/answersheet.php:272-290 | radio: the label at an integer or canonical decimal string index, '' for a non-index |
| AnswersheetApi.IntendedReadsStringIndex | classes/local/api/answersheet.php:272-290 | with the intended reading, the stored string "2" reads as the label 'B' |
| AnswersheetApi.IntendedRadioRoundTrip | classes/local/api/answersheet.php:246-290 | with the intended reading, every listed label survives the round trip |
| AnswersheetApi.IntendedRadioIndexRoundTrip | classes/local/api/answersheet.php:246-290 | with distinct labels, an index survives reading and storing |
| Question.Field | question.php:109-111 | the field is 'answer' followed by the key's decimal form |
| Question.FieldInjective | question.php:109-111 | two keys have the same field exactly when they are equal |
| Question.GetResponseValue | question.php:175-178 | the submitted value, or null when it is missing or PHP-empty |
| Question.Normalise | question.php:358-382 | radio with options: an index holding the value with no later index holding it, or 0 when absent; radio without options: unchanged; other types: trimmed |
| Question.Denormalise | question.php:390-412 | radio with options: an integer or canonical decimal index gives the label there, null and every non-index give ''; the result is always '' or a label of the list; radio without options: unchanged; other types: trimmed |
| Question.RadioNormaliseRoundTrip | question.php:358-412 | denormalising a normalised radio label gives the label |
| Question.RadioDenormaliseRoundTrip | question.php:358-412 | with distinct options, normalising a denormalised index gives the index |
| Question.TextNormaliseRoundTrip | question.php:358-412 | for the textual types the round trip trims |
| Question.CompareKeysEquivalence | question.php:341-350 | compare_keys is reflexive, symmetric and transitive |
| Question.CompareResponseWithAnswer | question.php:326-333 | fails exactly when the denormalised response is null; otherwise compares it with the answer by compare_keys |
| Question.CompareSubmittedNeverFails | question.php:326-333 | a submitted string never makes the comparison fail |
| Question.IsCompleteResponse | question.php:141-149 | complete iff every answer's field is present and not '' |
| Question.BlankResponseIsComplete | question.php:146 | as written, a response of blanks only is complete |
| Question.BlankResponseIsNotCompleteIntended | question.php:146 | the trimmed check rejects a blank answer, and accepts only responses the written check accepts |
| Question.CompleteIntendedImpliesComplete | question.php:141-149 | every response complete under the trimmed check is complete as written |
| Question.EmptyIsNotComplete | question.php:141-149 | an empty response is not complete for a question with answers |
| Question.TooShortIsNotComplete | question.php:141-149 | a response with fewer entries than answers is not complete |
| Question.IsSameResponse | question.php:158-166 | same iff every answer's response value agrees by PHP 8 loose `==` (numeric strings as numbers), empties read as null |
| Question.LeadingZeroIsSameResponse | question.php:163 | the responses '01' and '1' are the same response |
| Question.AllEmptyIsSameAsNone | question.php:158-166 | a response of '' everywhere equals no response; sameness is reflexive |
| Question.NonEmptyDiffersFromNone | question.php:158-166 | one non-empty answer differs from no response |
| Question.IsGradableResponse | question.php:223-230 | gradable iff some answer's field is non-empty |
| Question.EmptyIsNotGradable | question.php:223-230 | no response, or '' everywhere, is not gradable |
| Question.CompleteNonZeroIsGradable | question.php:141-149 | a complete response with an answer other than '0' is gradable |
| Question.AnsweredIsRightOrWrong | question.php:237-249 | an answered part is exactly one of right and wrong |
| Question.CountRightExtremes | question.php:279-289 | all parts right count all; none right counts 0 |
| Question.CountRightParts | question.php:280-287 | the counting loop yields the number of answered parts judged right |
| Question.GetNumPartsRight | question.php:279-289 | the number of answered right parts, and the number of parts |
| Question.FractionBounds | question.php:237-249 | a count out of a positive total lies in [0, 1] |
| Question.SumRightParts | question.php:238-246 | the summing loop yields the number of answered right parts, as a real |
| Question.GradeResponse | question.php:237-249 | the fraction right/parts in [0, 1]; nothing (division by zero) without answers |
| Question.GradeExtremes | question.php:237-249 | all right grades 1, none right 0, half right 0.5 |
| Question.WrongFieldsMeaning | question.php:257-270 | a field is removed exactly when its part is answered and wrong |
| Question.ClearWrongFromResponse | question.php:257-270 | removes exactly the fields of answered wrong parts, nothing else |
| Question.OneWrongRemovesOne | question.php:257-270 | when exactly one answered part is wrong, the removed fields are exactly its field and the cleared response has one entry fewer |
| Question.TriesStateMeaning | question.php:298-318 | the loop state exists iff every try compares; it records the last wrong try and whether the latest is right |
| Question.PartScoreBounds | question.php:308-313 | a part scores in [0, 1], and 1 when never wrong and finally right |
| Question.ScanTries | question.php:303-311 | the inner loop computes the tries state of the specification |
| Question.AddPartScore | question.php:313-315 | the total grows by the penalised score when the part ends right, and is unchanged otherwise |
| Question.SumPartScores | question.php:299-316 | the outer loop yields the total part score of the specification, nothing when a comparison fails |
| Question.TimesIsProduct | question.php:314 | the penalty count written as repeated addition is (lastwrongindex + 1) times the penalty |
| Question.ComputeFinalGrade | question.php:298-318 | the mean of the penalised part scores; nothing on a failed comparison or without answers |
| Question.TotalScoreBounds | question.php:298-318 | the total lies in [0, number of answers] |
| Question.FinalGradeBounds | question.php:298-318 | the final grade lies in [0, 1] |
| Question.SingleRightTryGradesOne | question.php:298-318 | one try right for every part grades 1 |
| Question.RightAtSecondTry | question.php:298-318 | wrong then right scores max(0, 1 - penalty) |
| Display.CompareResponseWithAnswer | classes/output/answersheet_question.php:205-213 | the verdict is 0 or 1, the loose equality of the trimmed lower-cased texts |
| Display.CompareIsSymmetric | classes/output/answersheet_question.php:205-213 | the verdict is symmetric for text answers |
| Display.DecimalIsLowerTrimmed | classes/output/answersheet_question.php:207 | an integer's decimal form is unchanged by trim and lower-casing |
| Display.RadioValueMatchesLetter | classes/output/answersheet_question.php:135-153 | for answer letter number k, the response k is right |
| Display.PossibleAnswers | classes/output/answersheet_question.php:118-123 | chr(65 + i) for each index of range(0, numoptions - 1) |
| Display.FourPossibleAnswers | classes/output/answersheet_question.php:118-123 | four options offer A, B, C, D |
| Display.MakeChoice | classes/output/answersheet_question.php:136-150 | label and value; selected iff the response loosely equals the value; marked iff selected and correctness shown |
| Display.RadioChoices | classes/output/answersheet_question.php:136-151 | one choice per index, in order |
| Display.AtMostOneSelected | classes/output/answersheet_question.php:141 | at most one choice is selected |
| Display.DecimalResponseSelects | classes/output/answersheet_question.php:141 | the response "k" selects exactly choice k |
| Display.MakeSlot | classes/output/answersheet_question.php:170-182 | '' past the answer's end, else the letter at the index, with index + 1 |
| Display.LetterSlots | classes/output/answersheet_question.php:170-182 | one slot per index, in order |
| Display.NoOptionsGivesTwoSlots | classes/output/answersheet_question.php:170-182 | with no options, range gives two slots, the second showing the last letter |
| Display.CellFields | classes/output/answersheet_question.php:131-133 | every cell's column is a key, and every key comes from a cell |
| Display.CellFieldsLastWins | classes/output/answersheet_question.php:131-133 | a column maps to its last cell's value |
| Display.CopyCells | classes/output/answersheet_question.php:131-133 | the cell-copy loop computes the column map |
| Display.CorrectAnswer | classes/output/answersheet_question.php:134-169 | ord(answer) - 64 for radio, the answer text for the textual types, none for an unknown type |
| Display.RadioCorrectAnswerIsLetterIndex | classes/output/answersheet_question.php:135 | answer 'B' is index 2 |
| Display.RowAnswers | classes/output/answersheet_question.php:134-189 | choices exactly for radio, slots exactly for letter by letter |
| Display.ShowRowIdentifiers | classes/output/answersheet_question.php:126-190 | the uid is question_m_r and the id is the field name of answer<answerid> |
| Display.ShowRowMarked | classes/output/answersheet_question.php:152-188 | a row is marked iff correctness is shown and the type is known |
| Display.SelectedChoiceSharesRowMark | classes/output/answersheet_question.php:141-157 | a selected choice carries the row's mark |
| Display.ShowModule | classes/output/answersheet_question.php:109-123 | colspan numoptions + 1, one question per row in order, possible answers exactly for radio |
| Display.ShowRows | classes/output/answersheet_question.php:125-193 | the row loop yields the module's shown questions, one per row in order |
| Display.QuestionUidInjective | classes/output/answersheet_question.php:190 | distinct positions get distinct uids |
| Display.ProcessModules | classes/output/answersheet_question.php:102-198 | each module in order, numbered from 0, its rows numbered from 0 |
| Display.RowAnswerIsRecordAnswer | classes/output/answersheet_question.php:131-133 | in a row from get_data the answer cell holds the record's answer |
| QuestionType.RowFieldsLastWins | questiontype.php:73-77 | the gathered row maps a column to its last cell's value |
| QuestionType.FlatRowOfRecord | questiontype.php:71-85 | a get_data row flattens to its feedback, and to ord(options) - 64 for radio or the answer for the textual types |
| QuestionType.RadioLettersCount | questiontype.php:79 | A gives 1, B gives 2, J gives 10 |
| QuestionType.FlattenedLength | questiontype.php:69-86 | one flattened answer per row |
| QuestionType.FlattenedPosition | questiontype.php:69-86 | answer i of module k lands at position rows-before-k + i |
| QuestionType.FlatModulesMeaning | questiontype.php:69-86 | the k-th list of flattened answers is that of module k |
| QuestionType.FlatRowsMeaning | questiontype.php:72-85 | the i-th flattened answer of a module is the flattening of its i-th row |
| QuestionType.FlatValueFollowsTypeName | questiontype.php:78-81 | the type tests by number agree with the type names radiochecked, letterbyletter and freetext |
| QuestionType.FlattenModules | questiontype.php:69-86 | the nested loop yields the flattened answers |
| QuestionType.FlattenRows | questiontype.php:72-85 | the inner loop yields the module's rows in order |
| QuestionType.AppendAnswers | questiontype.php:87-92 | the lockstep loop appends value, id, 0 and feedback per answer |
| QuestionType.AppendedLockstep | questiontype.php:87-92 | from equal lengths, each answer lands at the same index in all four arrays, fraction 0 |
| QuestionType.WrapFeedback | questiontype.php:103-108 | each feedback text becomes a plain-text editor, in order |
| QuestionType.SaveQuestionOptions | questiontype.php:69-109 | the arrays with the flattened answers appended; the feedback wrapped, or undefined when there is none |
| QuestionType.SaveParts | questiontype.php:246-264 | no parts for an unsaved question; else one part per module of question 1000, start from the previous module |
| QuestionType.PartsAsWrittenOfMeaning | questiontype.php:256-262 | as written, part k of the question is named after module k and starts at 0 for the first module, else at the row count of module k - 1 alone |
| QuestionType.AsWrittenStartIsNotRunningTotal | questiontype.php:257-259 | with 2 and 3 rows before it, the third part starts at 3, not 5 |
| QuestionType.PartsIgnoreTheSavedQuestion | questiontype.php:252 | a question with modules of its own gets no parts when question 1000 has none |
| QuestionType.PartsIntendedOfMeaning | questiontype.php:246-264 | corrected part k starts after all rows of the modules before it |
| QuestionType.SavePartsIntended | questiontype.php:246-264 | corrected: the saved question's own modules with running-total starts |
| QuestionType.IntendedPartStartsAtItsFirstAnswer | questiontype.php:246-264 | a corrected part starts at its module's first flattened answer |
| QuestionType.NonBlankKeys | questiontype.php:295-299 | the kept keys are in range and not blank |
| QuestionType.NonBlankKeysComplete | questiontype.php:295-299 | the kept keys increase and include every non-blank key |
| QuestionType.PlacementsMeaning | questiontype.php:302-318 | the p-th kept answer reuses the p-th old record, or inserts a new one when none is left, linking its answer-sheet id |
| QuestionType.OldRecordsPartitioned | questiontype.php:278-360 | the reused records followed by the deleted ones are exactly the old records, in id order |
| QuestionType.InsertedOnlyPastOldRecords | questiontype.php:302-310 | an answer inserts a record iff the old records are used up |
| QuestionType.SaveQuestionAnswers | questiontype.php:274-361 | the placements of the non-blank answers, and the left-over old records deleted |
| Store.FirstFor | amd/src/local/state.js:114-121 | the first subscriber for the key, or none when there is none |
| Store.SubscribeKeepsNoDuplicates | amd/src/local/state.js:74-89 | subscribing keeps the list free of duplicate pairs |
| Store.SubscribeIdempotent | amd/src/local/state.js:74-89 | subscribing twice equals subscribing once |
| Store.SubscribeAppends | amd/src/local/state.js:74-89 | a new pair lands at the end, the rest unchanged |
| Store.WithoutMembers | amd/src/local/state.js:95-97 | unsubscribing keeps exactly the entries with another callback |
| Store.WithoutAppend | amd/src/local/state.js:95-97 | unsubscribing keeps the relative order |
| Store.WithoutAbsent | amd/src/local/state.js:95-97 | unsubscribing an unknown callback changes nothing |
| Store.WithoutIdempotent | amd/src/local/state.js:95-97 | unsubscribing twice equals once |
| Store.AllKeysSetNotifiesAll | amd/src/local/state.js:102-108 | with every subscribed key holding a defined value, every subscriber is notified in order |
| Store.EmptyDataNotifiesNobody | amd/src/local/state.js:102-108 | with no value set, nobody is notified |
| Store.NotifiedAreSubscribed | amd/src/local/state.js:102-108 | a notified callback belongs to a subscriber whose key holds a defined value |
| Store.UndefinedIsLikeMissing | amd/src/local/state.js:104 | a key holding `undefined` notifies exactly as a missing key does |
| Store.State.constructor | amd/src/local/state.js:32-35 | empty data and no subscribers |
| Store.State.GetValue | amd/src/local/state.js:57-59 | a value exactly for a key holding a defined value, and then that value; undefined for a missing key or a stored undefined |
| Store.State.SetValue | amd/src/local/state.js:43-50 | the key updated (possibly to undefined), other keys unchanged, the first subscriber for the key notified |
| Store.State.Subscribe | amd/src/local/state.js:74-89 | errors for a non-string key or non-function callback, else the pair added once |
| Store.State.Unsubscribe | amd/src/local/state.js:95-97 | the entries with that callback removed |
| Store.State.NotifySubscriber | amd/src/local/state.js:114-121 | the first subscriber for the key is invoked |
| Store.State.NotifySubscribers | amd/src/local/state.js:102-108 | every subscriber whose key holds a defined value (`!== undefined`) is invoked, in list order |
| Editor.FindIndex | amd/src/local/manager.js:402-436 | the first match, or none (-1) exactly when nothing matches |
| Editor.TypeName | amd/src/local/manager.js:73-77 | defined exactly for a type in TYPES |
| Editor.CreateTempId | amd/src/local/manager.js:562-564 | 'tmp-' followed by the number |
| Editor.TempIdInjective | amd/src/local/manager.js:562-564 | different numbers give different ids |
| Editor.NewRow | amd/src/local/manager.js:365-389 | the id and sortorder, one editable empty cell per column in order |
| Editor.RenumberedMeaning | amd/src/local/manager.js:570-578 | row i gets sortorder i + 1, otherwise unchanged |
| Editor.RenumberedIdempotent | amd/src/local/manager.js:570-578 | renumbering twice equals once |
| Editor.RenumberedAppend | amd/src/local/manager.js:321-337 | an appended row is numbered after the others |
| Editor.AddRowAppends | amd/src/local/manager.js:321-337 | the module gains one row at the end; all rows renumbered |
| Editor.DeleteRowRemovesExactly | amd/src/local/manager.js:396-410 | with more than one row, the row with the id alone goes; the rest keep their order, numbered 1..n-1 |
| Editor.DeleteRowKeepsARow | amd/src/local/manager.js:401 | a module is never left without rows |
| Editor.WithModuleDeleted | amd/src/local/manager.js:522-532 | a non-empty list loses exactly one module |
| Editor.AddModuleIdCanRepeat | amd/src/local/manager.js:543 | after two additions and deleting the first, the next addition reuses a live id |
| Editor.RetypedFlags | amd/src/local/manager.js:459-467 | exactly the new type's flag is set; the class follows the type |
| Editor.RetypedKeepsRows | amd/src/local/manager.js:459-467 | rows, id and sortorder unchanged |
| Editor.EditorLastLetter | amd/src/local/manager.js:507-514 | a 16-bit code unit, the capital letter for 1..26 options |
| Editor.LastLetterAgrees | amd/src/local/manager.js:511 | editor and server agree on the last letter for 1..26 options |
| Editor.SelectOnly | amd/src/local/manager.js:431-435 | exactly the option with the new value is selected |
| Editor.ChangeAll | amd/src/local/manager.js:416-439 | the module list keeps its length |
| Editor.ChangeRowCompletes | amd/src/local/manager.js:427-437 | an edit completes iff the column-id cell and the answer cell exist and a select cell has options |
| Editor.ChangeRowSetsCells | amd/src/local/manager.js:427-437 | the edited and answer cells take the value, select flags follow it, every other cell unchanged |
| Editor.ChangeLeavesOtherRows | amd/src/local/manager.js:421-424 | rows with another id are untouched |
| Editor.CheckCellValue | amd/src/local/manager.js:231-238 | an over-long text value is cut to its length, a prefix; anything else unchanged |
| Editor.CheckCellValueIdempotent | amd/src/local/manager.js:231-238 | checking twice equals once |
| Editor.CheckedTextFits | amd/src/local/manager.js:231-238 | a checked text cell fits its length |
| Editor.SavedCellOf | amd/src/local/manager.js:257-266 | type and column kept; the options cell saves its option names; others their value |
| Editor.SavedModuleOf | amd/src/local/manager.js:251-276 | sortorder, name, type, options count, and one saved row per row in order |
| Editor.CheckModuleIdempotent | amd/src/local/manager.js:246-279 | cleaning a cleaned module changes nothing |
| Editor.SelectedValue | amd/src/local/manager.js:178-183 | '' when no cell is in the answer column |
| Editor.SelectedValueIsLastAnswer | amd/src/local/manager.js:178-183 | the value of the last answer cell |
| Editor.MarkSelected | amd/src/local/manager.js:187-195 | an option is selected iff it was or its name is the answer |
| Editor.ParsedModuleShape | amd/src/local/manager.js:172-207 | one row per row and one editable cell per cell, with its value |
| Editor.LoadedOptionsCell | amd/src/local/manager.js:184-197 | with the schema, '-' stays selected and the answer's option is selected too |
| Editor.RowIdInjective | amd/src/local/manager.js:349 | distinct positions get distinct row ids |
| Editor.ModuleIdInjective | amd/src/local/manager.js:348 | distinct positions get distinct module ids |
| Editor.SavedIgnoresIds | amd/src/local/manager.js:344-358 | the computed ids do not reach the saved shape |
| Editor.Manager.constructor | amd/src/local/manager.js:51 | the counter starts at 1000; modules without temporary ids leave every id the counter hands out fresh |
| Editor.Manager.CreateRow | amd/src/local/manager.js:365-389 | the counter advances; the new row when columns are loaded, else none |
| Editor.Manager.RenumberRows | amd/src/local/manager.js:573-575 | the rows numbered 1..n |
| Editor.Manager.ResetRowSortorder | amd/src/local/manager.js:570-578 | every module's rows renumbered |
| Editor.Manager.AddRow | amd/src/local/manager.js:321-337 | found iff a module has the id; then the created row appended and all renumbered |
| Editor.Manager.DeleteRow | amd/src/local/manager.js:396-410 | found iff a module has the id; then the row deleted as specified |
| Editor.Manager.Change | amd/src/local/manager.js:416-439 | the edit applied module by module, stopping where JavaScript throws |
| Editor.Manager.ChangeModule | amd/src/local/manager.js:446-470 | every module with the id retyped, others unchanged |
| Editor.Manager.UpdateModuleOption | amd/src/local/manager.js:478-488 | one option more or fewer, then the retyping |
| Editor.Manager.DeleteModule | amd/src/local/manager.js:522-532 | the first module with the id, or the last, removed |
| Editor.Manager.AddModule | amd/src/local/manager.js:538-554 | a radio module of four options with one new row appended, id from the count |
| Editor.Manager.AddModuleFresh | amd/src/local/manager.js:538-554 | corrected: the id comes from the counter, is new, and distinct ids stay distinct |
| Editor.Manager.CleanModules | amd/src/local/manager.js:246-279 | live text cells cut in place; the saved shape of every module, in order |
| Editor.Manager.RecomputeIds | amd/src/local/manager.js:344-358 | module k gets the ids made from its position |
| Editor.Manager.ParseModules | amd/src/local/manager.js:172-207 | each module flagged and merged with its columns, then given its ids |
| Editor.LoadedModulesHaveNoTempIds | amd/src/local/manager.js:172-207 | loaded modules keep the server's decimal ids, none of which is a temporary id |

## Left out

- Database access, files, language strings, the rendering templates and the
  web services are not modelled. `get_data` takes the module and answer
  records as parameters, and `save_parts` takes the modules of each question
  as a map.
- Moodle's `is_answer_empty` is a parameter (one flag per answer key).
  `fill_answer_fields` and the record writes of `save_question_answers` are
  not modelled; the model returns which record each answer uses and which old
  records are deleted.
- The extra-answer-fields branch of `save_question_answers` is not modelled.
  This question type does not define `extra_answer_fields`, so the branch does
  not run.
- `questiontype.php` calls `get_data` with an integer id at lines 63, 66 and
  252, but `classes/local/api/answersheet.php:42` declares a
  `question_definition` parameter, so PHP would raise a TypeError there. The
  model treats each call as loading the modules of the question with that id,
  which is what the callers evidently expect. The fallback to the old parent
  question (lines 64-68) is part of that loading and is not modelled.
- `summarise_response`, `get_expected_data`, `get_correct_response`,
  `get_validation_error`, `check_file_access` and the documents and files
  helpers of the question type are outside this model.
- `iconv` transliteration is an uninterpreted parameter of the question.
- Loose equality covers integer-form numeric strings only. Decimal and
  exponent forms are treated as plain text.
- Grades are exact reals; PHP floating point is not modelled.
- Store values are opaque text, or `undefined` (None). The editor stores the
  module list and the column list there; their structure is not part of the
  store's model.
- Store keys are the map's own entries only. In JavaScript `this.data` is a
  plain `{}`, so a lookup also finds the names Object.prototype provides
  (`constructor`, `toString`, `__proto__`, ...), and assigning `__proto__`
  does not store a value. Those names are not modelled as keys:
- Store.EmptyDataNotifiesNobody: on `{}` a subscriber for an inherited name such as
  `constructor` is notified in JavaScript; the lemma holds for own keys only.
- Store.UndefinedIsLikeMissing: for an inherited name an own `undefined` differs
  from a missing key, which finds the inherited member; the lemma holds for
  own keys only.
- Store.State.NotifySubscribers: the `!== undefined` test also passes for an inherited
  name that the map does not hold; the model tests own entries only.
- Store.State.GetValue: `getValue("toString")` returns an inherited function in
  JavaScript; the model returns undefined for every name the map does not hold.
- Store.State.SetValue: `setValue("__proto__", v)` changes the object's prototype rather
  than storing v; the model stores v under every key.
- State.getData (amd/src/local/state.js:65-67) returns the whole map: that is
  the State class's `data` field itself.
- State.debug() and console output, DOM events, the navigation keys,
  promises and `await` ordering are not modelled. Each editor operation runs
  to completion.
- A subscriber callback is known only by an identity. Its own effects are not
  modelled; the methods report which callbacks would be invoked.
- JavaScript ids are strings. The loose `==` between a DOM id and a row or
  module id is reduced to string equality on the decimal form.
- The DOM values that `changeModule` reads pass through `parseInt`. The model
  takes them as integers.
- The display fields that loading and row creation copy (label, edit flag per
  type, field, sample value) and the row fields that `createRow` sets
  (numoptions, type, radiochecked) are not modelled. Only the indicator's last
  letter is modelled, not the formatted indicator text.
- On load, a select cell without options is left as it is; JavaScript would
  throw there.
- JavaScript string length counts UTF-16 code units. The model counts
  characters.
- `to_stored_value` and `to_human_value` ask the answer record for
  `get_module_type()`, which `classes/local/persistent/answersheet_answers.php`
  does not define; the type belongs to the module record. The model takes
  the module type as a parameter.
- The option list reaches the model already decoded as a list of labels. The
  source runs `json_decode` on the stored `options` text. A stored value that
  is not a JSON list (such as a single letter) decodes to null:
  `to_stored_value` then raises a TypeError in `array_flip`, and the
  `if ($options)` guard of `to_human_value` returns ''; `normalise_answer`
  and `denormalise_answer` in question.php decode the same way. These paths
  are not modelled.
- PHP `strlen`, `$s[$i]`, `trim` and `strtolower` work on bytes; the model's
  strings are sequences of characters. For text outside ASCII the letter
  slots of a letter-by-letter row (Display.MakeSlot) and the other string
  operations can differ from PHP: with three slots, the answer "é" shows its
  two bytes in the first two slots and '' in the third in PHP, but "é", ''
  and '' in the model.
- Editor.Manager.AddModule: requires the columns to be loaded. Without them,
  JavaScript pushes a module whose row is undefined.

## Findings

| source | as written | input that shows it | evidently intended | confidence | as-written member | corrected member |
|---|---|---|---|---|---|---|
| question.php:146 | `trim()` wraps the result of `$responses[$fieldname] != ""` (loose `!=`, which against `""` is string comparison), so the value itself is compared untrimmed | a response with `' '` for every answer is complete | a blank answer is not complete | not executed | Question.BlankResponseIsComplete | Question.BlankResponseIsNotCompleteIntended |
| classes/local/api/answersheet.php:279-280 | `to_human_value` returns the stored index itself for a radio answer | 'B' with options `['-','A','B','C','D']` is stored as 2 and read back as "2" | the label at that index, making the round trip from the label the identity | not executed | AnswersheetApi.RadioRoundTripYieldsIndex | AnswersheetApi.IntendedRadioRoundTrip |
| amd/src/local/manager.js:543 | a new module's temporary id is `tmp-` plus the module count + 1 | add two modules, delete `tmp-1`, add one: the new id equals the remaining `tmp-2` | a fresh id for every new module | not executed | Editor.AddModuleIdCanRepeat | Editor.Manager.AddModuleFresh |
| questiontype.php:257-259 | a part's start is the row count of the previous module only | modules with 2, 3 and 1 rows: the third part starts at 3 | the running total, 5: the position of the module's first answer | not executed | QuestionType.AsWrittenStartIsNotRunningTotal | QuestionType.IntendedPartStartsAtItsFirstAnswer |
| questiontype.php:252 | the parts are built from the modules of question 1000, whatever question is saved | question 5 with one module, and no question 1000: no parts | the parts of the saved question's own modules | not executed | QuestionType.PartsIgnoreTheSavedQuestion | QuestionType.SavePartsIntended |
