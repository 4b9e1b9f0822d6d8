/**
 * The answer-sheet question: one answer per graded part, a response that
 * maps the field `answer<id>` of each part to the submitted value, and the
 * grading operations over them (completeness, gradability, sameness, the
 * number of right parts, the score, clearing the wrong parts, the grade
 * over several tries with a penalty).
 */
module Question {
  import opened Wrappers
  import opened StringOps
  import AnswersheetModule

  /** One answer of the question: its id (the key of the answers array) and its correct value. */
  datatype Answer = Answer(id: nat, answer: string)

  /**
   * A question definition.  `types` and `options` are the extra answer data
   * indexed by answer id: the module type of the answer and its decoded
   * option list (absent when the stored list is empty).  `iconv` is the
   * ASCII transliteration, present exactly when PHP has iconv.
   */
  datatype QuestionDef = QuestionDef(
    answers: seq<Answer>,
    types: map<nat, int>,
    options: map<nat, seq<string>>,
    penalty: real,
    iconv: Option<string -> string>)

  /** The array keys of the answers are distinct. */
  predicate DistinctIds(q: QuestionDef)
  {
    forall i, j :: 0 <= i < j < |q.answers| ==> q.answers[i].id != q.answers[j].id
  }

  type Response = map<string, string>

  // ------------------------------------------------------------ fields

  /** field(): the response field of an answer key is 'answer' followed by the key. */
  function Field(key: nat): (f: string)
    ensures |f| > 6 && f[..6] == "answer" && f[6..] == NatToString(key)
  {
    "answer" + NatToString(key)
  }

  /** Two answer keys have the same response field exactly when they are equal. */
  lemma FieldInjective(k1: nat, k2: nat)
    ensures Field(k1) == Field(k2) <==> k1 == k2
  {
    assert Field(k1)[6..] == NatToString(k1) && Field(k2)[6..] == NatToString(k2);
    DigitsValueOfNatToString(k1);
    DigitsValueOfNatToString(k2);
  }

  /**
   * get_response_value(): the submitted value of the key's field, or null
   * when it is missing or PHP-empty ('' or '0').
   */
  function GetResponseValue(key: nat, responses: Response): (v: PhpValue)
    ensures v.PhpInt? == false
    ensures v.PhpString? <==> Field(key) in responses && !IsEmptyValue(responses[Field(key)])
    ensures v.PhpString? ==> v.s == responses[Field(key)]
  {
    var f := Field(key);
    if f in responses && !IsEmptyValue(responses[f]) then PhpString(responses[f]) else PhpNull
  }

  // ------------------------------------------- normalisation and comparison

  /** The module type of an answer, 0 when the extra data has none. */
  function TypeOf(q: QuestionDef, a: Answer): int
  {
    if a.id in q.types then q.types[a.id] else 0
  }

  /**
   * normalise_answer(): for a radio answer with an option list, the index of
   * the value in the list (its last occurrence) or 0 when absent; for a radio
   * answer without a list, the value unchanged; for any other type, trimmed.
   */
  function Normalise(q: QuestionDef, a: Answer, v: string): (r: PhpValue)
    ensures TypeOf(q, a) == AnswersheetModule.RadioChecked && a.id in q.options && v in q.options[a.id] ==>
      r.PhpInt? && 0 <= r.i < |q.options[a.id]| && q.options[a.id][r.i] == v &&
      forall j :: r.i < j < |q.options[a.id]| ==> q.options[a.id][j] != v
    ensures TypeOf(q, a) == AnswersheetModule.RadioChecked && a.id in q.options && v !in q.options[a.id] ==>
      r == PhpInt(0)
    ensures TypeOf(q, a) == AnswersheetModule.RadioChecked && a.id !in q.options ==> r == PhpString(v)
    ensures TypeOf(q, a) != AnswersheetModule.RadioChecked ==> r == PhpString(Trim(v))
  {
    if TypeOf(q, a) == AnswersheetModule.RadioChecked then
      if a.id in q.options then
        match FlipLookup(q.options[a.id], v)
        case Some(idx) => PhpInt(idx)
        case None => PhpInt(0)
      else PhpString(v)
    else PhpString(Trim(v))
  }

  /**
   * denormalise_answer(): for a radio answer with an option list, the label
   * at the given index or '' when it is not an index of the list; for a radio
   * answer without a list, the value unchanged; for any other type, trimmed.
   */
  function Denormalise(q: QuestionDef, a: Answer, v: PhpValue): (r: PhpValue)
    ensures TypeOf(q, a) == AnswersheetModule.RadioChecked && a.id in q.options ==>
      var opts := q.options[a.id];
      && (v.PhpInt? && 0 <= v.i < |opts| ==> r == PhpString(opts[v.i]))
      && (v.PhpString? && IsCanonicalNat(v.s) && DigitsValue(v.s) < |opts| ==> r == PhpString(opts[DigitsValue(v.s)]))
      && (v.PhpNull? ==> r == PhpString(""))
      && (v.PhpInt? && !(0 <= v.i < |opts|) ==> r == PhpString(""))
      && (v.PhpString? && !(IsCanonicalNat(v.s) && DigitsValue(v.s) < |opts|) ==> r == PhpString(""))
      && r.PhpString? && (r.s == "" || r.s in opts)
    ensures TypeOf(q, a) == AnswersheetModule.RadioChecked && a.id !in q.options ==> r == v
    ensures TypeOf(q, a) != AnswersheetModule.RadioChecked ==> r == PhpString(Trim(ToPhpString(v)))
  {
    if TypeOf(q, a) == AnswersheetModule.RadioChecked then
      if a.id in q.options then
        var opts := q.options[a.id];
        if IsListIndex(v, opts) then PhpString(opts[KeyIndex(v).value]) else PhpString("")
      else v
    else PhpString(Trim(ToPhpString(v)))
  }

  /** Denormalising a normalised radio label gives the label back. */
  lemma RadioNormaliseRoundTrip(q: QuestionDef, a: Answer, v: string)
    requires TypeOf(q, a) == AnswersheetModule.RadioChecked && a.id in q.options && v in q.options[a.id]
    ensures Denormalise(q, a, Normalise(q, a, v)) == PhpString(v)
  {
  }

  /** For a list without repeats, normalising a denormalised index gives the index back. */
  lemma RadioDenormaliseRoundTrip(q: QuestionDef, a: Answer, i: nat)
    requires TypeOf(q, a) == AnswersheetModule.RadioChecked && a.id in q.options
    requires Distinct(q.options[a.id]) && i < |q.options[a.id]|
    ensures Normalise(q, a, ToPhpString(Denormalise(q, a, PhpInt(i)))) == PhpInt(i)
  {
    FlipLookupOfDistinct(q.options[a.id], i);
  }

  /** For the textual types, normalising and denormalising both trim, so the round trip is trim. */
  lemma TextNormaliseRoundTrip(q: QuestionDef, a: Answer, v: string)
    requires TypeOf(q, a) != AnswersheetModule.RadioChecked
    ensures Denormalise(q, a, Normalise(q, a, v)) == PhpString(Trim(v))
  {
    TrimIdempotent(v);
  }

  /**
   * compare_keys(): equal after transliteration (when iconv exists), trimming
   * and ASCII case folding, as strcasecmp(trim(k1), trim(k2)) === 0.
   */
  predicate CompareKeys(q: QuestionDef, key1: string, key2: string)
  {
    var k1 := if q.iconv.Some? then q.iconv.value(key1) else key1;
    var k2 := if q.iconv.Some? then q.iconv.value(key2) else key2;
    CaseInsensitiveEqual(Trim(k1), Trim(k2))
  }

  /** compare_keys() is an equivalence: reflexive, symmetric and transitive. */
  lemma CompareKeysEquivalence(q: QuestionDef, a: string, b: string, c: string)
    ensures CompareKeys(q, a, a)
    ensures CompareKeys(q, a, b) ==> CompareKeys(q, b, a)
    ensures CompareKeys(q, a, b) && CompareKeys(q, b, c) ==> CompareKeys(q, a, c)
  {
  }

  /**
   * compare_response_with_answer(): whether the denormalised response and
   * the answer compare equal; nothing (a TypeError in compare_keys) when the
   * denormalised response is null.
   */
  function CompareResponseWithAnswer(q: QuestionDef, a: Answer, v: PhpValue): (r: Option<bool>)
    ensures r.None? <==> Denormalise(q, a, v).PhpNull?
    ensures r.Some? ==> (r.value <==> CompareKeys(q, ToPhpString(Denormalise(q, a, v)), a.answer))
  {
    var d := Denormalise(q, a, v);
    if d.PhpNull? then None else Some(CompareKeys(q, ToPhpString(d), a.answer))
  }

  /** A submitted (non-null) response always compares without error. */
  lemma CompareSubmittedNeverFails(q: QuestionDef, a: Answer, s: string)
    ensures CompareResponseWithAnswer(q, a, PhpString(s)).Some?
  {
  }

  // -------------------------------------------------- whole-response checks

  /** The field of every answer is present and, as written, not '' (untrimmed). */
  predicate CompleteSpec(q: QuestionDef, responses: Response)
  {
    forall a :: a in q.answers ==> Field(a.id) in responses && responses[Field(a.id)] != ""
  }

  /**
   * is_complete_response(): every answer's field is present and not ''.
   * The trim() of the source is applied to the boolean of the comparison, so
   * the value itself is compared untrimmed.
   */
  method IsCompleteResponse(q: QuestionDef, responses: Response) returns (iscomplete: bool)
    ensures iscomplete <==> CompleteSpec(q, responses)
  {
    iscomplete := true;
    var i := 0;
    while i < |q.answers|
      invariant 0 <= i <= |q.answers|
      invariant iscomplete <==> forall p :: 0 <= p < i ==>
        Field(q.answers[p].id) in responses && responses[Field(q.answers[p].id)] != ""
    {
      var fieldname := Field(q.answers[i].id);
      iscomplete := iscomplete && fieldname in responses;
      iscomplete := iscomplete && responses[fieldname] != "";
      i := i + 1;
    }
  }

  /** As written, a response of blanks only is complete. */
  lemma BlankResponseIsComplete(q: QuestionDef, responses: Response)
    requires forall a :: a in q.answers ==> Field(a.id) in responses && responses[Field(a.id)] == " "
    ensures CompleteSpec(q, responses)
  {
  }

  /** The evident intent: the field of every answer is present and not blank once trimmed. */
  predicate CompleteIntended(q: QuestionDef, responses: Response)
  {
    forall a :: a in q.answers ==> Field(a.id) in responses && Trim(responses[Field(a.id)]) != ""
  }

  /**
   * The intended check rejects a blank answer that the written one accepts,
   * and accepts nothing the written one rejects.
   */
  lemma {:induction false} BlankResponseIsNotCompleteIntended(q: QuestionDef, responses: Response, a: Answer)
    requires a in q.answers && Field(a.id) in responses && responses[Field(a.id)] == " "
    ensures !CompleteIntended(q, responses)
    ensures CompleteIntended(q, responses) ==> CompleteSpec(q, responses)
  {
    var v := responses[Field(a.id)];
    assert TrimLeft(v) == TrimLeft(v[1..]);
    assert v[1..] == "";
  }

  /** Every intended-complete response is complete as written. */
  lemma CompleteIntendedImpliesComplete(q: QuestionDef, responses: Response)
    requires CompleteIntended(q, responses)
    ensures CompleteSpec(q, responses)
  {
    forall a | a in q.answers
      ensures responses[Field(a.id)] != ""
    {
      assert Trim("") == "";
    }
  }

  /** An empty response is not complete for a question with answers. */
  lemma EmptyIsNotComplete(q: QuestionDef)
    requires |q.answers| > 0
    ensures !CompleteSpec(q, map[])
  {
    assert q.answers[0] in q.answers;
  }

  /** A response with fewer entries than the question has answers is not complete. */
  lemma TooShortIsNotComplete(q: QuestionDef, responses: Response)
    requires DistinctIds(q) && |responses| < |q.answers|
    ensures !CompleteSpec(q, responses)
  {
    if CompleteSpec(q, responses) {
      FieldsCount(q.answers);
      forall f | f in FieldsOf(q.answers) ensures f in responses {
        FieldsOfMember(q.answers, f);
        var k :| 0 <= k < |q.answers| && f == Field(q.answers[k].id);
        assert q.answers[k] in q.answers;
      }
      SubsetCard(FieldsOf(q.answers), responses.Keys);
    }
  }

  lemma SubsetCard(a: set<string>, b: set<string>)
    requires a <= b
    ensures |a| <= |b|
  {
    if a != b {
      assert |b| == |a| + |b - a|;
    }
  }

  /** Answers with distinct keys have as many distinct fields as entries. */
  lemma {:induction false} FieldsCount(answers: seq<Answer>)
    requires forall i, j :: 0 <= i < j < |answers| ==> answers[i].id != answers[j].id
    ensures |FieldsOf(answers)| == |answers|
  {
    if answers != [] {
      var init := answers[..|answers| - 1];
      FieldsCount(init);
      FieldsOfLastNew(answers);
    }
  }

  /** The response fields of the given answers. */
  function FieldsOf(answers: seq<Answer>): (fs: set<string>)
    ensures forall a :: a in answers ==> Field(a.id) in fs
  {
    if answers == [] then {}
    else FieldsOf(answers[..|answers| - 1]) + {Field(answers[|answers| - 1].id)}
  }

  /** Every field of the given answers is the field of one of them. */
  lemma {:induction false} FieldsOfMember(answers: seq<Answer>, f: string)
    requires f in FieldsOf(answers)
    ensures exists k :: 0 <= k < |answers| && f == Field(answers[k].id)
  {
    var init := answers[..|answers| - 1];
    if f != Field(answers[|answers| - 1].id) {
      FieldsOfMember(init, f);
      var k :| 0 <= k < |init| && f == Field(init[k].id);
      assert init[k] == answers[k];
    }
  }

  /** With distinct keys, the last answer's field is not among the earlier answers' fields. */
  lemma FieldsOfLastNew(answers: seq<Answer>)
    requires answers != []
    requires forall i, j :: 0 <= i < j < |answers| ==> answers[i].id != answers[j].id
    ensures Field(answers[|answers| - 1].id) !in FieldsOf(answers[..|answers| - 1])
  {
    var init := answers[..|answers| - 1];
    var last := answers[|answers| - 1];
    if Field(last.id) in FieldsOf(init) {
      FieldsOfMember(init, Field(last.id));
      var k :| 0 <= k < |init| && Field(last.id) == Field(init[k].id);
      assert answers[k] == init[k];
      FieldInjective(last.id, init[k].id);
    }
  }

  /**
   * PHP 8 loose == between two response values: numeric strings compare as
   * numbers, null equals only null (the empty string is already read as null).
   */
  predicate SameValue(x: PhpValue, y: PhpValue)
  {
    match (x, y)
    case (PhpNull, PhpNull) => true
    case (PhpString(a), PhpString(b)) => LooseEqual(a, b)
    case (PhpInt(m), PhpInt(n)) => m == n
    case (PhpString(a), PhpInt(n)) => LooseEqualInt(a, n)
    case (PhpInt(m), PhpString(b)) => LooseEqualInt(b, m)
    case _ => false
  }

  /** Both responses agree loosely on every answer once empty values are read as null. */
  predicate SameSpec(q: QuestionDef, prev: Response, next: Response)
  {
    forall a :: a in q.answers ==> SameValue(GetResponseValue(a.id, prev), GetResponseValue(a.id, next))
  }

  /** is_same_response(): each answer's response value agrees by loose ==, empties read as null. */
  method IsSameResponse(q: QuestionDef, prev: Response, next: Response) returns (same: bool)
    ensures same <==> SameSpec(q, prev, next)
  {
    same := true;
    var i := 0;
    while i < |q.answers|
      invariant 0 <= i <= |q.answers|
      invariant same <==> forall p :: 0 <= p < i ==>
        SameValue(GetResponseValue(q.answers[p].id, prev), GetResponseValue(q.answers[p].id, next))
    {
      var key := q.answers[i].id;
      var aprevresponse := GetResponseValue(key, prev);
      var anewresponse := GetResponseValue(key, next);
      same := same && SameValue(aprevresponse, anewresponse);
      i := i + 1;
    }
  }

  /** A response of '' everywhere is the same as no response; a response is the same as itself. */
  lemma AllEmptyIsSameAsNone(q: QuestionDef, empty: Response, r: Response)
    requires forall f :: f in empty ==> empty[f] == ""
    ensures SameSpec(q, map[], empty)
    ensures SameSpec(q, r, r)
  {
    forall a | a in q.answers
      ensures SameValue(GetResponseValue(a.id, r), GetResponseValue(a.id, r))
    {
      var v := GetResponseValue(a.id, r);
      if v.PhpString? {
        LooseEqualIsEquivalence(v.s, v.s, v.s);
      }
    }
  }

  /** One non-empty field differs from no response at all. */
  lemma NonEmptyDiffersFromNone(q: QuestionDef, r: Response, a: Answer)
    requires a in q.answers && Field(a.id) in r && !IsEmptyValue(r[Field(a.id)])
    ensures !SameSpec(q, map[], r)
  {
  }

  /** Sameness is loose: a response '01' is the same as a response '1' for a one-answer question. */
  lemma LeadingZeroIsSameResponse(a: Answer)
    ensures SameSpec(QuestionDef([a], map[], map[], 0.0, None), map[Field(a.id) := "01"], map[Field(a.id) := "1"])
  {
    LeadingZeroIsLooselyEqual();
    assert !IsEmptyValue("01") && !IsEmptyValue("1");
  }

  /** Some answer's field holds a non-empty value. */
  predicate GradableSpec(q: QuestionDef, responses: Response)
  {
    exists a :: a in q.answers && GetResponseValue(a.id, responses).PhpString?
  }

  /** is_gradable_response(): true as soon as one answer's field is non-empty. */
  method IsGradableResponse(q: QuestionDef, responses: Response) returns (gradable: bool)
    ensures gradable <==> GradableSpec(q, responses)
  {
    var i := 0;
    while i < |q.answers|
      invariant 0 <= i <= |q.answers|
      invariant forall p :: 0 <= p < i ==> !GetResponseValue(q.answers[p].id, responses).PhpString?
    {
      var f := Field(q.answers[i].id);
      if f in responses && !IsEmptyValue(responses[f]) {
        assert GetResponseValue(q.answers[i].id, responses).PhpString?;
        return true;
      }
      i := i + 1;
    }
    return false;
  }

  /** No response, and a response of '' everywhere, are not gradable. */
  lemma EmptyIsNotGradable(q: QuestionDef, empty: Response)
    requires forall f :: f in empty ==> empty[f] == ""
    ensures !GradableSpec(q, map[])
    ensures !GradableSpec(q, empty)
  {
  }

  /** A complete response is gradable, unless every value is '0'. */
  lemma CompleteNonZeroIsGradable(q: QuestionDef, responses: Response, a: Answer)
    requires CompleteSpec(q, responses) && a in q.answers && responses[Field(a.id)] != "0"
    ensures GradableSpec(q, responses)
  {
  }

  // ------------------------------------------------------------- scoring

  /**
   * The scoring below, and the loops that compute it, take the comparison of
   * a response value with an answer as a parameter; the question's own
   * operations pass compare_response_with_answer() (Compare).
   */
  type Judge = (Answer, PhpValue) -> Option<bool>

  function Compare(q: QuestionDef): Judge
  {
    (a: Answer, v: PhpValue) => CompareResponseWithAnswer(q, a, v)
  }

  /** The part of answer a is answered, and right. */
  predicate PartRight(judge: Judge, a: Answer, responses: Response)
  {
    var v := GetResponseValue(a.id, responses);
    v.PhpString? && judge(a, v) == Some(true)
  }

  /** The part of answer a is answered, and wrong. */
  predicate PartWrong(judge: Judge, a: Answer, responses: Response)
  {
    var v := GetResponseValue(a.id, responses);
    v.PhpString? && judge(a, v) == Some(false)
  }

  /** A non-empty response never makes the question's comparison fail, so an answered part is right or wrong. */
  lemma AnsweredIsRightOrWrong(q: QuestionDef, a: Answer, responses: Response)
    requires GetResponseValue(a.id, responses).PhpString?
    ensures PartRight(Compare(q), a, responses) != PartWrong(Compare(q), a, responses)
  {
    CompareSubmittedNeverFails(q, a, GetResponseValue(a.id, responses).s);
  }

  /** The number of answered, right parts among the given answers. */
  function CountRight(judge: Judge, answers: seq<Answer>, responses: Response): (n: nat)
    ensures n <= |answers|
  {
    if answers == [] then 0
    else CountRight(judge, answers[..|answers| - 1], responses) + (if PartRight(judge, answers[|answers| - 1], responses) then 1 else 0)
  }

  /** Extending the counted prefix by one answer adds one exactly when that part is right. */
  lemma CountRightStep(judge: Judge, answers: seq<Answer>, i: nat, responses: Response)
    requires i < |answers|
    ensures CountRight(judge, answers[..i + 1], responses)
         == CountRight(judge, answers[..i], responses) + (if PartRight(judge, answers[i], responses) then 1 else 0)
  {
    assert answers[..i + 1][..i] == answers[..i];
  }

  /** All parts right count |answers|; no part right counts 0. */
  lemma {:induction false} CountRightExtremes(judge: Judge, answers: seq<Answer>, responses: Response)
    ensures (forall a :: a in answers ==> PartRight(judge, a, responses)) ==> CountRight(judge, answers, responses) == |answers|
    ensures (forall a :: a in answers ==> !PartRight(judge, a, responses)) ==> CountRight(judge, answers, responses) == 0
  {
    if answers != [] {
      var init := answers[..|answers| - 1];
      assert forall a :: a in init ==> a in answers;
      assert answers[|answers| - 1] in answers;
      CountRightExtremes(judge, init, responses);
    }
  }

  /**
   * The loop of get_num_parts_right(): for each answer whose response value
   * is not null, adds the comparison's verdict.
   */
  method CountRightParts(judge: Judge, answers: seq<Answer>, responses: Response) returns (rightcount: nat)
    ensures rightcount == CountRight(judge, answers, responses)
  {
    rightcount := 0;
    var i := 0;
    while i < |answers|
      invariant 0 <= i <= |answers|
      invariant rightcount == CountRight(judge, answers[..i], responses)
    {
      var a := answers[i];
      CountRightStep(judge, answers, i, responses);
      var currentresponse := GetResponseValue(a.id, responses);
      if currentresponse.PhpString? {
        var isright := judge(a, currentresponse);
        if isright == Some(true) {
          rightcount := rightcount + 1;
        }
      }
      i := i + 1;
    }
    assert answers[..i] == answers;
  }

  /** get_num_parts_right(): the number of answered, right parts, and the number of parts. */
  method GetNumPartsRight(q: QuestionDef, responses: Response) returns (rightcount: nat, total: nat)
    ensures rightcount == CountRight(Compare(q), q.answers, responses) && total == |q.answers|
    ensures rightcount <= total
  {
    rightcount := CountRightParts(Compare(q), q.answers, responses);
    total := |q.answers|;
  }

  /** A count out of a positive total is a fraction in [0, 1]; all of them is 1, none is 0, half is 0.5. */
  lemma FractionBounds(c: nat, n: nat)
    requires 0 < n && c <= n
    ensures 0.0 <= c as real / n as real <= 1.0
    ensures c == n ==> c as real / n as real == 1.0
    ensures c == 0 ==> c as real / n as real == 0.0
    ensures 2 * c == n ==> c as real / n as real == 0.5
  {
    var f := c as real / n as real;
    assert f * n as real == c as real;
  }

  /**
   * The loop of grade_response(): for each answer whose response value is
   * not null, adds the comparison's verdict to a float total.
   */
  method SumRightParts(judge: Judge, answers: seq<Answer>, responses: Response) returns (totalscore: real)
    ensures totalscore == CountRight(judge, answers, responses) as real
  {
    totalscore := 0.0;
    var i := 0;
    while i < |answers|
      invariant 0 <= i <= |answers|
      invariant totalscore == CountRight(judge, answers[..i], responses) as real
    {
      var a := answers[i];
      CountRightStep(judge, answers, i, responses);
      var currentresponse := GetResponseValue(a.id, responses);
      if currentresponse.PhpString? {
        var isright := judge(a, currentresponse);
        if isright == Some(true) {
          totalscore := totalscore + 1.0;
        }
      }
      i := i + 1;
    }
    assert answers[..i] == answers;
  }

  /**
   * grade_response(): the fraction of right parts, right / |answers|, in
   * [0, 1]; nothing (a division by zero) for a question without answers.
   */
  method GradeResponse(q: QuestionDef, responses: Response) returns (fraction: Option<real>)
    ensures fraction.None? <==> |q.answers| == 0
    ensures fraction.Some? ==> fraction.value == CountRight(Compare(q), q.answers, responses) as real / |q.answers| as real
    ensures fraction.Some? ==> 0.0 <= fraction.value <= 1.0
  {
    var totalscore := SumRightParts(Compare(q), q.answers, responses);
    if |q.answers| == 0 {
      return None;
    }
    FractionBounds(CountRight(Compare(q), q.answers, responses), |q.answers|);
    fraction := Some(totalscore / |q.answers| as real);
  }

  /** All parts right grade 1; no part right grades 0; half of them right grades 0.5. */
  lemma GradeExtremes(judge: Judge, answers: seq<Answer>, responses: Response)
    requires |answers| > 0
    ensures (forall a :: a in answers ==> PartRight(judge, a, responses)) ==>
      CountRight(judge, answers, responses) as real / |answers| as real == 1.0
    ensures (forall a :: a in answers ==> !PartRight(judge, a, responses)) ==>
      CountRight(judge, answers, responses) as real / |answers| as real == 0.0
    ensures 2 * CountRight(judge, answers, responses) == |answers| ==>
      CountRight(judge, answers, responses) as real / |answers| as real == 0.5
  {
    CountRightExtremes(judge, answers, responses);
    FractionBounds(CountRight(judge, answers, responses), |answers|);
  }

  /** The fields of the answered, wrong parts among the given answers. */
  function WrongFields(judge: Judge, answers: seq<Answer>, responses: Response): set<string>
  {
    if answers == [] then {}
    else
      var last := answers[|answers| - 1];
      WrongFields(judge, answers[..|answers| - 1], responses) + (if PartWrong(judge, last, responses) then {Field(last.id)} else {})
  }

  /** A field is a wrong field exactly when it is the field of an answered, wrong part. */
  lemma {:induction false} WrongFieldsMeaning(judge: Judge, answers: seq<Answer>, responses: Response, f: string)
    ensures f in WrongFields(judge, answers, responses) <==>
      exists k :: 0 <= k < |answers| && PartWrong(judge, answers[k], responses) && f == Field(answers[k].id)
  {
    if answers != [] {
      var init := answers[..|answers| - 1];
      WrongFieldsMeaning(judge, init, responses, f);
      if f in WrongFields(judge, init, responses) {
        var k :| 0 <= k < |init| && PartWrong(judge, init[k], responses) && f == Field(init[k].id);
        assert answers[k] == init[k];
      }
      if exists k :: 0 <= k < |answers| && PartWrong(judge, answers[k], responses) && f == Field(answers[k].id) {
        var k :| 0 <= k < |answers| && PartWrong(judge, answers[k], responses) && f == Field(answers[k].id);
        if k < |init| {
          assert answers[k] == init[k];
        }
      }
    }
  }

  /** With distinct keys, the field of answer i is not among the wrong fields of the answers before it. */
  lemma FieldNotEarlierWrong(judge: Judge, q: QuestionDef, i: nat, responses: Response)
    requires DistinctIds(q) && i < |q.answers|
    ensures Field(q.answers[i].id) !in WrongFields(judge, q.answers[..i], responses)
  {
    var f := Field(q.answers[i].id);
    WrongFieldsMeaning(judge, q.answers[..i], responses, f);
    forall k | 0 <= k < i ensures f != Field(q.answers[..i][k].id) {
      assert q.answers[..i][k] == q.answers[k];
      FieldInjective(q.answers[k].id, q.answers[i].id);
    }
  }

  /**
   * One step of clearing: the field of answer i still holds its original
   * value, and removing it when that part is wrong extends the cleared
   * prefix by one answer.
   */
  lemma ClearStep(judge: Judge, q: QuestionDef, i: nat, responses: Response, cleared: Response)
    requires DistinctIds(q) && i < |q.answers|
    requires cleared == responses - WrongFields(judge, q.answers[..i], responses)
    ensures GetResponseValue(q.answers[i].id, cleared) == GetResponseValue(q.answers[i].id, responses)
    ensures PartWrong(judge, q.answers[i], responses) ==>
      cleared - {Field(q.answers[i].id)} == responses - WrongFields(judge, q.answers[..i + 1], responses)
    ensures !PartWrong(judge, q.answers[i], responses) ==>
      cleared == responses - WrongFields(judge, q.answers[..i + 1], responses)
  {
    assert q.answers[..i + 1][..i] == q.answers[..i];
    FieldNotEarlierWrong(judge, q, i, responses);
  }

  /**
   * clear_wrong_from_response(): removes exactly the fields of the answered,
   * wrong parts, and leaves every other entry as it was.
   */
  method ClearWrongFromResponse(q: QuestionDef, responses: Response) returns (cleared: Response)
    requires DistinctIds(q)
    ensures cleared == responses - WrongFields(Compare(q), q.answers, responses)
  {
    cleared := responses;
    var i := 0;
    while i < |q.answers|
      invariant 0 <= i <= |q.answers|
      invariant cleared == responses - WrongFields(Compare(q), q.answers[..i], responses)
    {
      var a := q.answers[i];
      ClearStep(Compare(q), q, i, responses, cleared);
      var currentresponse := GetResponseValue(a.id, cleared);
      if currentresponse.PhpString? {
        var isright := CompareResponseWithAnswer(q, a, currentresponse);
        if isright == Some(false) {
          cleared := cleared - {Field(a.id)};
        }
      }
      i := i + 1;
    }
    assert q.answers[..i] == q.answers;
  }

  /**
   * When exactly one answered part is wrong, clearing removes exactly its
   * field, so the cleared response has one entry fewer.
   */
  lemma OneWrongRemovesOne(judge: Judge, answers: seq<Answer>, responses: Response, k: nat)
    requires k < |answers| && PartWrong(judge, answers[k], responses)
    requires forall j :: 0 <= j < |answers| && j != k ==> !PartWrong(judge, answers[j], responses)
    ensures WrongFields(judge, answers, responses) == {Field(answers[k].id)}
    ensures |responses - WrongFields(judge, answers, responses)| == |responses| - 1
  {
    var f := Field(answers[k].id);
    forall g | g in WrongFields(judge, answers, responses) ensures g == f {
      WrongFieldsMeaning(judge, answers, responses, g);
      var j :| 0 <= j < |answers| && PartWrong(judge, answers[j], responses) && g == Field(answers[j].id);
    }
    WrongFieldsMeaning(judge, answers, responses, f);
    var wrong := WrongFields(judge, answers, responses);
    assert wrong == {f};
    var r := responses - wrong;
    assert r.Keys == responses.Keys - {f};
    assert responses.Keys == r.Keys + {f};
  }

  // ------------------------------------------------------- tries and penalty

  /** The per-answer state of the tries loop: the last wrong try's index and whether the latest try was right. */
  datatype TryState = TryState(lastwrong: int, finallyright: bool)

  /** The comparison of answer a with try t succeeds. */
  predicate TryCompares(judge: Judge, a: Answer, t: Response)
  {
    judge(a, GetResponseValue(a.id, t)).Some?
  }

  /** The comparison of answer a with try t succeeds and says right. */
  predicate TryRight(judge: Judge, a: Answer, t: Response)
  {
    judge(a, GetResponseValue(a.id, t)) == Some(true)
  }

  /**
   * The state after the given tries of answer a, starting from (-1, false);
   * nothing when a comparison fails.  The empty value of a try is compared
   * too (as null).
   */
  function TriesState(judge: Judge, a: Answer, tries: seq<Response>): Option<TryState>
  {
    if tries == [] then Some(TryState(-1, false))
    else
      match TriesState(judge, a, tries[..|tries| - 1])
      case None => None
      case Some(st) =>
        match judge(a, GetResponseValue(a.id, tries[|tries| - 1]))
        case None => None
        case Some(right) =>
          if right then Some(TryState(st.lastwrong, true)) else Some(TryState(|tries| - 1, false))
  }

  /**
   * The meaning of the loop state: it exists iff every try compares;
   * finallyright holds iff there is a try and the latest is right; lastwrong
   * is -1 or the index of a wrong try, and every try after it is right.
   */
  lemma {:induction false} TriesStateMeaning(judge: Judge, a: Answer, tries: seq<Response>)
    ensures TriesState(judge, a, tries).Some? <==> forall i :: 0 <= i < |tries| ==> TryCompares(judge, a, tries[i])
    ensures TriesState(judge, a, tries).Some? ==>
      var st := TriesState(judge, a, tries).value;
      (st.finallyright <==> |tries| > 0 && TryRight(judge, a, tries[|tries| - 1])) &&
      -1 <= st.lastwrong < |tries| &&
      (st.lastwrong >= 0 ==> !TryRight(judge, a, tries[st.lastwrong])) &&
      (forall i :: st.lastwrong < i < |tries| ==> TryRight(judge, a, tries[i]))
  {
    if tries != [] {
      var init := tries[..|tries| - 1];
      TriesStateMeaning(judge, a, init);
      assert forall i :: 0 <= i < |init| ==> init[i] == tries[i];
    }
  }

  function Max0(x: real): real
  {
    if x > 0.0 then x else 0.0
  }

  /**
   * n * x for a count n of at least 0, written as repeated addition so that
   * the solver does not meet a product of two unknowns; 0 for n < 0.
   */
  function Times(n: int, x: real): real
    decreases n
  {
    if n <= 0 then 0.0 else Times(n - 1, x) + x
  }

  lemma {:induction false} TimesIsProduct(n: nat, x: real)
    ensures Times(n, x) == n as real * x
  {
    if n > 0 {
      var p: nat := n - 1;
      TimesIsProduct(p, x);
      assert Times(n, x) == Times(p, x) + x;
      assert n as real == p as real + 1.0;
      assert (p as real + 1.0) * x == p as real * x + x;
    }
  }

  lemma {:induction false} TimesNonNegative(n: int, x: real)
    requires 0.0 <= x
    ensures 0.0 <= Times(n, x)
  {
    if n > 0 {
      TimesNonNegative(n - 1, x);
    }
  }

  /** max(0, 1 - (lastwrong + 1) * penalty): one penalty for each try up to the last wrong one. */
  function Penalised(lastwrong: int, penalty: real): real
  {
    Max0(1.0 - Times(lastwrong + 1, penalty))
  }

  /** The score of one answer: the penalised score when finally right, else 0. */
  function PartScore(penalty: real, st: TryState): real
  {
    if st.finallyright then Penalised(st.lastwrong, penalty) else 0.0
  }

  /** With a penalty of at least 0, a part scores in [0, 1], and 1 when never wrong and finally right. */
  lemma PartScoreBounds(penalty: real, st: TryState)
    requires 0.0 <= penalty && st.lastwrong >= -1
    ensures 0.0 <= PartScore(penalty, st) <= 1.0
    ensures st.finallyright && st.lastwrong == -1 ==> PartScore(penalty, st) == 1.0
  {
    if st.finallyright {
      TimesNonNegative(st.lastwrong + 1, penalty);
    }
  }

  /** The sum of the part scores over the given answers; nothing when a comparison fails. */
  function TotalScore(judge: Judge, penalty: real, answers: seq<Answer>, tries: seq<Response>): Option<real>
  {
    if answers == [] then Some(0.0)
    else
      match TotalScore(judge, penalty, answers[..|answers| - 1], tries)
      case None => None
      case Some(total) =>
        match TriesState(judge, answers[|answers| - 1], tries)
        case None => None
        case Some(st) => Some(total + PartScore(penalty, st))
  }

  /** compute_final_grade() as a value: the mean part score; nothing on an error or without answers. */
  function FinalGrade(judge: Judge, q: QuestionDef, tries: seq<Response>): Option<real>
  {
    if |q.answers| == 0 then None
    else match TotalScore(judge, q.penalty, q.answers, tries)
      case None => None
      case Some(total) => Some(total / |q.answers| as real)
  }

  /** A failure in a prefix of the tries is a failure of the whole. */
  lemma {:induction false} TriesStatePrefixFails(judge: Judge, a: Answer, tries: seq<Response>, j: nat)
    requires j <= |tries| && TriesState(judge, a, tries[..j]).None?
    ensures TriesState(judge, a, tries).None?
  {
    if j < |tries| {
      var init := tries[..|tries| - 1];
      assert init[..j] == tries[..j];
      TriesStatePrefixFails(judge, a, init, j);
    } else {
      assert tries[..j] == tries;
    }
  }

  /** A failure for a prefix of the answers is a failure of the whole. */
  lemma {:induction false} TotalScorePrefixFails(judge: Judge, penalty: real, answers: seq<Answer>, tries: seq<Response>, j: nat)
    requires j <= |answers| && TotalScore(judge, penalty, answers[..j], tries).None?
    ensures TotalScore(judge, penalty, answers, tries).None?
  {
    if j < |answers| {
      var init := answers[..|answers| - 1];
      assert init[..j] == answers[..j];
      TotalScorePrefixFails(judge, penalty, init, tries, j);
    } else {
      assert answers[..j] == answers;
    }
  }

  /** One more try extends the state as the loop body does. */
  lemma TriesStep(judge: Judge, a: Answer, tries: seq<Response>, j: nat, st: TryState)
    requires j < |tries| && TriesState(judge, a, tries[..j]) == Some(st)
    ensures TriesState(judge, a, tries[..j + 1]) ==
      match judge(a, GetResponseValue(a.id, tries[j]))
      case None => None
      case Some(right) => if right then Some(TryState(st.lastwrong, true)) else Some(TryState(j, false))
  {
    assert tries[..j + 1][..j] == tries[..j];
  }

  /** A failing answer makes the whole total fail. */
  lemma TotalFails(judge: Judge, penalty: real, answers: seq<Answer>, tries: seq<Response>, i: nat)
    requires i < |answers| && TotalScore(judge, penalty, answers[..i], tries).Some?
    requires TriesState(judge, answers[i], tries).None?
    ensures TotalScore(judge, penalty, answers, tries).None?
  {
    assert answers[..i + 1][..i] == answers[..i];
    TotalScorePrefixFails(judge, penalty, answers, tries, i + 1);
  }

  /** One more answer extends the total as the outer loop body does. */
  lemma TotalStep(judge: Judge, penalty: real, answers: seq<Answer>, tries: seq<Response>, i: nat, total: real)
    requires i < |answers| && TotalScore(judge, penalty, answers[..i], tries) == Some(total)
    requires TriesState(judge, answers[i], tries).Some?
    ensures TotalScore(judge, penalty, answers[..i + 1], tries) ==
      Some(total + PartScore(penalty, TriesState(judge, answers[i], tries).value))
  {
    assert answers[..i + 1][..i] == answers[..i];
  }

  /**
   * The inner loop of compute_final_grade(): scans the tries of answer a in
   * order, keeping the index of the last wrong try and whether the latest
   * try was right; nothing when a comparison fails.
   */
  method ScanTries(judge: Judge, a: Answer, tries: seq<Response>) returns (st: Option<TryState>)
    ensures st == TriesState(judge, a, tries)
  {
    var lastwrongindex := -1;
    var finallyright := false;
    var j := 0;
    while j < |tries|
      invariant 0 <= j <= |tries|
      invariant TriesState(judge, a, tries[..j]) == Some(TryState(lastwrongindex, finallyright))
    {
      TriesStep(judge, a, tries, j, TryState(lastwrongindex, finallyright));
      var currentresponse := GetResponseValue(a.id, tries[j]);
      var isright := judge(a, currentresponse);
      if isright.None? {
        TriesStatePrefixFails(judge, a, tries, j + 1);
        return None;
      }
      if !isright.value {
        lastwrongindex := j;
        finallyright := false;
      } else {
        finallyright := true;
      }
      j := j + 1;
    }
    assert tries[..j] == tries;
    st := Some(TryState(lastwrongindex, finallyright));
  }

  /** The body of the outer loop of compute_final_grade(): adds the penalised score of a part whose latest try is right. */
  method AddPartScore(penalty: real, st: TryState, totalscore: real) returns (r: real)
    ensures r == totalscore + PartScore(penalty, st)
  {
    r := totalscore;
    if st.finallyright {
      r := r + Penalised(st.lastwrong, penalty);
    }
  }

  /**
   * The outer loop of compute_final_grade(): adds, for each answer whose
   * latest try is right, max(0, 1 - (lastwrong + 1) * penalty); nothing
   * when a comparison fails.
   */
  method SumPartScores(judge: Judge, penalty: real, answers: seq<Answer>, tries: seq<Response>) returns (total: Option<real>)
    ensures total == TotalScore(judge, penalty, answers, tries)
  {
    var totalscore: real := 0.0;
    assert answers[..0] == [];
    var i := 0;
    while i < |answers|
      invariant 0 <= i <= |answers|
      invariant TotalScore(judge, penalty, answers[..i], tries) == Some(totalscore)
    {
      var st := ScanTries(judge, answers[i], tries);
      if st.None? {
        TotalFails(judge, penalty, answers, tries, i);
        return None;
      }
      TotalStep(judge, penalty, answers, tries, i, totalscore);
      totalscore := AddPartScore(penalty, st.value, totalscore);
      i := i + 1;
    }
    assert answers[..i] == answers;
    total := Some(totalscore);
  }

  /**
   * compute_final_grade(): the sum of the part scores divided by the number
   * of answers; nothing when a comparison fails or there are no answers.
   */
  method ComputeFinalGrade(q: QuestionDef, tries: seq<Response>) returns (grade: Option<real>)
    ensures grade == FinalGrade(Compare(q), q, tries)
  {
    var totalscore := SumPartScores(Compare(q), q.penalty, q.answers, tries);
    if totalscore.None? {
      return None;
    }
    if |q.answers| == 0 {
      return None;
    }
    grade := Some(totalscore.value / |q.answers| as real);
  }

  /** With every comparison succeeding and a penalty of at least 0, the total lies in [0, |answers|]. */
  lemma {:induction false} TotalScoreBounds(judge: Judge, penalty: real, answers: seq<Answer>, tries: seq<Response>)
    requires 0.0 <= penalty
    requires TotalScore(judge, penalty, answers, tries).Some?
    ensures 0.0 <= TotalScore(judge, penalty, answers, tries).value <= |answers| as real
  {
    if answers != [] {
      var last := answers[|answers| - 1];
      TotalScoreBounds(judge, penalty, answers[..|answers| - 1], tries);
      TriesStateMeaning(judge, last, tries);
      PartScoreBounds(penalty, TriesState(judge, last, tries).value);
    }
  }

  /** With a penalty of at least 0, a final grade lies in [0, 1]. */
  lemma FinalGradeBounds(judge: Judge, q: QuestionDef, tries: seq<Response>)
    requires 0.0 <= q.penalty && FinalGrade(judge, q, tries).Some?
    ensures 0.0 <= FinalGrade(judge, q, tries).value <= 1.0
  {
    var total := TotalScore(judge, q.penalty, q.answers, tries).value;
    TotalScoreBounds(judge, q.penalty, q.answers, tries);
    MeanBounds(total, |q.answers| as real);
  }

  /** A total between 0 and n, divided by n > 0, lies in [0, 1]. */
  lemma MeanBounds(total: real, n: real)
    requires 0.0 < n && 0.0 <= total <= n
    ensures 0.0 <= total / n <= 1.0
  {
    var g := total / n;
    assert g * n == total;
  }

  /** A single try that is right for every part scores one per part, whatever the penalty. */
  lemma {:induction false} SingleRightTryScoresAll(judge: Judge, penalty: real, answers: seq<Answer>, t: Response)
    requires forall a :: a in answers ==> TryRight(judge, a, t)
    ensures TotalScore(judge, penalty, answers, [t]) == Some(|answers| as real)
  {
    if answers != [] {
      var init := answers[..|answers| - 1];
      var last := answers[|answers| - 1];
      assert forall a :: a in init ==> a in answers;
      assert last in answers;
      SingleRightTryScoresAll(judge, penalty, init, t);
      assert [t][..0] == [];
      assert TriesState(judge, last, [t]) == Some(TryState(-1, true));
      assert PartScore(penalty, TryState(-1, true)) == 1.0;
    }
  }

  /** A single try right for every part grades 1. */
  lemma SingleRightTryGradesOne(judge: Judge, q: QuestionDef, t: Response)
    requires |q.answers| > 0 && forall a :: a in q.answers ==> TryRight(judge, a, t)
    ensures FinalGrade(judge, q, [t]) == Some(1.0)
  {
    SingleRightTryScoresAll(judge, q.penalty, q.answers, t);
    FractionBounds(|q.answers|, |q.answers|);
  }

  /** A part wrong at the first try and right at the second scores 1 - penalty (at least 0). */
  lemma RightAtSecondTry(judge: Judge, penalty: real, a: Answer, t0: Response, t1: Response)
    requires judge(a, GetResponseValue(a.id, t0)) == Some(false) && TryRight(judge, a, t1)
    ensures TriesState(judge, a, [t0, t1]) == Some(TryState(0, true))
    ensures PartScore(penalty, TryState(0, true)) == Max0(1.0 - penalty)
    ensures PartScore(penalty, TryState(0, true)) == Penalised(0, penalty)
  {
    assert [t0, t1][..1] == [t0];
    assert [t0][..0] == [];
    assert TriesState(judge, a, [t0]) == Some(TryState(0, false));
  }
}
