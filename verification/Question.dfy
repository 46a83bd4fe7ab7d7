/** Theory questions: decoding a definition, and the canonical form of an answer. */
module Question {
  import opened Json
  import opened Text
  import opened Sorting
  import opened Radix

  const SINGLE_CHOICE := "single_choice"
  const MULTIPLE_CHOICE := "multiple_choice"
  const TRUE_FALSE := "true_false"
  const FILL_BLANK := "fill_blank"
  const SHORT_ANSWER := "short_answer"

  datatype Definition = Definition(kind: string, options: seq<string>, blankCount: int, maxScore: int, answer: Json)

  // ---- json.Unmarshal into the fields of Definition ----

  function TextOf(j: Json): Option<string> {
    match j
    case Scalar(Text(s)) => Some(s)
    case Scalar(Null) => Some("")
    case _ => None
  }

  /** A []string: null elements keep the zero value. */
  function TextsOf(j: Json): (r: Option<seq<string>>)
    ensures r.Some? && j.Arr? ==> |r.value| == |j.items|
  {
    match j
    case Scalar(Null) => Some([])
    case Arr(items) =>
      if forall i :: 0 <= i < |items| ==> TextOf(items[i]).Some? then
        Some(seq(|items|, i requires 0 <= i < |items| => TextOf(items[i]).value))
      else None
    case _ => None
  }

  function ParseInt(text: string): Option<int> {
    if text == "" || text == "-" then None
    else if text[0] == '-' then
      var v := Value(text[1..], 10);
      if v.None? then None else Some(0 - v.value)
    else
      var v := Value(text, 10);
      if v.None? then None else Some(v.value)
  }

  function FormatInt(n: int): string {
    if n < 0 then "-" + Format(-n, 10) else Format(n, 10)
  }

  lemma ParseFormatInt(n: int)
    ensures ParseInt(FormatInt(n)) == Some(n)
  {
    var m := if n < 0 then -n else n;
    ValueOfFormat(m, 10);
    FormatMinimal(m, 10);
    if n >= 0 { NoSign(n); }
  }

  lemma {:induction false} NoSign(n: nat)
    ensures Format(n, 10)[0] != '-'
    decreases n
  {
    if n >= 10 { NoSign(n / 10); }
  }

  function IntOf(j: Json, limit: int): Option<int> {
    match j
    case Scalar(Null) => Some(0)
    case Scalar(Num(text)) =>
      var n := ParseInt(text);
      if n.Some? && -limit <= n.value < limit then n else None
    case _ => None
  }

  function Field(body: map<string, Json>, name: string): Json {
    if name in body then body[name] else NULL
  }

  // ---- Decode ----

  predicate GoodOption(option: string) {
    option != "" && Trimmed(option)
  }

  /** At least two options, non-blank, trimmed and without repetition. */
  predicate GoodOptions(options: seq<string>) {
    && |options| >= 2 && (forall i :: 0 <= i < |options| ==> GoodOption(options[i]))
    && (forall i, j :: 0 <= i < j < |options| ==> options[i] != options[j])
  }

  /** The shape rules of the five question kinds. */
  predicate WellShaped(d: Definition) {
    && d.maxScore > 0
    && if d.kind in {SINGLE_CHOICE, MULTIPLE_CHOICE} then
         GoodOptions(d.options) && d.blankCount == 0
       else if d.kind == FILL_BLANK then d.blankCount > 0 && d.options == []
       else d.kind in {TRUE_FALSE, SHORT_ANSWER} && d.options == [] && d.blankCount == 0
  }

  function Unmarshalled(body: map<string, Json>): Option<Definition> {
    var kind, options := TextOf(Field(body, "q_type")), TextsOf(Field(body, "options"));
    var blanks := IntOf(Field(body, "blank_count"), 0x8000_0000_0000_0000);
    var score := IntOf(Field(body, "max_score"), 0x8000_0000);
    if !Encodable(Obj(body)) || kind.None? || options.None? || blanks.None? || score.None? then None
    else Some(Definition(kind.value, options.value, blanks.value, score.value, Field(body, "answer")))
  }

  /** What Decode accepts: well-shaped definitions, with a good answer if one is asked for. */
  function Decoded(body: map<string, Json>, requireAnswer: bool): Option<Definition> {
    var d := Unmarshalled(body);
    if d.Some? && WellShaped(d.value) && (requireAnswer ==> Normal(d.value, d.value.answer, false).Some?)
    then d else None
  }

  lemma OptionTest(option: string)
    ensures GoodOption(option) <==> TrimSpace(option) != "" && TrimSpace(option) == option
  {
  }

  /** The option loop of Decode. */
  method CheckOptions(options: seq<string>) returns (ok: bool)
    ensures ok <==> GoodOptions(options)
  {
    if |options| < 2 {
      return false;
    }
    hide TrimSpace, GoodOption, GoodOptions;
    var seen: set<string> := {};
    for i := 0 to |options|
      invariant seen == Elements(options[..i]) && GoodPrefix(options[..i])
    {
      var option := options[i];
      OptionTest(option);
      PrefixStep(options, i);
      if TrimSpace(option) == "" || TrimSpace(option) != option || option in seen {
        return false;
      }
      seen := seen + {option};
    }
    WholePrefix(options);
    return true;
  }

  ghost predicate GoodPrefix(options: seq<string>) {
    (forall i :: 0 <= i < |options| ==> GoodOption(options[i])) && NoDuplicates(options)
  }

  lemma PrefixStep(options: seq<string>, i: nat)
    requires i < |options| && GoodPrefix(options[..i])
    ensures GoodPrefix(options[..i + 1]) <==> GoodOption(options[i]) && options[i] !in Elements(options[..i])
    ensures GoodOptions(options) ==> GoodPrefix(options[..i + 1])
    ensures Elements(options[..i + 1]) == Elements(options[..i]) + {options[i]}
  {
  }

  lemma WholePrefix(options: seq<string>)
    ensures GoodPrefix(options[..|options|]) && |options| >= 2 ==> GoodOptions(options)
  {
  }

  method Decode(body: map<string, Json>, requireAnswer: bool) returns (r: Option<Definition>)
    ensures r == Decoded(body, requireAnswer)
  {
    var raw := Unmarshalled(body);
    if raw.None? {
      return None;
    }
    var d := raw.value;
    if d.maxScore <= 0 {
      return None;
    }
    if d.kind == SINGLE_CHOICE || d.kind == MULTIPLE_CHOICE {
      var good := CheckOptions(d.options);
      if !good || d.blankCount != 0 {
        return None;
      }
    } else if d.kind == FILL_BLANK {
      if d.blankCount <= 0 || |d.options| > 0 {
        return None;
      }
    } else if d.kind == TRUE_FALSE || d.kind == SHORT_ANSWER {
      if |d.options| > 0 || d.blankCount != 0 {
        return None;
      }
    } else {
      return None;
    }
    if requireAnswer {
      var answer := Normalize(d, d.answer, false);
      if answer.None? {
        return None;
      }
    }
    r := raw;
  }

  /** Face */
  function Face(d: Definition): map<string, Json> {
    map["q_type" := Scalar(Text(d.kind)), "max_score" := Scalar(Num(FormatInt(d.maxScore)))]
    + (if |d.options| > 0 then map["options" := TextArray(d.options)] else map[])
    + (if d.blankCount > 0 then map["blank_count" := Scalar(Num(FormatInt(d.blankCount)))] else map[])
  }

  function TextArray(texts: seq<string>): (j: Json)
    ensures TextsOf(j) == Some(texts) && Encodable(j)
  {
    var j := Arr(seq(|texts|, i requires 0 <= i < |texts| => Scalar(Text(texts[i]))));
    assert TextsOf(j).value == texts;
    j
  }

  /** A decoded definition survives its own face, except for the answer. */
  lemma DecodeOfFace(body: map<string, Json>, requireAnswer: bool)
    requires Decoded(body, requireAnswer).Some?
    ensures var d := Decoded(body, requireAnswer).value;
      Decoded(Face(d), false) == Some(d.(answer := NULL))
  {
    hide TextsOf, TextOf, Field, Encodable, Face, Normal;
    var d := Decoded(body, requireAnswer).value;
    NumbersFit(body);
    FaceFields(d);
    FaceNumber(d.maxScore, 0x8000_0000);
    FaceNumber(d.blankCount, 0x8000_0000_0000_0000);
    hide IntOf;
    assert Unmarshalled(Face(d)) == Some(d.(answer := NULL));
  }

  lemma NumbersFit(body: map<string, Json>)
    requires Unmarshalled(body).Some?
    ensures var d := Unmarshalled(body).value;
      -0x8000_0000 <= d.maxScore < 0x8000_0000 && -0x8000_0000_0000_0000 <= d.blankCount < 0x8000_0000_0000_0000
  {
    hide ParseInt, Encodable, TextOf, TextsOf;
  }

  lemma FaceNumber(n: int, limit: int)
    requires -limit <= n < limit
    ensures IntOf(Scalar(Num(FormatInt(n))), limit) == Some(n) && IntOf(NULL, limit) == Some(0)
  {
    ParseFormatInt(n);
    hide ParseInt, FormatInt;
  }

  lemma FaceFields(d: Definition)
    requires WellShaped(d)
    ensures var face := Face(d);
      && Encodable(Obj(face)) && TextOf(Field(face, "q_type")) == Some(d.kind)
      && TextsOf(Field(face, "options")) == Some(d.options)
      && Field(face, "max_score") == Scalar(Num(FormatInt(d.maxScore)))
      && Field(face, "blank_count") == (if d.blankCount == 0 then NULL else Scalar(Num(FormatInt(d.blankCount))))
      && Field(face, "answer") == NULL
  {
    hide FormatInt, GoodOptions;
    assert TextsOf(NULL) == Some([]);
  }

  // ---- Normalize ----

  function Trim(answers: seq<string>): seq<string> {
    seq(|answers|, i requires 0 <= i < |answers| => TrimSpace(answers[i]))
  }

  /** The normal form of an answer to a question; None where Normalize returns an error. */
  function Normal(d: Definition, value: Json, allowEmpty: bool): Option<seq<string>> {
    if !Encodable(value) then None
    else if value == NULL then (if allowEmpty then Some([]) else None)
    else if d.kind in {SINGLE_CHOICE, SHORT_ANSWER} then
      match TextOf(value)
      case None => None
      case Some(raw) =>
        var answer := TrimSpace(raw);
        if answer == "" then (if allowEmpty then Some([]) else None)
        else if d.kind == SINGLE_CHOICE && answer !in d.options then None
        else Some([answer])
    else if d.kind == TRUE_FALSE then
      match value
      case Scalar(Bool(b)) => Some([if b then "true" else "false"])
      case _ => None
    else if d.kind in {MULTIPLE_CHOICE, FILL_BLANK} then
      match TextsOf(value)
      case None => None
      case Some(raw) =>
        var answers := Trim(raw);
        if d.kind == FILL_BLANK then
          if |answers| == d.blankCount && (allowEmpty || (answers != [] && "" !in answers)) then Some(answers) else None
        else if ChoiceSet(d, answers) && (allowEmpty || answers != []) && (allowEmpty || "" !in answers) then
          Some(SortedKeys(set a | a in answers))
        else None
    else None
  }

  /** Declared options, none chosen twice. */
  predicate ChoiceSet(d: Definition, answers: seq<string>) {
    && (forall a :: a in answers ==> a in d.options)
    && (forall i, j :: 0 <= i < j < |answers| ==> answers[i] != answers[j])
  }

  method HasOption(d: Definition, answer: string) returns (r: bool)
    ensures r <==> answer in d.options
  {
    for i := 0 to |d.options|
      invariant answer !in d.options[..i]
    {
      if answer == d.options[i] {
        return true;
      }
    }
    return false;
  }

  method Normalize(d: Definition, value: Json, allowEmpty: bool) returns (r: Option<seq<string>>)
    ensures r == Normal(d, value, allowEmpty)
  {
    if !Encodable(value) {
      return None;
    }
    if value == NULL {
      return if allowEmpty then Some([]) else None;
    }
    if d.kind == SINGLE_CHOICE || d.kind == SHORT_ANSWER {
      var raw := TextOf(value);
      if raw.None? {
        return None;
      }
      var answer := TrimSpace(raw.value);
      if answer == "" {
        return if allowEmpty then Some([]) else None;
      }
      var known := HasOption(d, answer);
      if d.kind == SINGLE_CHOICE && !known {
        return None;
      }
      r := Some([answer]);
    } else if d.kind == TRUE_FALSE {
      match value
      case Scalar(Bool(b)) => r := Some([if b then "true" else "false"]);
      case _ => r := None;
    } else if d.kind == MULTIPLE_CHOICE || d.kind == FILL_BLANK {
      var raw := TextsOf(value);
      if raw.None? {
        return None;
      }
      r := NormalizeList(d, raw.value, allowEmpty);
    } else {
      r := None;
    }
  }

  /** The text-array case: the decoded answers are overwritten by their trimmed forms, then sorted in place. */
  method NormalizeList(d: Definition, raw: seq<string>, allowEmpty: bool) returns (r: Option<seq<string>>)
    requires d.kind in {MULTIPLE_CHOICE, FILL_BLANK}
    ensures r ==
      var answers := Trim(raw);
      if d.kind == FILL_BLANK then
        if |answers| == d.blankCount && (allowEmpty || (answers != [] && "" !in answers)) then Some(answers) else None
      else if ChoiceSet(d, answers) && (allowEmpty || answers != []) && (allowEmpty || "" !in answers) then
        Some(SortedKeys(set a | a in answers))
      else None
  {
    hide TrimSpace, ChoiceSet;
    ghost var trimmed := Trim(raw);
    assert ChoiceSet(d, trimmed[..0]) by { NothingChosen(d, trimmed[..0]); }
    if d.kind == FILL_BLANK && |raw| != d.blankCount {
      return None;
    }
    if |raw| == 0 && !allowEmpty {
      return None;
    }
    var answers := new string[|raw|](i requires 0 <= i < |raw| => raw[i]);
    var seen: set<string> := {};
    for i := 0 to answers.Length
      invariant forall j :: 0 <= j < i ==> answers[j] == trimmed[j]
      invariant forall j :: i <= j < answers.Length ==> answers[j] == raw[j]
      invariant allowEmpty || "" !in trimmed[..i]
      invariant d.kind == MULTIPLE_CHOICE ==> seen == Elements(trimmed[..i]) && ChoiceSet(d, trimmed[..i])
    {
      var answer := TrimSpace(answers[i]);
      assert answer == trimmed[i];
      ChoiceStep(d, trimmed, i);
      assert trimmed[..i + 1] == trimmed[..i] + [answer];
      ElementsSnoc(trimmed[..i], answer);
      if answer == "" && !allowEmpty {
        return None;
      }
      if d.kind == MULTIPLE_CHOICE {
        var known := HasOption(d, answer);
        if !known || answer in seen {
          return None;
        }
        seen := seen + {answer};
      }
      answers[i] := answer;
    }
    assert trimmed[..answers.Length] == trimmed && answers[..] == trimmed;
    if d.kind == MULTIPLE_CHOICE {
      ChosenOnce(d, trimmed);
      SortSlice(answers, x => x);
      SortedDistinct(trimmed, answers[..]);
      StrictlySortedUnique(answers[..], SortedKeys(set a | a in trimmed));
    }
    r := Some(answers[..]);
  }

  lemma NothingChosen(d: Definition, answers: seq<string>)
    ensures answers == [] ==> ChoiceSet(d, answers)
  {
  }

  lemma ChosenOnce(d: Definition, answers: seq<string>)
    ensures ChoiceSet(d, answers) ==> NoDuplicates(answers)
  {
  }

  lemma ChoiceStep(d: Definition, answers: seq<string>, i: nat)
    requires i < |answers|
    ensures ChoiceSet(d, answers[..i + 1]) <==>
      ChoiceSet(d, answers[..i]) && answers[i] in d.options && answers[i] !in Elements(answers[..i])
    ensures ChoiceSet(d, answers) ==> ChoiceSet(d, answers[..i + 1])
  {
    var longer, shorter := answers[..i + 1], answers[..i];
    assert longer == shorter + [answers[i]];
    if ChoiceSet(d, longer) {
      assert forall j :: 0 <= j < i ==> longer[j] == shorter[j] != longer[i];
    }
  }

  /** Two accepted multiple-choice answers have equal normal forms exactly when they choose the same options. */
  lemma ChoiceCanonical(d: Definition, a: Json, b: Json, allowEmpty: bool)
    requires d.kind == MULTIPLE_CHOICE && Normal(d, a, allowEmpty).Some? && Normal(d, b, allowEmpty).Some?
    ensures TextsOf(a).Some? && TextsOf(b).Some?
    ensures Normal(d, a, allowEmpty) == Normal(d, b, allowEmpty) <==>
      Elements(Trim(TextsOf(a).value)) == Elements(Trim(TextsOf(b).value))
  {
  }

  lemma ChosenSet(d: Definition, a: Json, allowEmpty: bool)
    requires d.kind == MULTIPLE_CHOICE && Normal(d, a, allowEmpty).Some?
    ensures TextsOf(a).Some? && Normal(d, a, allowEmpty).value == SortedKeys(Elements(Trim(TextsOf(a).value)))
    ensures Elements(Normal(d, a, allowEmpty).value) == Elements(Trim(TextsOf(a).value))
  {
  }

  /** A normal form written back as an answer of its kind. */
  function Rewritten(kind: string, normal: seq<string>): Json {
    if normal == [] then NULL
    else if kind == TRUE_FALSE then Scalar(Bool(normal[0] == "true"))
    else if kind in {SINGLE_CHOICE, SHORT_ANSWER} then Scalar(Text(normal[0]))
    else TextArray(normal)
  }

  /** Normalising a normal form changes nothing. */
  lemma NormalizeTwice(d: Definition, value: Json, allowEmpty: bool)
    requires Normal(d, value, allowEmpty).Some?
    ensures Normal(d, Rewritten(d.kind, Normal(d, value, allowEmpty).value), allowEmpty) == Normal(d, value, allowEmpty)
  {
    if d.kind in {SINGLE_CHOICE, SHORT_ANSWER} {
      TextTwice(d, value, allowEmpty);
    } else if d.kind in {MULTIPLE_CHOICE, FILL_BLANK} && value != NULL && Normal(d, value, allowEmpty).value != [] {
      hide Normal;
      ListTwice(d, value, allowEmpty);
    } else {
      hide TrimSpace;
      if d.kind == MULTIPLE_CHOICE {
        ChosenSet(d, value, allowEmpty);
        NoElements(Trim(TextsOf(value).value));
      }
    }
  }

  /** A []string as an answer; an empty one is nil, which is encoded as null. */
  function ListValue(normal: seq<string>): Json {
    if normal == [] then NULL else TextArray(normal)
  }

  /**
   * Handed to Normalize as the list that it is, a normal form is its own normal form exactly for multiple choice, for
   * blanks and where nothing was answered; the other kinds refuse any list.
   */
  lemma ListFixedIff(d: Definition, value: Json, allowEmpty: bool)
    requires Normal(d, value, allowEmpty).Some?
    ensures
      var normal := Normal(d, value, allowEmpty).value;
      Normal(d, ListValue(normal), allowEmpty) == Some(normal) <==>
        normal == [] || d.kind in {MULTIPLE_CHOICE, FILL_BLANK}
  {
    var normal := Normal(d, value, allowEmpty).value;
    if normal == [] || d.kind in {MULTIPLE_CHOICE, FILL_BLANK} {
      NormalizeTwice(d, value, allowEmpty);
      assert ListValue(normal) == Rewritten(d.kind, normal);
    } else {
      assert TextArray(normal).Arr?;
    }
  }

  lemma NoElements(answers: seq<string>)
    ensures Elements(answers) == {} <==> answers == []
  {
    assert answers != [] ==> answers[0] in Elements(answers);
  }

  lemma TextTwice(d: Definition, value: Json, allowEmpty: bool)
    requires d.kind in {SINGLE_CHOICE, SHORT_ANSWER} && Normal(d, value, allowEmpty).Some?
    ensures Normal(d, Rewritten(d.kind, Normal(d, value, allowEmpty).value), allowEmpty) == Normal(d, value, allowEmpty)
  {
    hide TrimSpace, TextsOf;
    var normal := Normal(d, value, allowEmpty).value;
    if normal != [] {
      assert normal == [TrimSpace(TextOf(value).value)];
      TrimSpaceFixed(normal[0]);
    }
  }

  lemma ListTwice(d: Definition, value: Json, allowEmpty: bool)
    requires d.kind in {MULTIPLE_CHOICE, FILL_BLANK} && value != NULL
    requires Normal(d, value, allowEmpty).Some? && Normal(d, value, allowEmpty).value != []
    ensures Normal(d, TextArray(Normal(d, value, allowEmpty).value), allowEmpty) == Normal(d, value, allowEmpty)
  {
    hide TrimSpace;
    var answers := Trim(TextsOf(value).value);
    var normal := Normal(d, value, allowEmpty).value;
    assert forall x :: x in normal <==> x in answers by {
      if d.kind == MULTIPLE_CHOICE { ChosenSet(d, value, allowEmpty); }
      assert forall x :: x in normal <==> x in Elements(normal);
      assert forall x :: x in answers <==> x in Elements(answers);
    }
    forall i | 0 <= i < |normal| ensures TrimSpace(normal[i]) == normal[i] {
      assert normal[i] in answers;
      TrimSpaceFixed(normal[i]);
    }
    assert Trim(normal) == normal;
    assert (set a | a in normal) == (set a | a in answers);
  }
}
