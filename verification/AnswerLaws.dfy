/** What is accepted as a question and as an answer, and which answers count as the same, kind by kind. */
module AnswerLaws {
  import opened Json
  import opened Text
  import opened Sorting
  import opened Question

  /** True or false: exactly a boolean is an answer, and each has its own normal form. */
  lemma BooleanLaw(d: Definition, value: Json, allowEmpty: bool)
    requires d.kind == TRUE_FALSE
    ensures Normal(d, value, allowEmpty) == Some(["true"]) <==> value == Scalar(Bool(true))
    ensures Normal(d, value, allowEmpty) == Some(["false"]) <==> value == Scalar(Bool(false))
    ensures Normal(d, value, allowEmpty) == Some([]) <==> value == NULL && allowEmpty
    ensures Normal(d, value, allowEmpty).Some? ==> Normal(d, value, allowEmpty).value in {["true"], ["false"], []}
  {
    hide TextOf, TextsOf, TrimSpace;
    assert ["true"] != ["false"] by { assert ["true"][0] != ["false"][0]; }
  }

  /** Single choice and short answer: a text counts by what is left of it after trimming; a choice must be an option. */
  lemma TextLaw(d: Definition, value: Json, allowEmpty: bool, normal: seq<string>)
    requires d.kind in {SINGLE_CHOICE, SHORT_ANSWER}
    ensures Normal(d, value, allowEmpty) == Some(normal) <==>
      if normal == [] then
        allowEmpty && (value == NULL || (value.Scalar? && value.lit.Text? && TrimSpace(value.lit.s) == ""))
      else
        && value.Scalar? && value.lit.Text? && normal == [TrimSpace(value.lit.s)] && normal[0] != ""
        && (d.kind == SINGLE_CHOICE ==> normal[0] in d.options)
  {
    hide TextsOf, TrimSpace;
  }

  /** Blanks: one text for each, trimmed and in order. */
  lemma BlanksLaw(d: Definition, value: Json, allowEmpty: bool, normal: seq<string>)
    requires d.kind == FILL_BLANK
    ensures Normal(d, value, allowEmpty) == Some(normal) <==>
      if value == NULL then allowEmpty && normal == []
      else
        && Texts(value) && |normal| == |value.items| == d.blankCount
        && (forall i :: 0 <= i < |normal| ==> normal[i] == TrimmedText(value.items[i]))
        && (allowEmpty || (normal != [] && forall i :: 0 <= i < |normal| ==> normal[i] != ""))
  {
    hide TrimSpace;
    TextsIff(value);
    if Texts(value) {
      assert normal == Trim(TextsOf(value).value) <==>
        |normal| == |value.items| && forall i :: 0 <= i < |normal| ==> normal[i] == TrimmedText(value.items[i]);
    }
  }

  /** A JSON array of texts and nulls. */
  predicate Texts(value: Json) {
    value.Arr?
    && forall i :: 0 <= i < |value.items| ==>
         value.items[i].Scalar? && (value.items[i].lit.Text? || value.items[i] == NULL)
  }

  /** A null element keeps the empty text. */
  function TrimmedText(item: Json): string {
    if item.Scalar? && item.lit.Text? then TrimSpace(item.lit.s) else ""
  }

  lemma TextsIff(value: Json)
    ensures Encodable(value) && value != NULL && TextsOf(value).Some? <==> Texts(value)
    ensures Texts(value) ==>
      |TextsOf(value).value| == |value.items|
      && forall i :: 0 <= i < |value.items| ==> TrimSpace(TextsOf(value).value[i]) == TrimmedText(value.items[i])
  {
    hide TrimSpace;
    EmptyTrimmed();
    if Texts(value) {
      assert forall i :: 0 <= i < |value.items| ==> TextOf(value.items[i]).Some? && Encodable(value.items[i]);
    } else if value.Arr? {
      var i :| 0 <= i < |value.items|
        && !(value.items[i].Scalar? && (value.items[i].lit.Text? || value.items[i] == NULL));
      assert TextOf(value.items[i]).None?;
    }
  }

  lemma EmptyTrimmed()
    ensures TrimSpace("") == ""
  {
  }

  /** Multiple choice: declared options, none twice, whatever the order; the normal form is their sorted list. */
  lemma ChoicesLaw(d: Definition, value: Json, allowEmpty: bool, normal: seq<string>)
    requires d.kind == MULTIPLE_CHOICE
    ensures Normal(d, value, allowEmpty) == Some(normal) <==>
      if value == NULL then allowEmpty && normal == []
      else
        && Texts(value)
        && (forall i, j :: 0 <= i < j < |value.items| ==> TrimmedText(value.items[i]) != TrimmedText(value.items[j]))
        && (forall i :: 0 <= i < |value.items| ==> TrimmedText(value.items[i]) in d.options)
        && (allowEmpty ||
              (value.items != [] && forall i :: 0 <= i < |value.items| ==> TrimmedText(value.items[i]) != ""))
        && StrictlySorted(normal)
        && (forall x :: x in normal <==> exists i :: 0 <= i < |value.items| && TrimmedText(value.items[i]) == x)
  {
    hide TrimSpace, TrimmedText;
    TextsIff(value);
    if Texts(value) {
      var answers := Trim(TextsOf(value).value);
      assert |answers| == |value.items| && forall i :: 0 <= i < |answers| ==> answers[i] == TrimmedText(value.items[i]);
      StrictlyIff(normal, answers);
      ChoiceSetIff(d, answers);
      hide Texts, TextsOf, ChoiceSet, StrictlySorted;
      assert (exists i :: 0 <= i < |answers| && answers[i] == "") <==> "" in answers;
    }
  }

  lemma ChoiceSetIff(d: Definition, answers: seq<string>)
    ensures ChoiceSet(d, answers) <==>
      && (forall i, j :: 0 <= i < j < |answers| ==> answers[i] != answers[j])
      && (forall i :: 0 <= i < |answers| ==> answers[i] in d.options)
  {
  }

  lemma StrictlyIff(normal: seq<string>, answers: seq<string>)
    ensures normal == SortedKeys(set a | a in answers) <==>
      StrictlySorted(normal) && forall x :: x in normal <==> exists i :: 0 <= i < |answers| && answers[i] == x
  {
    var sorted := SortedKeys(set a | a in answers);
    assert Elements(sorted) == set a | a in answers;
    assert forall x :: x in sorted <==> x in Elements(sorted);
    if StrictlySorted(normal) && forall x :: x in normal <==> exists i :: 0 <= i < |answers| && answers[i] == x {
      assert Elements(normal) == Elements(sorted);
      StrictlySortedUnique(normal, sorted);
    }
  }

  /** A question of any other kind has no answers but the missing one. */
  lemma OtherKindsLaw(d: Definition, value: Json, allowEmpty: bool)
    requires d.kind !in {SINGLE_CHOICE, MULTIPLE_CHOICE, TRUE_FALSE, FILL_BLANK, SHORT_ANSWER}
    ensures Normal(d, value, allowEmpty).Some? <==> value == NULL && allowEmpty
  {
    hide TextOf, TextsOf, TrimSpace;
  }

  // ---- which of two accepted answers count as the same ----

  lemma SameTruthIff(d: Definition, a: Json, b: Json, allowEmpty: bool)
    requires d.kind == TRUE_FALSE && Normal(d, a, allowEmpty).Some? && Normal(d, b, allowEmpty).Some?
    ensures Normal(d, a, allowEmpty) == Normal(d, b, allowEmpty) <==> a == b
  {
    BooleanLaw(d, a, allowEmpty);
    BooleanLaw(d, b, allowEmpty);
    hide Normal;
  }

  lemma SameTextIff(d: Definition, a: Json, b: Json, allowEmpty: bool)
    requires d.kind in {SINGLE_CHOICE, SHORT_ANSWER} && a != NULL && b != NULL
    requires Normal(d, a, allowEmpty).Some? && Normal(d, b, allowEmpty).Some?
    ensures a.Scalar? && a.lit.Text? && b.Scalar? && b.lit.Text?
    ensures Normal(d, a, allowEmpty) == Normal(d, b, allowEmpty) <==> TrimSpace(a.lit.s) == TrimSpace(b.lit.s)
  {
    TextLaw(d, a, allowEmpty, Normal(d, a, allowEmpty).value);
    TextLaw(d, b, allowEmpty, Normal(d, b, allowEmpty).value);
    hide Normal, TrimSpace;
  }

  lemma SameBlanksIff(d: Definition, a: Json, b: Json, allowEmpty: bool)
    requires d.kind == FILL_BLANK && a != NULL && b != NULL
    requires Normal(d, a, allowEmpty).Some? && Normal(d, b, allowEmpty).Some?
    ensures a.Arr? && b.Arr? && |a.items| == |b.items| == d.blankCount
    ensures Normal(d, a, allowEmpty) == Normal(d, b, allowEmpty) <==>
      forall i :: 0 <= i < |a.items| ==> TrimmedText(a.items[i]) == TrimmedText(b.items[i])
  {
    var x, y := Normal(d, a, allowEmpty).value, Normal(d, b, allowEmpty).value;
    BlanksLaw(d, a, allowEmpty, x);
    BlanksLaw(d, b, allowEmpty, y);
    hide Normal, TrimSpace, TrimmedText;
    assert x == y <==> forall i :: 0 <= i < |x| ==> x[i] == y[i];
  }

  lemma SameChoicesIff(d: Definition, a: Json, b: Json, allowEmpty: bool)
    requires d.kind == MULTIPLE_CHOICE && a != NULL && b != NULL
    requires Normal(d, a, allowEmpty).Some? && Normal(d, b, allowEmpty).Some?
    ensures a.Arr? && b.Arr?
    ensures Normal(d, a, allowEmpty) == Normal(d, b, allowEmpty) <==>
      (set i | 0 <= i < |a.items| :: TrimmedText(a.items[i])) == (set i | 0 <= i < |b.items| :: TrimmedText(b.items[i]))
  {
    var x, y := Normal(d, a, allowEmpty).value, Normal(d, b, allowEmpty).value;
    ChoicesLaw(d, a, allowEmpty, x);
    ChoicesLaw(d, b, allowEmpty, y);
    hide Normal, TrimSpace, TrimmedText;
    SameSets(a, b, x, y);
  }

  lemma SameSets(a: Json, b: Json, x: seq<string>, y: seq<string>)
    requires Texts(a) && Texts(b) && StrictlySorted(x) && StrictlySorted(y)
    requires forall s :: s in x <==> exists i :: 0 <= i < |a.items| && TrimmedText(a.items[i]) == s
    requires forall s :: s in y <==> exists i :: 0 <= i < |b.items| && TrimmedText(b.items[i]) == s
    ensures x == y <==>
      (set i | 0 <= i < |a.items| :: TrimmedText(a.items[i])) == (set i | 0 <= i < |b.items| :: TrimmedText(b.items[i]))
  {
    assert a.Arr? && b.Arr?;
    hide TrimmedText, Texts, StrictlySorted;
    StrictlySortedUnique(x, y);
    assert Elements(x) == set i | 0 <= i < |a.items| :: TrimmedText(a.items[i]);
    assert Elements(y) == set i | 0 <= i < |b.items| :: TrimmedText(b.items[i]);
  }

  // ---- questions ----

  /** What Decode accepts and yields, field by field; nothing else is accepted. */
  lemma DecodedIff(body: map<string, Json>, requireAnswer: bool, d: Definition)
    ensures Decoded(body, requireAnswer) == Some(d) <==>
      && Encodable(Obj(body))
      && TextOf(Field(body, "q_type")) == Some(d.kind) && TextsOf(Field(body, "options")) == Some(d.options)
      && IntOf(Field(body, "blank_count"), 0x8000_0000_0000_0000) == Some(d.blankCount)
      && IntOf(Field(body, "max_score"), 0x8000_0000) == Some(d.maxScore) && d.answer == Field(body, "answer")
      && d.maxScore > 0
      && (|| (d.kind in {"single_choice", "multiple_choice"} && OptionsSpelt(d.options) && d.blankCount == 0)
          || (d.kind == "fill_blank" && d.options == [] && d.blankCount > 0)
          || (d.kind in {"true_false", "short_answer"} && d.options == [] && d.blankCount == 0))
      && (requireAnswer ==> d.answer != NULL && Normal(d, d.answer, false).Some?)
  {
    assert Normal(d, NULL, false).None?;
    OptionsIff(Field(body, "options"));
    hide Normal, Encodable, TextOf, TextsOf, IntOf, Field, GoodOptions, OptionsSpelt;
  }

  /** Two options or more, none of them blank or padded, none twice. */
  predicate OptionsSpelt(options: seq<string>) {
    && |options| >= 2
    && (forall i :: 0 <= i < |options| ==> options[i] != "" && TrimSpace(options[i]) == options[i])
    && (forall i, j :: 0 <= i < j < |options| ==> options[i] != options[j])
  }

  lemma OptionsIff(j: Json)
    ensures TextsOf(j).Some? ==> (GoodOptions(TextsOf(j).value) <==> OptionsSpelt(TextsOf(j).value))
  {
    if TextsOf(j).Some? {
      var options := TextsOf(j).value;
      forall i | 0 <= i < |options|
        ensures GoodOption(options[i]) <==> options[i] != "" && TrimSpace(options[i]) == options[i]
      {
        OptionTest(options[i]);
      }
      hide TextsOf, GoodOption, TrimSpace;
    }
  }

  /** A face shows the kind, the score, the options and the number of blanks, and never an answer. */
  lemma FaceShows(d: Definition)
    ensures Face(d).Keys <= {"q_type", "max_score", "options", "blank_count"}
    ensures Face(d)["q_type"] == Scalar(Text(d.kind)) && Face(d)["max_score"] == Scalar(Num(FormatInt(d.maxScore)))
    ensures "options" in Face(d) <==> d.options != []
    ensures "options" in Face(d) ==> TextsOf(Face(d)["options"]) == Some(d.options)
    ensures "blank_count" in Face(d) <==> d.blankCount > 0
    ensures "blank_count" in Face(d) ==> Face(d)["blank_count"] == Scalar(Num(FormatInt(d.blankCount)))
  {
    hide FormatInt, TextsOf;
  }
}
