/** Normalised tag lists and the preimage of a version hash. */
module Tags {
  import opened Json
  import opened Text
  import opened Sorting

  /** The non-empty strings of a list. */
  function NonEmpty(values: seq<string>): set<string> {
    set v | v in values && v != ""
  }

  /** The canonical list of a list of strings. */
  function Normalized(values: seq<string>): seq<string> {
    SortedKeys(NonEmpty(values))
  }

  /** normalizedStrings, whatever order the map of seen values is ranged over in. */
  method NormalizedStrings(values: seq<string>) returns (r: seq<string>)
    ensures r == Normalized(values)
  {
    var seen: set<string> := {};
    for i := 0 to |values|
      invariant seen == NonEmpty(values[..i])
    {
      assert values[..i + 1] == values[..i] + [values[i]];
      if values[i] != "" {
        seen := seen + {values[i]};
      }
    }
    assert values[..|values|] == values;
    var out: seq<string> := [];
    var todo := seen;
    while todo != {}
      invariant todo <= seen && Elements(out) == seen - todo && NoDuplicates(out)
      decreases todo
    {
      var value :| value in todo;
      ElementsSnoc(out, value);
      assert value !in Elements(out);
      out, todo := out + [value], todo - {value};
    }
    var a := new string[|out|](i requires 0 <= i < |out| => out[i]);
    assert a[..] == out;
    SortSlice(a, x => x);
    r := a[..];
    SortedDistinct(out, r);
    StrictlySortedUnique(r, Normalized(values));
  }

  /** Two lists normalise to the same list exactly when they have the same non-empty strings. */
  lemma NormalizedIff(a: seq<string>, b: seq<string>)
    ensures Normalized(a) == Normalized(b) <==> (forall v :: v != "" ==> (v in a <==> v in b))
  {
    StrictlySortedUnique(Normalized(a), Normalized(b));
    if NonEmpty(a) == NonEmpty(b) {
      forall v | v != "" ensures v in a <==> v in b {
        assert v in a <==> v in NonEmpty(a);
        assert v in b <==> v in NonEmpty(b);
      }
    }
  }

  datatype Item = Item(
    code: string, version: string, kind: int, title: string, categoryID: int, difficulty: int, tags: seq<string>,
    knowledgePoints: seq<string>, visibility: int)

  /** The payload that versionHash encodes and hashes. */
  datatype Payload = Payload(
    code: string, version: string, kind: int, title: string, categoryID: int, difficulty: int, tags: seq<string>,
    knowledgePoints: seq<string>, visibility: int, body: Json, sensitiveFields: seq<string>)

  method VersionPayload(item: Item, body: Json, sensitive: seq<string>) returns (p: Payload)
    ensures p == PayloadOf(item, body, sensitive)
  {
    var tags := NormalizedStrings(item.tags);
    var points := NormalizedStrings(item.knowledgePoints);
    var fields := NormalizedStrings(sensitive);
    p := Payload(
      item.code, item.version, item.kind, item.title, item.categoryID, item.difficulty, tags, points, item.visibility,
      body, fields);
  }

  function PayloadOf(item: Item, body: Json, sensitive: seq<string>): Payload {
    Payload(
      item.code, item.version, item.kind, item.title, item.categoryID, item.difficulty, Normalized(item.tags),
      Normalized(item.knowledgePoints), item.visibility, body, Normalized(sensitive))
  }

  /** The normal form of a list: its non-empty strings, each once and in increasing order. */
  lemma NormalizedMeaning(values: seq<string>)
    ensures forall v :: v in Normalized(values) <==> v in values && v != ""
    ensures forall i, j :: 0 <= i < j < |Normalized(values)| ==>
      StrLe(Normalized(values)[i], Normalized(values)[j]) && Normalized(values)[i] != Normalized(values)[j]
  {
    var r := Normalized(values);
    assert forall v :: v in r <==> v in Elements(r);
  }

  /** Every field of the payload is that of the item, the body or the sensitive fields under the same name. */
  lemma PayloadFields(item: Item, body: Json, sensitive: seq<string>)
    ensures var p := PayloadOf(item, body, sensitive);
      && p.code == item.code && p.version == item.version && p.kind == item.kind && p.title == item.title
      && p.categoryID == item.categoryID && p.difficulty == item.difficulty && p.visibility == item.visibility
      && p.body == body && (forall v :: v in p.tags <==> v in item.tags && v != "")
      && (forall v :: v in p.knowledgePoints <==> v in item.knowledgePoints && v != "")
      && (forall v :: v in p.sensitiveFields <==> v in sensitive && v != "")
      && StrictlySorted(p.tags) && StrictlySorted(p.knowledgePoints) && StrictlySorted(p.sensitiveFields)
  {
    NormalizedMeaning(item.tags);
    NormalizedMeaning(item.knowledgePoints);
    NormalizedMeaning(sensitive);
  }

  ghost predicate SameStrings(a: seq<string>, b: seq<string>) {
    forall v :: v != "" ==> (v in a <==> v in b)
  }

  /** The hashed payload ignores order, repetition and blanks in the three lists, and nothing else. */
  lemma PayloadIff(i1: Item, b1: Json, s1: seq<string>, i2: Item, b2: Json, s2: seq<string>)
    ensures PayloadOf(i1, b1, s1) == PayloadOf(i2, b2, s2) <==>
      && i1.(tags := [], knowledgePoints := []) == i2.(tags := [], knowledgePoints := []) && b1 == b2
      && SameStrings(i1.tags, i2.tags) && SameStrings(i1.knowledgePoints, i2.knowledgePoints) && SameStrings(s1, s2)
  {
    NormalizedIff(i1.tags, i2.tags);
    NormalizedIff(i1.knowledgePoints, i2.knowledgePoints);
    NormalizedIff(s1, s2);
  }
}
