/** Canonical form of JSON that is embedded in a composition snapshot. */
module CanonicalJson {
  import opened Json
  import opened Sorting
  import opened Text

  /** json.Decoder with UseNumber into an any: the last member of a name wins, literals keep their text. */
  function Tree(doc: Doc): Json
    decreases doc
  {
    match doc
    case DocScalar(lit) => Scalar(lit)
    case DocArr(items) => Arr(seq(|items|, i requires 0 <= i < |items| => Tree(items[i])))
    case DocObj(members) => Obj(Fields(members))
  }

  function Fields(members: seq<Member>): map<string, Json>
    decreases members
  {
    if members == [] then map[]
    else
      var last := members[|members| - 1];
      Fields(members[..|members| - 1])[last.name := Tree(last.value)]
  }

  /** json.Marshal of a decoded value: object keys in increasing order. */
  function Encode(j: Json): Doc
    decreases j
  {
    match j
    case Scalar(lit) => DocScalar(lit)
    case Arr(items) => DocArr(seq(|items|, i requires 0 <= i < |items| => Encode(items[i])))
    case Obj(fields) =>
      var keys := SortedKeys(fields.Keys);
      assert forall i :: 0 <= i < |keys| ==> keys[i] in Elements(keys);
      DocObj(seq(|keys|, i requires 0 <= i < |keys| => Member(keys[i], Encode(fields[keys[i]]))))
  }

  function Canon(doc: Doc): Doc {
    Encode(Tree(doc))
  }

  ghost predicate DistinctNames(members: seq<Member>) {
    forall i, j :: 0 <= i < j < |members| ==> members[i].name != members[j].name
  }

  /** Without repeated names every member is found, and nothing else. */
  lemma {:induction false} FieldsMeaning(members: seq<Member>)
    requires DistinctNames(members)
    ensures forall n :: n in Fields(members) ==> exists i :: 0 <= i < |members| && members[i].name == n
    ensures forall i :: 0 <= i < |members| ==>
      members[i].name in Fields(members) && Fields(members)[members[i].name] == Tree(members[i].value)
    decreases |members|
  {
    if members != [] {
      var init, last := members[..|members| - 1], members[|members| - 1];
      assert Fields(members) == Fields(init)[last.name := Tree(last.value)];
      hide Fields, Tree;
      FieldsMeaning(init);
      assert forall i :: 0 <= i < |init| ==> init[i] == members[i];
    }
  }

  /** Of members that repeat a name the last one counts, and no other name is touched. */
  lemma LastMemberWins(members: seq<Member>, m: Member)
    ensures m.name in Fields(members + [m]) && Fields(members + [m])[m.name] == Tree(m.value)
    ensures forall n :: n != m.name ==>
      (n in Fields(members + [m]) <==> n in Fields(members))
      && (n in Fields(members) ==> Fields(members + [m])[n] == Fields(members)[n])
  {
    assert (members + [m])[..|members|] == members;
  }

  /** An object is encoded with its names in increasing order. */
  lemma EncodedInOrder(fields: map<string, Json>)
    ensures Encode(Obj(fields)).DocObj?
    ensures forall i, j :: 0 <= i < j < |Encode(Obj(fields)).members| ==>
      var a, b := Encode(Obj(fields)).members[i].name, Encode(Obj(fields)).members[j].name;
      StrLe(a, b) && a != b
  {
    var members := Encode(Obj(fields)).members;
    var keys := SortedKeys(fields.Keys);
    assert forall i :: 0 <= i < |members| ==> members[i].name == keys[i];
  }

  /** Decoding what was encoded gives the value back. */
  lemma {:induction false} TreeOfEncode(j: Json)
    ensures Tree(Encode(j)) == j
    decreases j
  {
    match j
    case Scalar(_) =>
    case Arr(items) =>
      forall i | 0 <= i < |items| ensures Tree(Encode(items[i])) == items[i] { TreeOfEncode(items[i]); }
    case Obj(fields) =>
      forall k | k in fields ensures Tree(Encode(fields[k])) == fields[k] { TreeOfEncode(fields[k]); }
      var members := Encode(j).members;
      EncodedMembers(fields, members);
  }

  lemma EncodedMembers(fields: map<string, Json>, members: seq<Member>)
    requires DocObj(members) == Encode(Obj(fields))
    requires forall k :: k in fields ==> Tree(Encode(fields[k])) == fields[k]
    ensures Fields(members) == fields
  {
    var keys := SortedKeys(fields.Keys);
    assert |members| == |keys|;
    forall i | 0 <= i < |members|
      ensures members[i].name == keys[i] && keys[i] in fields && Tree(members[i].value) == fields[keys[i]]
    {
      assert keys[i] in Elements(keys);
    }
    hide Encode, Tree, Fields, SortedKeys;
    FieldsMeaning(members);
    forall k | k in fields ensures k in Fields(members) && Fields(members)[k] == fields[k] {
      assert k in Elements(keys);
      var i :| 0 <= i < |keys| && keys[i] == k;
      assert members[i].name == k;
    }
  }

  /** Canonical forms are equal exactly when the decoded values are. */
  lemma CanonIff(a: Doc, b: Doc)
    ensures Canon(a) == Canon(b) <==> Tree(a) == Tree(b)
  {
    TreeOfEncode(Tree(a));
    TreeOfEncode(Tree(b));
  }

  /** Canonicalising twice changes nothing. */
  lemma CanonTwice(doc: Doc)
    ensures Canon(Canon(doc)) == Canon(doc)
  {
    TreeOfEncode(Tree(doc));
  }

  /** p and q are inverse permutations of the first n positions. */
  ghost predicate Permutation(p: seq<nat>, q: seq<nat>, n: nat) {
    && |p| == |q| == n
    && forall i :: 0 <= i < n ==> p[i] < n && q[i] < n && q[p[i]] == i && p[q[i]] == i
  }

  /** b is a with the members of its objects reordered, at any depth. */
  ghost predicate Reordered(a: Doc, b: Doc)
    decreases a, 1
  {
    match a
    case DocScalar(_) => a == b
    case DocArr(items) =>
      b.DocArr? && |items| == |b.items| && forall i :: 0 <= i < |items| ==> Reordered(items[i], b.items[i])
    case DocObj(members) =>
      b.DocObj? && exists p, q :: Permutation(p, q, |members|) && MembersMoved(members, b.members, p)
  }

  /** Member i has moved to position p[i], its value reordered. */
  ghost predicate MembersMoved(a: seq<Member>, b: seq<Member>, p: seq<nat>)
    decreases a, 0
  {
    && |a| == |b| == |p| && (forall i :: 0 <= i < |a| ==> p[i] < |b|)
    && forall i :: 0 <= i < |a| ==> a[i].name == b[p[i]].name && Reordered(a[i].value, b[p[i]].value)
  }

  /** Reordering the members of objects that repeat no name leaves the decoded value and the canonical form alone. */
  lemma {:induction false} CanonIgnoresOrder(a: Doc, b: Doc)
    requires DuplicateFree(a) && Reordered(a, b)
    ensures Tree(a) == Tree(b) && Canon(a) == Canon(b)
    decreases a
  {
    match a
    case DocScalar(_) =>
    case DocArr(items) =>
      forall i | 0 <= i < |items| ensures Tree(items[i]) == Tree(b.items[i]) {
        CanonIgnoresOrder(items[i], b.items[i]);
      }
    case DocObj(members) =>
      var p, q :| Permutation(p, q, |members|) && MembersMoved(members, b.members, p);
      forall i | 0 <= i < |members| ensures Tree(members[i].value) == Tree(b.members[p[i]].value) {
        CanonIgnoresOrder(members[i].value, b.members[p[i]].value);
      }
      SameFields(members, b.members, p, q);
  }

  lemma SameFields(a: seq<Member>, b: seq<Member>, p: seq<nat>, q: seq<nat>)
    requires |a| == |b| && Permutation(p, q, |a|) && DistinctNames(a)
    requires forall i :: 0 <= i < |a| ==> a[i].name == b[p[i]].name && Tree(a[i].value) == Tree(b[p[i]].value)
    ensures Fields(a) == Fields(b)
  {
    hide Fields, Tree;
    forall j | 0 <= j < |b| ensures b[j].name == a[q[j]].name && Tree(b[j].value) == Tree(a[q[j]].value) {
      assert p[q[j]] == j && a[q[j]].name == b[p[q[j]]].name;
    }
    forall i, j | 0 <= i < j < |b| ensures b[i].name != b[j].name {
      assert q[i] != q[j] by { assert p[q[i]] == i && p[q[j]] == j; }
    }
    FieldsWithin(a, b, p);
    FieldsWithin(b, a, q);
  }

  lemma FieldsWithin(a: seq<Member>, b: seq<Member>, p: seq<nat>)
    requires |p| == |a| && DistinctNames(a) && DistinctNames(b)
    requires forall i :: 0 <= i < |a| ==>
      p[i] < |b| && a[i].name == b[p[i]].name && Tree(a[i].value) == Tree(b[p[i]].value)
    ensures forall n :: n in Fields(a) ==> n in Fields(b) && Fields(a)[n] == Fields(b)[n]
  {
    hide Fields, Tree;
    FieldsMeaning(a);
    FieldsMeaning(b);
    forall n | n in Fields(a) ensures n in Fields(b) && Fields(a)[n] == Fields(b)[n] {
      var i :| 0 <= i < |a| && a[i].name == n;
      assert b[p[i]].name == n;
    }
  }

  // ---- canonicalRawJSON ----

  /** Raw bytes, by what the decoder makes of them. */
  datatype RawJson = NoBytes | Whitespace | Broken | SeveralDocuments | Document(doc: Doc)

  /** The canonical bytes; None where canonicalRawJSON returns an error. Nothing but spaces becomes nil. */
  function CanonicalRaw(raw: RawJson): Option<RawJson> {
    match raw
    case NoBytes => Some(NoBytes)
    case Whitespace => Some(NoBytes)
    case Broken => None
    case SeveralDocuments => None
    case Document(doc) => Some(Document(Canon(doc)))
  }

  /** The value that raw bytes hold; None for blank ones. */
  function Meant(raw: RawJson): Option<Json> {
    if raw.Document? then Some(Tree(raw.doc)) else None
  }

  /** Exactly blank bytes and single documents are accepted; the result is canonical and means the same. */
  lemma CanonicalRawMeaning(raw: RawJson)
    ensures CanonicalRaw(raw).Some? <==> raw.NoBytes? || raw.Whitespace? || raw.Document?
    ensures CanonicalRaw(raw).Some? ==>
      var canonical := CanonicalRaw(raw).value;
      && Meant(canonical) == Meant(raw) && CanonicalRaw(canonical) == Some(canonical)
      && canonical == if Meant(raw).Some? then Document(Encode(Meant(raw).value)) else NoBytes
  {
    if raw.Document? {
      CanonTwice(raw.doc);
      TreeOfEncode(Tree(raw.doc));
    }
  }

  /** Canonical bytes are canonical already. */
  lemma CanonicalRawTwice(raw: RawJson)
    requires CanonicalRaw(raw).Some?
    ensures CanonicalRaw(CanonicalRaw(raw).value) == CanonicalRaw(raw)
  {
    if raw.Document? { CanonTwice(raw.doc); }
  }
}
