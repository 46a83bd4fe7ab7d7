/** JSON values as the Go code sees them after encoding/json has decoded them. */
module Json {

  /** A scalar. Numbers keep their literal text; NotJson stands for a Go value that json.Marshal rejects. */
  datatype Lit = Null | Bool(b: bool) | Num(text: string) | Text(s: string) | NotJson

  datatype Json = Scalar(lit: Lit) | Arr(items: seq<Json>) | Obj(fields: map<string, Json>)

  /** A JSON document as text has it: the members of an object are in order and may repeat a name. */
  datatype Doc = DocScalar(lit: Lit) | DocArr(items: seq<Doc>) | DocObj(members: seq<Member>)

  datatype Member = Member(name: string, value: Doc)

  /** Every literal is one, and no object at any depth repeats a name. */
  predicate DuplicateFree(doc: Doc) {
    match doc
    case DocScalar(lit) => lit != NotJson
    case DocArr(items) => forall i :: 0 <= i < |items| ==> DuplicateFree(items[i])
    case DocObj(members) =>
      && (forall i :: 0 <= i < |members| ==> DuplicateFree(members[i].value))
      && (forall i, j :: 0 <= i < j < |members| ==> members[i].name != members[j].name)
  }

  /** json.Marshal succeeds. */
  predicate Encodable(j: Json) {
    match j
    case Scalar(lit) => lit != NotJson
    case Arr(items) => forall i :: 0 <= i < |items| ==> Encodable(items[i])
    case Obj(fields) => forall k :: k in fields ==> Encodable(fields[k])
  }

  const NULL := Scalar(Null)

  // ---- addressing ----

  datatype Step = Key(name: string) | Index(i: nat)

  /** What a node is, without its children. */
  datatype Shape = ScalarShape(lit: Lit) | ArrShape(length: nat) | ObjShape

  datatype Option<+T> = None | Some(value: T)

  function GetOr<T>(o: Option<T>, default: T): T {
    if o.None? then default else o.value
  }

  function ShapeOf(j: Json): Shape {
    match j
    case Scalar(lit) => ScalarShape(lit)
    case Arr(items) => ArrShape(|items|)
    case Obj(_) => ObjShape
  }

  /** The node that a path leads to, if there is one. */
  function At(j: Json, path: seq<Step>): Option<Shape> {
    if path == [] then Some(ShapeOf(j))
    else match j
      case Scalar(_) => None
      case Arr(items) =>
        if path[0].Index? && path[0].i < |items| then At(items[path[0].i], path[1..]) else None
      case Obj(fields) =>
        if path[0].Key? && path[0].name in fields then At(fields[path[0].name], path[1..]) else None
  }

  /** No path leads to anything foreign to JSON. */
  ghost predicate NothingForeign(j: Json) {
    forall path: seq<Step> :: At(j, path) != Some(ScalarShape(NotJson))
  }

  /** A value can be encoded exactly when nothing in it, however deep, is foreign to JSON. */
  lemma {:induction false} EncodableIff(j: Json)
    ensures Encodable(j) <==> NothingForeign(j)
    decreases j
  {
    match j
    case Scalar(lit) =>
      assert At(j, []) == Some(ScalarShape(lit));
    case Arr(items) =>
      ForeignInArray(items);
      hide NothingForeign;
      forall i | 0 <= i < |items| ensures Encodable(items[i]) <==> NothingForeign(items[i]) { EncodableIff(items[i]); }
    case Obj(fields) =>
      ForeignInObject(fields);
      hide NothingForeign;
      forall k | k in fields ensures Encodable(fields[k]) <==> NothingForeign(fields[k]) { EncodableIff(fields[k]); }
  }

  lemma ForeignInArray(items: seq<Json>)
    ensures NothingForeign(Arr(items)) <==> forall i :: 0 <= i < |items| ==> NothingForeign(items[i])
  {
    forall i, path: seq<Step> | 0 <= i < |items| ensures At(Arr(items), [Index(i)] + path) == At(items[i], path) {
      assert ([Index(i)] + path)[1..] == path;
    }
    if forall i :: 0 <= i < |items| ==> NothingForeign(items[i]) {
      forall path: seq<Step> ensures At(Arr(items), path) != Some(ScalarShape(NotJson)) {
        if path != [] && path[0].Index? && path[0].i < |items| {
          assert At(Arr(items), path) == At(items[path[0].i], path[1..]);
        }
      }
    }
  }

  lemma ForeignInObject(fields: map<string, Json>)
    ensures NothingForeign(Obj(fields)) <==> forall k :: k in fields ==> NothingForeign(fields[k])
  {
    forall k, path: seq<Step> | k in fields ensures At(Obj(fields), [Key(k)] + path) == At(fields[k], path) {
      assert ([Key(k)] + path)[1..] == path;
    }
    if forall k :: k in fields ==> NothingForeign(fields[k]) {
      forall path: seq<Step> ensures At(Obj(fields), path) != Some(ScalarShape(NotJson)) {
        if path != [] && path[0].Key? && path[0].name in fields {
          assert At(Obj(fields), path) == At(fields[path[0].name], path[1..]);
        }
      }
    }
  }

  /** sub is doc, or stands somewhere in it. */
  ghost predicate Within(sub: Doc, doc: Doc)
    decreases doc
  {
    sub == doc ||
    match doc
    case DocScalar(_) => false
    case DocArr(items) => exists i :: 0 <= i < |items| && Within(sub, items[i])
    case DocObj(members) => exists i :: 0 <= i < |members| && Within(sub, members[i].value)
  }

  /** Nothing in the document is foreign to JSON, and no object in it, however deep, has two members of one name. */
  lemma {:induction false} DuplicateFreeIff(doc: Doc)
    ensures DuplicateFree(doc) <==> forall sub :: Within(sub, doc) ==> Sound(sub)
    decreases doc
  {
    assert Within(doc, doc);
    match doc
    case DocScalar(_) =>
    case DocArr(items) =>
      forall i | 0 <= i < |items|
        ensures DuplicateFree(items[i]) <==> forall sub :: Within(sub, items[i]) ==> Sound(sub)
      {
        DuplicateFreeIff(items[i]);
      }
      assert forall i, sub :: 0 <= i < |items| && Within(sub, items[i]) ==> Within(sub, doc);
    case DocObj(members) =>
      forall i | 0 <= i < |members|
        ensures DuplicateFree(members[i].value) <==> forall sub :: Within(sub, members[i].value) ==> Sound(sub)
      {
        DuplicateFreeIff(members[i].value);
      }
      assert forall i, sub :: 0 <= i < |members| && Within(sub, members[i].value) ==> Within(sub, doc);
  }

  /** Not foreign itself, and if an object without a repeated name. */
  ghost predicate Sound(sub: Doc) {
    && sub != DocScalar(NotJson)
    && (sub.DocObj? ==> forall i, j :: 0 <= i < j < |sub.members| ==> sub.members[i].name != sub.members[j].name)
  }

  /** A value is determined by the shapes found along all paths. */
  lemma {:induction false} Extensional(a: Json, b: Json)
    requires forall path :: At(a, path) == At(b, path)
    ensures a == b
    decreases a
  {
    assert At(a, []) == At(b, []);
    match a
    case Scalar(_) =>
    case Arr(items) =>
      forall i | 0 <= i < |items| ensures items[i] == b.items[i] {
        forall path ensures At(items[i], path) == At(b.items[i], path) {
          assert ([Index(i)] + path)[1..] == path;
          assert At(a, [Index(i)] + path) == At(b, [Index(i)] + path);
        }
        Extensional(items[i], b.items[i]);
      }
    case Obj(fields) =>
      forall k ensures k in fields <==> k in b.fields {
        assert [Key(k)][1..] == [];
        assert At(a, [Key(k)]) == At(b, [Key(k)]);
      }
      forall k | k in fields ensures fields[k] == b.fields[k] {
        forall path ensures At(fields[k], path) == At(b.fields[k], path) {
          assert ([Key(k)] + path)[1..] == path;
          assert At(a, [Key(k)] + path) == At(b, [Key(k)] + path);
        }
        Extensional(fields[k], b.fields[k]);
      }
  }
}
