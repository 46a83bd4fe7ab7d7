/** In-place deletion of sensitive fields from a cloned question body. */
module FaceStripping {
  import opened Json
  import opened Text
  import opened FacePaths
  import Sets

  /** A decoded JSON object: a Go map, shared by reference. */
  class MapNode {
    var fields: map<string, Value>

    constructor (fields: map<string, Value>)
      ensures this.fields == fields
    {
      this.fields := fields;
    }
  }

  /** A Go value of type any inside a body. */
  datatype Value = LitValue(lit: Lit) | ArrValue(items: seq<Value>) | MapValue(node: MapNode)

  /** The tree of map nodes below a value. */
  datatype Tree = LitTree(lit: Lit) | ArrTree(items: seq<Tree>) | MapTree(node: MapNode, kids: map<string, Tree>)

  /** The subtrees that are maps. */
  ghost function Maps(t: Tree): (ms: set<Tree>)
    ensures forall m :: m in ms ==> m.MapTree?
  {
    match t
    case LitTree(_) => {}
    case ArrTree(items) => set i, m | 0 <= i < |items| && m in Maps(items[i]) :: m
    case MapTree(_, kids) => {t} + set k, m | k in kids && m in Maps(kids[k]) :: m
  }

  ghost function Footprint(t: Tree): set<MapNode> {
    set m | m in Maps(t) :: m.node
  }

  ghost function ValueOf(t: Tree): Value {
    match t
    case LitTree(lit) => LitValue(lit)
    case ArrTree(items) => ArrValue(seq(|items|, i requires 0 <= i < |items| => ValueOf(items[i])))
    case MapTree(node, _) => MapValue(node)
  }

  ghost function FieldsOf(t: Tree): map<string, Value>
    requires t.MapTree?
  {
    map k | k in t.kids :: ValueOf(t.kids[k])
  }

  /** The heap holds what the tree says. */
  ghost predicate Stored(t: Tree)
    reads Footprint(t)
  {
    forall m :: m in Maps(t) ==> m.node.fields == FieldsOf(m)
  }

  /** The heap holds what the tree says about every other node than these. */
  ghost predicate StoredOutside(t: Tree, nodes: set<MapNode>)
    reads Footprint(t) - nodes
  {
    forall m :: m in Maps(t) && m.node !in nodes ==> m.node.fields == FieldsOf(m)
  }

  /** No map node is reachable twice, so the value really is a tree. */
  ghost predicate Unshared(t: Tree) {
    match t
    case LitTree(_) => true
    case ArrTree(items) =>
      && (forall i :: 0 <= i < |items| ==> Unshared(items[i]))
      && (forall i, j :: 0 <= i < |items| && 0 <= j < |items| && i != j ==> Footprint(items[i]) !! Footprint(items[j]))
    case MapTree(node, kids) =>
      && (forall k :: k in kids ==> Unshared(kids[k]) && node !in Footprint(kids[k]))
      && (forall k, l :: k in kids && l in kids && k != l ==> Footprint(kids[k]) !! Footprint(kids[l]))
  }

  // ---- replacing one child ----

  lemma ItemPart(t: Tree, i: nat)
    requires t.ArrTree? && i < |t.items| && Unshared(t)
    ensures Unshared(t.items[i]) && Footprint(t.items[i]) <= Footprint(t)
    ensures |Footprint(t.items[i])| <= |Footprint(t)|
    ensures Stored(t) ==> Stored(t.items[i]) && StoredOutside(t, Footprint(t.items[i]))
  {
    assert Maps(t.items[i]) <= Maps(t);
    Sets.SubsetCard(Footprint(t.items[i]), Footprint(t));
  }

  lemma Top(t: Tree)
    requires t.MapTree?
    ensures t.node in Footprint(t) && (Stored(t) ==> t.node.fields == FieldsOf(t))
  {
  }

  lemma WholeOutside(t: Tree)
    requires t.MapTree? && Stored(t)
    ensures StoredOutside(t, {t.node})
  {
  }

  lemma KidPart(t: Tree, k: string)
    requires t.MapTree? && k in t.kids && Unshared(t)
    ensures Unshared(t.kids[k]) && Footprint(t.kids[k]) <= Footprint(t) - {t.node}
    ensures |Footprint(t.kids[k])| < |Footprint(t)|
    ensures Stored(t) ==> Stored(t.kids[k]) && StoredOutside(t, Footprint(t.kids[k]))
  {
    assert t in Maps(t);
    assert Maps(t.kids[k]) <= Maps(t);
    Sets.SubsetCard(Footprint(t.kids[k]) + {t.node}, Footprint(t));
  }

  lemma ReplaceItem(t: Tree, i: nat, kid: Tree)
    requires t.ArrTree? && i < |t.items| && Unshared(t)
    requires Unshared(kid) && Footprint(kid) <= Footprint(t.items[i]) && ValueOf(kid) == ValueOf(t.items[i])
    ensures var r := ArrTree(t.items[i := kid]);
      Unshared(r) && Footprint(r) <= Footprint(t) && ValueOf(r) == ValueOf(t)
  {
    var r := ArrTree(t.items[i := kid]);
    forall j | 0 <= j < |r.items| ensures Footprint(r.items[j]) <= Footprint(t.items[j]) <= Footprint(t) {
      ItemPart(t, j);
    }
    forall n | n in Footprint(r) ensures n in Footprint(t) {
      var m :| m in Maps(r) && m.node == n;
      var j :| 0 <= j < |r.items| && m in Maps(r.items[j]);
      assert n in Footprint(r.items[j]);
    }
  }

  lemma ReplaceKid(t: Tree, k: string, kid: Tree)
    requires t.MapTree? && k in t.kids && Unshared(t)
    requires Unshared(kid) && Footprint(kid) <= Footprint(t.kids[k]) && ValueOf(kid) == ValueOf(t.kids[k])
    ensures var r := MapTree(t.node, t.kids[k := kid]);
      Unshared(r) && Footprint(r) <= Footprint(t) && FieldsOf(r) == FieldsOf(t)
  {
    hide Maps, ValueOf, Footprint;
    var r := MapTree(t.node, t.kids[k := kid]);
    forall l | l in r.kids ensures Footprint(r.kids[l]) <= Footprint(t) { KidPart(t, l); }
    SubFootprint(r, t);
    forall l | l in r.kids ensures Unshared(r.kids[l]) && t.node !in Footprint(r.kids[l]) {
      if l == k { assert t.node !in Footprint(t.kids[k]); }
    }
    forall l, m | l in r.kids && m in r.kids && l != m ensures Footprint(r.kids[l]) !! Footprint(r.kids[m]) {
      assert Footprint(t.kids[l]) !! Footprint(t.kids[m]);
    }
  }

  lemma RemoveKid(t: Tree, k: string)
    requires t.MapTree? && Unshared(t)
    ensures var r := MapTree(t.node, t.kids - {k});
      Unshared(r) && Footprint(r) <= Footprint(t) && FieldsOf(r) == FieldsOf(t) - {k}
  {
  }

  lemma SubFootprint(r: Tree, t: Tree)
    requires r.MapTree? && t.MapTree? && r.node == t.node
    requires forall l :: l in r.kids ==> Footprint(r.kids[l]) <= Footprint(t)
    ensures Footprint(r) <= Footprint(t)
  {
  }

  /** After deleting one key of the top node. */
  lemma StoredWithout(t: Tree, k: string)
    requires t.MapTree? && Unshared(t)
    requires t.node.fields == FieldsOf(t) - {k}
    requires StoredOutside(t, {t.node})
    ensures Stored(MapTree(t.node, t.kids - {k}))
  {
  }

  /** After rewriting the nodes below one child of a map. */
  lemma StoredWithKid(t: Tree, k: string, kid: Tree)
    requires t.MapTree? && k in t.kids && Unshared(t)
    requires Unshared(kid) && Footprint(kid) <= Footprint(t.kids[k]) && ValueOf(kid) == ValueOf(t.kids[k])
    requires Stored(kid) && StoredOutside(t, Footprint(t.kids[k]))
    ensures Stored(MapTree(t.node, t.kids[k := kid]))
  {
    var r := MapTree(t.node, t.kids[k := kid]);
    ReplaceKid(t, k, kid);
    hide ValueOf, FieldsOf, Unshared;
    assert t in Maps(t);
    forall m | m in Maps(r) ensures m.node.fields == FieldsOf(m) {
      if m != r {
        var l :| l in r.kids && m in Maps(r.kids[l]);
        if l != k {
          KidPart(t, l);
          assert m.node in Footprint(t.kids[l]);
        }
      }
    }
  }

  /** After rewriting the nodes below one element of an array. */
  lemma StoredWithItem(t: Tree, i: nat, kid: Tree)
    requires t.ArrTree? && i < |t.items| && Unshared(t)
    requires Stored(kid) && StoredOutside(t, Footprint(t.items[i]))
    ensures Stored(ArrTree(t.items[i := kid]))
  {
  }

  /** The JSON value that a tree of nodes represents. */
  ghost function Erase(t: Tree): Json {
    match t
    case LitTree(lit) => Scalar(lit)
    case ArrTree(items) => Arr(seq(|items|, i requires 0 <= i < |items| => Erase(items[i])))
    case MapTree(_, kids) => Obj(map k | k in kids :: Erase(kids[k]))
  }

  /** The JSON value has the literals, the elements and the keys of the tree, and forgets the nodes only. */
  lemma EraseMeaning(t: Tree)
    ensures t.LitTree? ==> Erase(t) == Scalar(t.lit)
    ensures t.ArrTree? ==>
      && Erase(t).Arr? && |Erase(t).items| == |t.items|
      && forall i :: 0 <= i < |t.items| ==> Erase(t).items[i] == Erase(t.items[i])
    ensures t.MapTree? ==>
      && Erase(t).Obj? && Erase(t).fields.Keys == t.kids.Keys
      && forall k :: k in t.kids ==> Erase(t).fields[k] == Erase(t.kids[k])
  {
  }

  /** deletePathParts: both recursive passes over the matched child, in whatever order the map is ranged over. */
  method DeletePathParts(v: Value, parts: seq<string>, ghost t: Tree) returns (ghost t': Tree)
    requires parts != [] && v == ValueOf(t) && Stored(t) && Unshared(t)
    modifies Footprint(t)
    ensures v == ValueOf(t') && Stored(t') && Unshared(t') && Footprint(t') <= Footprint(t)
    ensures Erase(t') == Prune(Erase(t), parts)
    decreases |Footprint(t)|, 1, t, 1
  {
    hide Maps, Footprint, Stored, StoredOutside, Unshared;
    match v
    case LitValue(_) =>
      t' := t;
    case ArrValue(items) =>
      t' := DeleteInItems(items, parts, t);
    case MapValue(node) =>
      Top(t);
      ghost var mid := t;
      if |parts| == 1 {
        WholeOutside(t);
        node.fields := node.fields - {parts[0]};
        RemoveKid(t, parts[0]);
        StoredWithout(t, parts[0]);
        mid := MapTree(node, t.kids - {parts[0]});
      } else if parts[0] in node.fields {
        mid := DeleteInChild(node, parts, t);
      }
      Sets.SubsetCard(Footprint(mid), Footprint(t));
      t' := DeleteInFields(node, parts, mid);
      PassesArePrune(Erase(t), Erase(mid), Erase(t'), parts);
  }

  /** The two passes together are one pruning. */
  lemma PassesArePrune(a: Json, mid: Json, b: Json, parts: seq<string>)
    requires parts != [] && a.Obj? && mid.Obj? && b.Obj?
    requires mid.fields.Keys == if |parts| == 1 then a.fields.Keys - {parts[0]} else a.fields.Keys
    requires forall k :: k in mid.fields ==>
      mid.fields[k] == if k == parts[0] then Prune(a.fields[k], parts[1..]) else a.fields[k]
    requires b.fields.Keys == mid.fields.Keys
    requires forall k :: k in mid.fields ==> b.fields[k] == Prune(mid.fields[k], parts)
    ensures b == Prune(a, parts)
  {
    PruneFields(a, parts);
    hide Prune;
    forall k | k in mid.fields ensures b.fields[k] == Prune(a, parts).fields[k] {
      if k == parts[0] { SecondPassIsNoOp(a.fields[k], parts); }
    }
    assert b.fields == Prune(a, parts).fields;
  }

  lemma PruneFields(a: Json, parts: seq<string>)
    requires parts != [] && a.Obj?
    ensures Prune(a, parts).Obj?
    ensures Prune(a, parts).fields.Keys == if |parts| == 1 then a.fields.Keys - {parts[0]} else a.fields.Keys
    ensures forall k :: k in Prune(a, parts).fields ==>
      Prune(a, parts).fields[k] == Prune(a.fields[k], if k == parts[0] then parts[1..] else parts)
  {
  }

  /** The first pass: the matched child, with the rest of the path. */
  method DeleteInChild(node: MapNode, parts: seq<string>, ghost t: Tree) returns (ghost t': Tree)
    requires |parts| > 1 && MapValue(node) == ValueOf(t) && Stored(t) && Unshared(t) && parts[0] in node.fields
    modifies Footprint(t)
    ensures MapValue(node) == ValueOf(t') && Stored(t') && Unshared(t') && Footprint(t') <= Footprint(t)
    ensures t'.kids.Keys == t.kids.Keys
    ensures forall k :: k in t.kids ==>
      Erase(t'.kids[k]) == if k == parts[0] then Prune(Erase(t.kids[k]), parts[1..]) else Erase(t.kids[k])
    decreases |Footprint(t)|, 0, t, 0
  {
    hide Maps, Footprint, Stored, StoredOutside, Unshared, Erase, Prune;
    Top(t);
    KidPart(t, parts[0]);
    assert allocated(Footprint(t));
    ghost var kid := DeletePathParts(node.fields[parts[0]], parts[1..], t.kids[parts[0]]);
    ReplaceKid(t, parts[0], kid);
    StoredWithKid(t, parts[0], kid);
    t' := MapTree(node, t.kids[parts[0] := kid]);
  }

  /** Every child of an array, with the full path. */
  method DeleteInItems(items: seq<Value>, parts: seq<string>, ghost t: Tree) returns (ghost t': Tree)
    requires parts != [] && ArrValue(items) == ValueOf(t) && Stored(t) && Unshared(t)
    modifies Footprint(t)
    ensures ArrValue(items) == ValueOf(t') && Stored(t') && Unshared(t') && Footprint(t') <= Footprint(t)
    ensures Erase(t') == Prune(Erase(t), parts)
    decreases |Footprint(t)|, 1, t, 0
  {
    hide Maps, Footprint, Stored, StoredOutside, Unshared;
    t' := t;
    for i := 0 to |items|
      invariant t'.ArrTree? && |t'.items| == |items| && ArrValue(items) == ValueOf(t') && Stored(t')
      invariant Unshared(t') && Footprint(t') <= Footprint(t)
      invariant forall j :: 0 <= j < i ==> Erase(t'.items[j]) == Prune(Erase(t.items[j]), parts)
      invariant forall j :: i <= j < |items| ==> t'.items[j] == t.items[j]
    {
      ItemPart(t, i);
      ItemPart(t', i);
      assert allocated(Footprint(t'));
      ghost var kid := DeletePathParts(items[i], parts, t'.items[i]);
      ReplaceItem(t', i, kid);
      StoredWithItem(t', i, kid);
      t' := ArrTree(t'.items[i := kid]);
    }
  }

  /** The second pass: every remaining child of a map, with the full path. */
  method DeleteInFields(node: MapNode, parts: seq<string>, ghost t: Tree) returns (ghost t': Tree)
    requires parts != [] && MapValue(node) == ValueOf(t) && Stored(t) && Unshared(t)
    modifies Footprint(t)
    ensures MapValue(node) == ValueOf(t') && Stored(t') && Unshared(t') && Footprint(t') <= Footprint(t)
    ensures t'.kids.Keys == t.kids.Keys
    ensures forall k :: k in t.kids ==> Erase(t'.kids[k]) == Prune(Erase(t.kids[k]), parts)
    decreases |Footprint(t)|, 0, t, 0
  {
    hide Maps, Footprint, Stored, StoredOutside, Unshared, Erase, Prune, ValueOf;
    NodeOf(t, node);
    Top(t);
    t' := t;
    var todo := node.fields.Keys;
    while todo != {}
      invariant t'.MapTree? && t'.node == node && Stored(t')
      invariant todo <= t'.kids.Keys == t.kids.Keys
      invariant Unshared(t') && Footprint(t') <= Footprint(t)
      invariant forall k :: k in t.kids && k !in todo ==> Erase(t'.kids[k]) == Prune(Erase(t.kids[k]), parts)
      invariant forall k :: k in todo ==> t'.kids[k] == t.kids[k]
      decreases todo
    {
      var k :| k in todo;
      Top(t');
      KidPart(t', k);
      Sets.SubsetCard(Footprint(t'), Footprint(t));
      assert allocated(Footprint(t'));
      ghost var kid := DeletePathParts(node.fields[k], parts, t'.kids[k]);
      ReplaceKid(t', k, kid);
      StoredWithKid(t', k, kid);
      t' := MapTree(node, t'.kids[k := kid]);
      todo := todo - {k};
    }
    NodeOf(t', node);
  }

  // ---- cloning ----

  ghost predicate Disjoint(ts: seq<Tree>) {
    forall i, j :: 0 <= i < |ts| && 0 <= j < |ts| && i != j ==> Footprint(ts[i]) !! Footprint(ts[j])
  }

  lemma ArrayOf(ts: seq<Tree>)
    requires forall i :: 0 <= i < |ts| ==> Stored(ts[i]) && Unshared(ts[i])
    requires Disjoint(ts)
    ensures Stored(ArrTree(ts)) && Unshared(ArrTree(ts))
    ensures forall n :: n in Footprint(ArrTree(ts)) ==> exists i :: 0 <= i < |ts| && n in Footprint(ts[i])
  {
  }

  lemma MapOf(node: MapNode, kids: map<string, Tree>)
    requires forall k :: k in kids ==> Stored(kids[k]) && Unshared(kids[k]) && node !in Footprint(kids[k])
    requires forall k, l :: k in kids && l in kids && k != l ==> Footprint(kids[k]) !! Footprint(kids[l])
    requires node.fields == map k | k in kids :: ValueOf(kids[k])
    ensures Stored(MapTree(node, kids)) && Unshared(MapTree(node, kids))
    ensures forall n :: n in Footprint(MapTree(node, kids)) ==>
      n == node || exists k :: k in kids && n in Footprint(kids[k])
  {
  }

  /** CloneObjectStrict below the top level: a deep copy, or a failure when something is not JSON. */
  method Clone(v: Value, ghost t: Tree) returns (ok: bool, c: Value, ghost u: Tree)
    requires v == ValueOf(t) && Stored(t)
    ensures ok <==> Encodable(Erase(t))
    ensures ok ==> c == ValueOf(u) && Stored(u) && Unshared(u) && fresh(Footprint(u)) && Erase(u) == Erase(t)
    decreases t, 1
  {
    match v
    case LitValue(lit) =>
      ok, c, u := lit != NotJson, v, t;
    case ArrValue(items) =>
      ok, c, u := CloneItems(items, t);
    case MapValue(node) =>
      var copy;
      ok, copy, u := CloneFields(node, t);
      c := MapValue(copy);
  }

  method CloneItems(items: seq<Value>, ghost t: Tree) returns (ok: bool, c: Value, ghost u: Tree)
    requires ArrValue(items) == ValueOf(t) && Stored(t)
    ensures ok <==> Encodable(Erase(t))
    ensures ok ==> c == ValueOf(u) && Stored(u) && Unshared(u) && fresh(Footprint(u)) && Erase(u) == Erase(t)
    decreases t, 0
  {
    hide Maps, Footprint, Stored, Unshared;
    c, u := ArrValue(items), t;
    var out: seq<Value> := [];
    ghost var us: seq<Tree> := [];
    for i := 0 to |items|
      invariant |out| == |us| == i
      invariant forall j :: 0 <= j < i ==> out[j] == ValueOf(us[j]) && Stored(us[j]) && Unshared(us[j])
      invariant forall j :: 0 <= j < i ==> fresh(Footprint(us[j])) && allocated(Footprint(us[j]))
      invariant forall j :: 0 <= j < i ==> Erase(us[j]) == Erase(t.items[j]) && Encodable(Erase(t.items[j]))
      invariant Disjoint(us) && Stored(t)
    {
      StoredItem(t, i);
      var one;
      ghost var w;
      assert allocated(Footprint(t));
      ok, one, w := Clone(items[i], t.items[i]);
      if !ok {
        assert Erase(t).items[i] == Erase(t.items[i]);
        return;
      }
      out, us := out + [one], us + [w];
    }
    ArrayOf(us);
    ok, c, u := true, ArrValue(out), ArrTree(us);
  }

  lemma StoredItem(t: Tree, i: nat)
    requires t.ArrTree? && i < |t.items| && Stored(t)
    ensures Stored(t.items[i])
  {
  }

  lemma StoredKid(t: Tree, k: string)
    requires t.MapTree? && k in t.kids && Stored(t)
    ensures Stored(t.kids[k]) && FieldsOf(t)[k] == ValueOf(t.kids[k])
  {
  }

  lemma ErasedKids(t: Tree, u: Tree)
    requires t.MapTree?
    ensures Encodable(Erase(t)) <==> forall k :: k in t.kids ==> Encodable(Erase(t.kids[k]))
    ensures u.MapTree? && u.kids.Keys == t.kids.Keys
      && (forall k :: k in t.kids ==> Erase(u.kids[k]) == Erase(t.kids[k]))
      ==> Erase(u) == Erase(t)
  {
    assert forall k :: k in t.kids ==> Erase(t).fields[k] == Erase(t.kids[k]);
    if u.MapTree? && u.kids.Keys == t.kids.Keys && forall k :: k in t.kids ==> Erase(u.kids[k]) == Erase(t.kids[k]) {
      assert Erase(u).fields == Erase(t).fields;
    }
  }

  lemma NodeOf(t: Tree, node: MapNode)
    ensures ValueOf(t) == MapValue(node) <==> t.MapTree? && t.node == node
  {
  }

  /** CloneObjectStrict: the copy shares no node with the original, whatever sharing the original has. */
  method CloneFields(node: MapNode, ghost t: Tree) returns (ok: bool, c: MapNode, ghost u: Tree)
    requires MapValue(node) == ValueOf(t) && Stored(t)
    ensures ok <==> Encodable(Erase(t))
    ensures ok ==>
      MapValue(c) == ValueOf(u) && Stored(u) && Unshared(u) && fresh(Footprint(u)) && Erase(u) == Erase(t)
    decreases t, 0
  {
    hide Maps, Footprint, Stored, Unshared, Erase, Encodable, ValueOf;
    NodeOf(t, node);
    Top(t);
    ErasedKids(t, t);
    assert node.fields.Keys == t.kids.Keys;
    hide FieldsOf;
    c, u := node, t;
    var fields: map<string, Value> := map[];
    ghost var us: map<string, Tree> := map[];
    var todo := node.fields.Keys;
    while todo != {}
      invariant todo !! us.Keys && todo + us.Keys == t.kids.Keys && fields.Keys == us.Keys
      invariant forall k :: k in us ==> fields[k] == ValueOf(us[k]) && Stored(us[k]) && Unshared(us[k])
      invariant forall k :: k in us ==> fresh(Footprint(us[k])) && allocated(Footprint(us[k]))
      invariant forall k :: k in us ==> Erase(us[k]) == Erase(t.kids[k]) && Encodable(Erase(t.kids[k]))
      invariant forall k, l :: k in us && l in us && k != l ==> Footprint(us[k]) !! Footprint(us[l])
      invariant Stored(t) && node.fields == FieldsOf(t)
      decreases todo
    {
      var k :| k in todo;
      StoredKid(t, k);
      var one;
      ghost var w;
      assert allocated(Footprint(t));
      ok, one, w := Clone(node.fields[k], t.kids[k]);
      if !ok {
        return;
      }
      fields, us, todo := fields[k := one], us[k := w], todo - {k};
    }
    c, u := NewMap(fields, us);
    ErasedKids(t, u);
    ok := true;
  }

  /** A new node over disjoint trees. */
  method NewMap(fields: map<string, Value>, ghost kids: map<string, Tree>) returns (c: MapNode, ghost u: Tree)
    requires fields.Keys == kids.Keys
    requires forall k :: k in kids ==> fields[k] == ValueOf(kids[k]) && Stored(kids[k]) && Unshared(kids[k])
    requires forall k, l :: k in kids && l in kids && k != l ==> Footprint(kids[k]) !! Footprint(kids[l])
    ensures u == MapTree(c, kids) && fresh(c) && MapValue(c) == ValueOf(u) && Stored(u) && Unshared(u)
    ensures forall n :: n in Footprint(u) ==> n == c || exists k :: k in kids && n in Footprint(kids[k])
  {
    hide Maps, Footprint, Stored, Unshared, ValueOf;
    assert forall k :: k in kids ==> allocated(Footprint(kids[k]));
    c := new MapNode(fields);
    u := MapTree(c, kids);
    MapOf(c, kids);
    NodeOf(u, c);
  }

  // ---- the entry points ----

  /** splitPath */
  method SplitPath(path: string) returns (parts: seq<string>)
    ensures parts == PathParts(path)
  {
    hide TrimSpace, Split, Clean;
    var raw := Split(TrimSpace(path), '.');
    parts := [];
    assert raw[0..] == raw;
    for i := 0 to |raw|
      invariant parts + Clean(raw[i..]) == Clean(raw)
    {
      var part := TrimSpace(raw[i]);
      CleanStep(raw, i);
      if part != "" {
        assert parts + ([part] + Clean(raw[i + 1..])) == (parts + [part]) + Clean(raw[i + 1..]);
        parts := parts + [part];
      }
    }
    CleanStep(raw, |raw|);
  }

  lemma CleanStep(raw: seq<string>, i: nat)
    requires i <= |raw|
    ensures Clean(raw[i..]) ==
      if i == |raw| then []
      else if TrimSpace(raw[i]) == "" then Clean(raw[i + 1..])
      else [TrimSpace(raw[i])] + Clean(raw[i + 1..])
  {
    if i < |raw| { assert raw[i..][1..] == raw[i + 1..]; }
  }

  /** The loops of stripSensitiveFields: deletePath for each path in turn, on the same cloned body. */
  method DeletePaths(body: MapNode, paths: seq<string>, ghost t: Tree) returns (ghost t': Tree)
    requires MapValue(body) == ValueOf(t) && Stored(t) && Unshared(t)
    modifies Footprint(t)
    ensures MapValue(body) == ValueOf(t') && Stored(t') && Unshared(t') && Footprint(t') <= Footprint(t)
    ensures Erase(t') == StripAll(Erase(t), PartsOf(paths))
  {
    hide Maps, Footprint, Stored, Unshared, Prune, Erase, PathParts;
    t' := t;
    ghost var all := PartsOf(paths);
    for i := 0 to |paths|
      invariant MapValue(body) == ValueOf(t') && Stored(t') && Unshared(t') && Footprint(t') <= Footprint(t)
      invariant StripAll(Erase(t'), all[i..]) == StripAll(Erase(t), all)
    {
      assert allocated(Footprint(t'));
      var parts := SplitPath(paths[i]);
      assert all[i..][0] == parts && all[i..][1..] == all[i + 1..];
      if |parts| > 0 {
        t' := DeletePathParts(MapValue(body), parts, t');
      }
    }
    assert all[|paths|..] == [];
  }

  /** An item as the service passes it around; a nil body has no node. */
  datatype ItemWithBody = ItemWithBody(code: string, version: string, body: MapNode?, sensitiveFields: seq<string>)

  /** t describes the body, when there is one. */
  ghost predicate BodyIs(body: MapNode?, t: Tree)
    reads Footprint(t)
  {
    body == null || (MapValue(body) == ValueOf(t) && Stored(t))
  }

  ghost function BodyJson(body: MapNode?, t: Tree): Json {
    if body == null then Obj(map[]) else Erase(t)
  }

  /**
   * stripSensitiveFields. It writes nothing that existed before, so the caller's body is untouched even when
   * several items share parts of it.
   */
  method StripSensitiveFields(body: MapNode?, fields: seq<string>, ghost t: Tree)
    returns (ok: bool, out: MapNode?, ghost u: Tree)
    requires BodyIs(body, t)
    ensures ok <==> Encodable(BodyJson(body, t))
    ensures ok ==>
      out != null && fresh(Footprint(u)) && BodyIs(out, u) && BodyJson(out, u) == FaceOf(BodyJson(body, t), fields)
  {
    hide StripAll, PathParts, Maps, Unshared, Footprint, Stored;
    var copy: MapNode;
    if body == null {
      copy := new MapNode(map[]);
      u := MapTree(copy, map[]);
      MapOf(copy, map[]);
      ok := true;
      assert Erase(u).fields == map[];
    } else {
      ok, copy, u := CloneFields(body, t);
    }
    out := copy;
    if ok {
      u := DeletePaths(copy, DEFAULT_SENSITIVE_PATHS, u);
      u := DeletePaths(copy, fields, u);
    }
  }

  /** faceSnapshot */
  method FaceSnapshot(item: ItemWithBody, ghost t: Tree) returns (ok: bool, face: ItemWithBody, ghost u: Tree)
    requires BodyIs(item.body, t)
    ensures ok <==> Encodable(BodyJson(item.body, t))
    ensures ok ==> fresh(Footprint(u)) && face.body != null && BodyIs(face.body, u)
    ensures ok ==> BodyJson(face.body, u) == FaceOf(BodyJson(item.body, t), item.sensitiveFields)
    ensures ok ==> face == item.(body := face.body, sensitiveFields := [])
  {
    var body;
    ok, body, u := StripSensitiveFields(item.body, item.sensitiveFields, t);
    face := item.(body := body, sensitiveFields := []);
  }
}
