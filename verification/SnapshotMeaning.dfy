/** What a snapshot's digest depends on, in terms of what the snapshot means rather than how it is canonicalised. */
module SnapshotMeaning {
  import opened Json
  import opened Text
  import opened Sorting
  import opened CanonicalJson
  import opened Composition
  import opened ImageClosure
  import opened SnapshotDigest

  /** A runtime with its embedded JSON taken out and decoded. */
  function RuntimeMeaning(r: CompiledRuntime): (CompiledRuntime, Option<Json>) {
    (r.(adapterSpec := NoBytes), Meant(r.adapterSpec))
  }

  function ComponentMeaning(c: CompiledComponent): (CompiledComponent, Option<Json>) {
    (c.(resourceSpec := NoBytes), Meant(c.resourceSpec))
  }

  /** The same but for the Digest field, order, spaces around the workspace, and the text of embedded JSON. */
  ghost predicate SameMeaning(v: SnapshotValue, w: SnapshotValue, itemText: Item -> string) {
    && SameUpToOrder(v.spec, w.spec)
    && multiset(Mapped(RuntimeMeaning, v.runtimes)) == multiset(Mapped(RuntimeMeaning, w.runtimes))
    && multiset(Mapped(ComponentMeaning, v.components)) == multiset(Mapped(ComponentMeaning, w.components))
    && multiset(v.privateSidecars) == multiset(w.privateSidecars)
    && multiset(Mapped(itemText, v.imageClosure)) == multiset(Mapped(itemText, w.imageClosure))
  }

  /** Exactly when two accepted snapshots lead to the same preimage: when they mean the same. */
  lemma PreimagesEqualIff(v: SnapshotValue, w: SnapshotValue, p: Preimage, q: Preimage, itemText: Item -> string)
    requires Accepted(v) && Accepted(w) && Stable(v)
    requires IsPreimage(v, p, itemText) && IsPreimage(w, q, itemText)
    ensures p == q <==> SameMeaning(v, w, itemText)
  {
    CanonRuntimesDistinct(v);
    assert RawJsonReadable(v) && RawJsonReadable(w);
    hide Accepted, CanonRuntime, CanonComponent, CanonicalRaw, Meant, RuntimeMeaning, ComponentMeaning, TrimSpace;
    hide LinkKey;
    hide RawJsonReadable, CompiledKey, CompiledComponentKey, SidecarKey;
    SpecsEqualIff(v.spec, w.spec, p.spec, q.spec);
    RuntimesEqualIff(v, w, p.runtimes, q.runtimes);
    ComponentsEqualIff(v, w, p.components, q.components);
    ClosuresEqualIff(v.imageClosure, w.imageClosure, p.imageClosure, q.imageClosure, itemText);
    if SameMeaning(v, w, itemText) {
      SortsAgree(v.privateSidecars, w.privateSidecars, p.privateSidecars, q.privateSidecars, SidecarKey);
    }
  }

  lemma SpecsEqualIff(v: SpecValue, w: SpecValue, n: SpecValue, m: SpecValue)
    requires KeysIdentify(v) && IsNormal(v, n) && IsNormal(w, m)
    ensures n == m <==> SameUpToOrder(v, w)
  {
    hide TrimSpace, LinkKey, KeysIdentify;
    if SameUpToOrder(v, w) { NormalAgree(v, w, n, m); }
  }

  lemma RuntimesEqualIff(v: SnapshotValue, w: SnapshotValue, a: seq<CompiledRuntime>, b: seq<CompiledRuntime>)
    requires RawJsonReadable(v) && RawJsonReadable(w)
    requires KeyFunctional(Mapped(CanonRuntime, v.runtimes), CompiledKey)
    requires SortedPerm(Mapped(CanonRuntime, v.runtimes), a, CompiledKey)
    requires SortedPerm(Mapped(CanonRuntime, w.runtimes), b, CompiledKey)
    ensures a == b <==>
      multiset(Mapped(RuntimeMeaning, v.runtimes)) == multiset(Mapped(RuntimeMeaning, w.runtimes))
  {
    RuntimesRebuilt(v.runtimes);
    RuntimesRebuilt(w.runtimes);
    hide CanonRuntime, RuntimeMeaning, RebuiltRuntime, Mapped, CompiledKey;
    var x, y := Mapped(CanonRuntime, v.runtimes), Mapped(CanonRuntime, w.runtimes);
    if a == b {
      MappedPerm(RuntimeMeaning, x, y);
    }
    if multiset(Mapped(RuntimeMeaning, v.runtimes)) == multiset(Mapped(RuntimeMeaning, w.runtimes)) {
      MappedPerm(RebuiltRuntime, Mapped(RuntimeMeaning, v.runtimes), Mapped(RuntimeMeaning, w.runtimes));
      SortsAgree(x, y, a, b, CompiledKey);
    }
  }

  function Rebuilt(meaning: Option<Json>): RawJson {
    if meaning.None? then NoBytes else Document(Encode(meaning.value))
  }

  function RebuiltRuntime(m: (CompiledRuntime, Option<Json>)): CompiledRuntime {
    m.0.(adapterSpec := Rebuilt(m.1))
  }

  function RebuiltComponent(m: (CompiledComponent, Option<Json>)): CompiledComponent {
    m.0.(resourceSpec := Rebuilt(m.1))
  }

  /** Canonicalising keeps the meaning and depends on nothing else. */
  lemma RuntimesRebuilt(rs: seq<CompiledRuntime>)
    requires forall r :: r in rs ==> CanonicalRaw(r.adapterSpec).Some?
    ensures Mapped(CanonRuntime, rs) == Mapped(RebuiltRuntime, Mapped(RuntimeMeaning, rs))
    ensures Mapped(RuntimeMeaning, Mapped(CanonRuntime, rs)) == Mapped(RuntimeMeaning, rs)
  {
    forall i | 0 <= i < |rs|
      ensures CanonRuntime(rs[i]) == RebuiltRuntime(RuntimeMeaning(rs[i]))
      ensures RuntimeMeaning(CanonRuntime(rs[i])) == RuntimeMeaning(rs[i])
    {
      CanonicalRawMeaning(rs[i].adapterSpec);
    }
  }

  lemma ComponentsRebuilt(cs: seq<CompiledComponent>)
    requires forall c :: c in cs ==> CanonicalRaw(c.resourceSpec).Some?
    ensures Mapped(CanonComponent, cs) == Mapped(RebuiltComponent, Mapped(ComponentMeaning, cs))
    ensures Mapped(ComponentMeaning, Mapped(CanonComponent, cs)) == Mapped(ComponentMeaning, cs)
  {
    forall i | 0 <= i < |cs|
      ensures CanonComponent(cs[i]) == RebuiltComponent(ComponentMeaning(cs[i]))
      ensures ComponentMeaning(CanonComponent(cs[i])) == ComponentMeaning(cs[i])
    {
      CanonicalRawMeaning(cs[i].resourceSpec);
    }
  }

  lemma ComponentsEqualIff(v: SnapshotValue, w: SnapshotValue, a: seq<CompiledComponent>, b: seq<CompiledComponent>)
    requires RawJsonReadable(v) && RawJsonReadable(w)
    requires KeyFunctional(Mapped(CanonComponent, v.components), CompiledComponentKey)
    requires SortedPerm(Mapped(CanonComponent, v.components), a, CompiledComponentKey)
    requires SortedPerm(Mapped(CanonComponent, w.components), b, CompiledComponentKey)
    ensures a == b <==>
      multiset(Mapped(ComponentMeaning, v.components)) == multiset(Mapped(ComponentMeaning, w.components))
  {
    ComponentsRebuilt(v.components);
    ComponentsRebuilt(w.components);
    hide CanonComponent, ComponentMeaning, RebuiltComponent, Mapped, CompiledComponentKey;
    var x, y := Mapped(CanonComponent, v.components), Mapped(CanonComponent, w.components);
    if a == b {
      MappedPerm(ComponentMeaning, x, y);
    }
    if multiset(Mapped(ComponentMeaning, v.components)) == multiset(Mapped(ComponentMeaning, w.components)) {
      MappedPerm(RebuiltComponent, Mapped(ComponentMeaning, v.components), Mapped(ComponentMeaning, w.components));
      SortsAgree(x, y, a, b, CompiledComponentKey);
    }
  }

  lemma ClosuresEqualIff(s: seq<Item>, t: seq<Item>, a: seq<string>, b: seq<string>, itemText: Item -> string)
    requires exists items :: SortedPerm(s, items, itemText) && a == Mapped(itemText, items)
    requires exists items :: SortedPerm(t, items, itemText) && b == Mapped(itemText, items)
    ensures a == b <==> multiset(Mapped(itemText, s)) == multiset(Mapped(itemText, t))
  {
    var x :| SortedPerm(s, x, itemText) && a == Mapped(itemText, x);
    var y :| SortedPerm(t, y, itemText) && b == Mapped(itemText, y);
    MappedPerm(itemText, s, x);
    MappedPerm(itemText, t, y);
    if multiset(a) == multiset(b) { SortUnique(a, b, z => z); }
  }

  // ---- storage may lay out embedded JSON anew ----

  /** The same bytes, or one document without repeated names with its members in another order at any depth. */
  ghost predicate SameLayout(a: RawJson, b: RawJson) {
    a == b || (a.Document? && b.Document? && DuplicateFree(a.doc) && Reordered(a.doc, b.doc))
  }

  /** w is v with its embedded JSON laid out anew, and with any Digest field. */
  ghost predicate Relaid(v: SnapshotValue, w: SnapshotValue) {
    && w == v.(digest := w.digest, runtimes := w.runtimes, components := w.components)
    && |v.runtimes| == |w.runtimes| && |v.components| == |w.components|
    && (forall i :: 0 <= i < |v.runtimes| ==>
          && w.runtimes[i] == v.runtimes[i].(adapterSpec := w.runtimes[i].adapterSpec)
          && SameLayout(v.runtimes[i].adapterSpec, w.runtimes[i].adapterSpec))
    && (forall i :: 0 <= i < |v.components| ==>
          && w.components[i] == v.components[i].(resourceSpec := w.components[i].resourceSpec)
          && SameLayout(v.components[i].resourceSpec, w.components[i].resourceSpec))
  }

  /** A digest survives storage: laying out embedded JSON anew keeps acceptance and every preimage. */
  lemma RelaidSame(v: SnapshotValue, w: SnapshotValue, p: Preimage, q: Preimage, itemText: Item -> string)
    requires Accepted(v) && Stable(v) && Relaid(v, w)
    requires IsPreimage(v, p, itemText) && IsPreimage(w, q, itemText)
    ensures Accepted(w) && p == q
  {
    RelaidAccepted(v, w);
    RelaidMeaning(v, w, itemText);
    hide *;
    PreimagesEqualIff(v, w, p, q, itemText);
  }

  lemma RelaidMeaning(v: SnapshotValue, w: SnapshotValue, itemText: Item -> string)
    requires Relaid(v, w)
    ensures SameMeaning(v, w, itemText)
  {
    hide SameLayout, Meant, TrimSpace;
    forall i | 0 <= i < |v.runtimes| ensures RuntimeMeaning(v.runtimes[i]) == RuntimeMeaning(w.runtimes[i]) {
      LayoutMeaning(v.runtimes[i].adapterSpec, w.runtimes[i].adapterSpec);
    }
    assert Mapped(RuntimeMeaning, v.runtimes) == Mapped(RuntimeMeaning, w.runtimes);
    forall i | 0 <= i < |v.components| ensures ComponentMeaning(v.components[i]) == ComponentMeaning(w.components[i]) {
      LayoutMeaning(v.components[i].resourceSpec, w.components[i].resourceSpec);
    }
    assert Mapped(ComponentMeaning, v.components) == Mapped(ComponentMeaning, w.components);
  }

  lemma LayoutMeaning(a: RawJson, b: RawJson)
    requires SameLayout(a, b)
    ensures Meant(a) == Meant(b) && (a == NoBytes <==> b == NoBytes)
    ensures CanonicalRaw(a).Some? <==> CanonicalRaw(b).Some?
  {
    hide Reordered, DuplicateFree;
    if a != b { CanonIgnoresOrder(a.doc, b.doc); }
    CanonicalRawMeaning(a);
    CanonicalRawMeaning(b);
  }

  lemma RelaidAccepted(v: SnapshotValue, w: SnapshotValue)
    requires Accepted(v) && Relaid(v, w)
    ensures Accepted(w)
  {
    hide TrimSpace, Encodable, SameLayout, Meant, CanonicalRaw, GoodRefs, WorkspaceNamed, Declared, SpecEncodable;
    forall r | r in w.runtimes
      ensures CompleteRuntime(r) && Declared(v.spec.runtimes, r) && CanonicalRaw(r.adapterSpec).Some?
    {
      var i :| 0 <= i < |w.runtimes| && w.runtimes[i] == r;
      LayoutMeaning(v.runtimes[i].adapterSpec, r.adapterSpec);
      SameDeclared(v.spec.runtimes, v.runtimes[i], r);
      assert v.runtimes[i] in v.runtimes;
    }
    forall i, j | 0 <= i < j < |w.runtimes| ensures CompiledKey(w.runtimes[i]) != CompiledKey(w.runtimes[j]) {
      assert CompiledKey(v.runtimes[i]) != CompiledKey(v.runtimes[j]);
    }
    forall c | c in w.components ensures CanonicalRaw(c.resourceSpec).Some? {
      var i :| 0 <= i < |w.components| && w.components[i] == c;
      LayoutMeaning(v.components[i].resourceSpec, c.resourceSpec);
      assert v.components[i] in v.components;
    }
  }

  lemma SameDeclared(refs: seq<RuntimeRef>, r: CompiledRuntime, s: CompiledRuntime)
    requires s == r.(adapterSpec := s.adapterSpec)
    ensures Declared(refs, r) <==> Declared(refs, s)
  {
    if ref :| ref in refs && Declares(ref, r) { assert Declares(ref, s); }
    if ref :| ref in refs && Declares(ref, s) { assert Declares(ref, r); }
  }

  // ---- what is in a preimage ----

  /**
   * A preimage has no digest and the snapshot's runtimes in the order of their names, each once, with embedded JSON
   * that is canonical and means what it meant; every other field of a runtime is that of one in the snapshot.
   */
  lemma PreimageRuntimes(v: SnapshotValue, p: Preimage, itemText: Item -> string)
    requires Accepted(v) && IsPreimage(v, p, itemText)
    ensures p.digest == "" && |p.runtimes| == |v.runtimes|
    ensures forall i, j :: 0 <= i < j < |p.runtimes| ==>
      StrLe(p.runtimes[i].instanceCode, p.runtimes[j].instanceCode)
      && p.runtimes[i].instanceCode != p.runtimes[j].instanceCode
    ensures forall r :: r in p.runtimes ==>
      && CanonicalRaw(r.adapterSpec) == Some(r.adapterSpec)
      && exists o ::
           o in v.runtimes && r == o.(adapterSpec := r.adapterSpec) && Meant(r.adapterSpec) == Meant(o.adapterSpec)
  {
    hide TrimSpace, CanonicalRaw, Meant, Encodable;
    var mapped := Mapped(CanonRuntime, v.runtimes);
    MembersOfPerm(mapped, p.runtimes);
    forall i, j | 0 <= i < j < |mapped| ensures CompiledKey(mapped[i]) != CompiledKey(mapped[j]) {
      assert CompiledKey(v.runtimes[i]) != CompiledKey(v.runtimes[j]);
    }
    PermDistinctKeys(mapped, p.runtimes, CompiledKey);
    forall i, j | 0 <= i < j < |p.runtimes|
      ensures StrLe(p.runtimes[i].instanceCode, p.runtimes[j].instanceCode)
      ensures p.runtimes[i].instanceCode != p.runtimes[j].instanceCode
    {
      assert CompiledKey(p.runtimes[i]) != CompiledKey(p.runtimes[j]);
      assert StrLe(CompiledKey(p.runtimes[i]), CompiledKey(p.runtimes[j]));
    }
    forall r | r in p.runtimes
      ensures CanonicalRaw(r.adapterSpec) == Some(r.adapterSpec)
      ensures exists o ::
        o in v.runtimes && r == o.(adapterSpec := r.adapterSpec) && Meant(r.adapterSpec) == Meant(o.adapterSpec)
    {
      assert r in mapped;
      var i :| 0 <= i < |mapped| && mapped[i] == r;
      var o := v.runtimes[i];
      assert o in v.runtimes;
      CanonicalRawMeaning(o.adapterSpec);
      assert r == o.(adapterSpec := r.adapterSpec);
    }
  }

  function CategoryAndCode(c: CompiledComponent): string {
    c.category + ['\0'] + c.code
  }

  lemma PreimageComponents(v: SnapshotValue, p: Preimage, itemText: Item -> string)
    requires Accepted(v) && IsPreimage(v, p, itemText)
    ensures |p.components| == |v.components|
    ensures forall i, j :: 0 <= i < j < |p.components| ==>
      StrLe(CategoryAndCode(p.components[i]), CategoryAndCode(p.components[j]))
    ensures forall c :: c in p.components ==>
      && CanonicalRaw(c.resourceSpec) == Some(c.resourceSpec)
      && exists o :: o in v.components
           && c == o.(resourceSpec := c.resourceSpec) && Meant(c.resourceSpec) == Meant(o.resourceSpec)
  {
    hide TrimSpace, CanonicalRaw, Meant, Encodable;
    var mapped := Mapped(CanonComponent, v.components);
    MembersOfPerm(mapped, p.components);
    forall i, j | 0 <= i < j < |p.components|
      ensures
        StrLe(CategoryAndCode(p.components[i]), CategoryAndCode(p.components[j]))
    {
      assert StrLe(CompiledComponentKey(p.components[i]), CompiledComponentKey(p.components[j]));
    }
    forall c | c in p.components
      ensures CanonicalRaw(c.resourceSpec) == Some(c.resourceSpec)
      ensures exists o ::
        o in v.components && c == o.(resourceSpec := c.resourceSpec) && Meant(c.resourceSpec) == Meant(o.resourceSpec)
    {
      assert c in mapped;
      var i :| 0 <= i < |mapped| && mapped[i] == c;
      var o := v.components[i];
      assert o in v.components;
      CanonicalRawMeaning(o.resourceSpec);
      assert c == o.(resourceSpec := c.resourceSpec);
    }
  }

  /** Private sidecars and the spec's components and links stand in the order of names, codes and endpoints. */
  lemma PreimageOrder(v: SnapshotValue, p: Preimage, itemText: Item -> string)
    requires IsPreimage(v, p, itemText)
    ensures multiset(p.privateSidecars) == multiset(v.privateSidecars)
    ensures forall i, j :: 0 <= i < j < |p.privateSidecars| ==>
      StrLe(p.privateSidecars[i].name, p.privateSidecars[j].name)
    ensures forall i, j :: 0 <= i < j < |p.imageClosure| ==> StrLe(p.imageClosure[i], p.imageClosure[j])
    ensures multiset(p.imageClosure) == multiset(Mapped(itemText, v.imageClosure))
    ensures InOrder(p.spec) && SameUpToOrder(v.spec, p.spec)
  {
    hide TrimSpace, LinkKey, CanonRuntime, CanonComponent;
    forall i, j | 0 <= i < j < |p.privateSidecars| ensures StrLe(p.privateSidecars[i].name, p.privateSidecars[j].name) {
      assert StrLe(SidecarKey(p.privateSidecars[i]), SidecarKey(p.privateSidecars[j]));
    }
    var items :| SortedPerm(v.imageClosure, items, itemText) && p.imageClosure == Mapped(itemText, items);
    MappedPerm(itemText, v.imageClosure, items);
    NormalInOrder(v.spec, p.spec);
  }

  /** When a digest is a function of an accepted snapshot, said without sort keys. */
  lemma StableIff(v: SnapshotValue)
    requires Accepted(v)
    ensures Stable(v) <==>
      && (forall c, d :: c in v.spec.infra && d in v.spec.infra && c.code == d.code ==> c == d)
      && (forall c, d :: c in v.spec.tools && d in v.spec.tools && c.code == d.code ==> c == d)
      && (forall l, m :: l in v.spec.links && m in v.spec.links && EndpointText(l) == EndpointText(m) ==> l == m)
      && (forall c, d :: c in v.components && d in v.components ==>
            CategoryAndCode(c) == CategoryAndCode(d) ==> ComponentMeaning(c) == ComponentMeaning(d))
      && (forall a, b :: a in v.privateSidecars && b in v.privateSidecars && a.name == b.name ==> a == b)
  {
    assert RawJsonReadable(v);
    hide Accepted;
    SpecKeysIff(v.spec);
    ComponentsIff(v.components);
    hide CanonComponent, ComponentMeaning, LinkKey, CompiledComponentKey;
    assert KeyFunctional(v.privateSidecars, SidecarKey) <==>
      forall a, b :: a in v.privateSidecars && b in v.privateSidecars && a.name == b.name ==> a == b by {
      assert forall s :: SidecarKey(s) == s.name;
    }
  }

  lemma ComponentsIff(cs: seq<CompiledComponent>)
    requires forall c :: c in cs ==> CanonicalRaw(c.resourceSpec).Some?
    ensures KeyFunctional(Mapped(CanonComponent, cs), CompiledComponentKey) <==>
      forall c, d :: c in cs && d in cs && CategoryAndCode(c) == CategoryAndCode(d) ==>
        ComponentMeaning(c) == ComponentMeaning(d)
  {
    hide CanonicalRaw, Meant;
    ComponentsRebuilt(cs);
    var mapped := Mapped(CanonComponent, cs);
    forall i, j | 0 <= i < |cs| && 0 <= j < |cs|
      ensures CompiledComponentKey(mapped[i]) == CompiledComponentKey(mapped[j]) <==>
        CategoryAndCode(cs[i]) == CategoryAndCode(cs[j])
      ensures mapped[i] == mapped[j] <==> ComponentMeaning(cs[i]) == ComponentMeaning(cs[j])
    {
      assert mapped[i] == RebuiltComponent(ComponentMeaning(cs[i]));
      assert mapped[j] == RebuiltComponent(ComponentMeaning(cs[j]));
      assert ComponentMeaning(mapped[i]) == ComponentMeaning(cs[i]);
      assert ComponentMeaning(mapped[j]) == ComponentMeaning(cs[j]);
    }
    hide CanonComponent, ComponentMeaning, CompiledComponentKey, Mapped, RebuiltComponent;
    if KeyFunctional(mapped, CompiledComponentKey) {
      forall c, d | c in cs && d in cs && CategoryAndCode(c) == CategoryAndCode(d)
        ensures ComponentMeaning(c) == ComponentMeaning(d)
      {
        var i :| 0 <= i < |cs| && cs[i] == c;
        var j :| 0 <= j < |cs| && cs[j] == d;
        assert mapped[i] in mapped && mapped[j] in mapped;
      }
    }
  }

  // ---- acceptance, spelt out ----

  /** Declared runtimes: some, each with its three names, and no instance twice. */
  ghost predicate RefsSpelt(refs: seq<RuntimeRef>) {
    && refs != []
    && (forall r :: r in refs ==>
          TrimSpace(r.instanceCode) != "" && TrimSpace(r.code) != "" && TrimSpace(r.imageVersion) != "")
    && (forall i, j :: 0 <= i < j < |refs| ==> TrimSpace(refs[i].instanceCode) != TrimSpace(refs[j].instanceCode))
  }

  ghost predicate MatchSpelt(refs: seq<RuntimeRef>, r: CompiledRuntime) {
    exists ref ::
      ref in refs && ref.instanceCode == r.instanceCode && ref.code == r.code && ref.imageVersion == r.imageVersion
  }

  /** A compiled runtime that is complete, has embedded JSON that can be read, and is declared. */
  ghost predicate RuntimeSpelt(refs: seq<RuntimeRef>, r: CompiledRuntime) {
    && r.runtimeID > 0 && r.imageID > 0 && TrimSpace(r.instanceCode) != "" && TrimSpace(r.code) != ""
    && (r.adapterSpec.Whitespace? || r.adapterSpec.Document?) && MatchSpelt(refs, r)
  }

  /** Compiled runtimes: as many as declared, and no instance twice. */
  ghost predicate RuntimesSpelt(refs: seq<RuntimeRef>, runtimes: seq<CompiledRuntime>) {
    && |runtimes| == |refs| > 0 && (forall r :: r in runtimes ==> RuntimeSpelt(refs, r))
    && (forall i, j :: 0 <= i < j < |runtimes| ==> runtimes[i].instanceCode != runtimes[j].instanceCode)
  }

  /** Exactly the snapshots for which CanonicalSnapshotDigest returns a digest, condition by condition. */
  lemma AcceptedIff(v: SnapshotValue)
    ensures Accepted(v) <==>
      && SpecEncodable(v.spec) && TrimSpace(v.spec.id) != "" && TrimSpace(v.spec.workspace) != ""
      && v.spec.accessProfile in
           {"experiment", "contest-solve", "contest-battle", "vulnerability-prevalidate", "judge-private"}
      && RefsSpelt(v.spec.runtimes) && RuntimesSpelt(v.spec.runtimes, v.runtimes)
      && (exists r :: r in v.spec.runtimes && r.instanceCode == v.spec.workspace)
      && (forall c :: c in v.components ==>
            c.resourceSpec.NoBytes? || c.resourceSpec.Whitespace? || c.resourceSpec.Document?)
  {
    RefsIff(v.spec.runtimes);
    RuntimesIff(v.spec.runtimes, v.runtimes);
    ReadableIff(v);
    hide TrimSpace, SpecEncodable, GoodRefs, Compiled, RefsSpelt, RuntimesSpelt, CanonicalRaw;
  }

  /** Exactly the specs for which CanonicalDigest returns a digest. */
  lemma SpecAcceptedIff(v: SpecValue)
    ensures SpecAccepted(v) <==>
      && TrimSpace(v.id) != "" && TrimSpace(v.workspace) != "" && SpecEncodable(v)
      && v.accessProfile in
           {"experiment", "contest-solve", "contest-battle", "vulnerability-prevalidate", "judge-private"}
      && RefsSpelt(v.runtimes)
      && exists r :: r in v.runtimes && TrimSpace(r.instanceCode) == TrimSpace(v.workspace)
  {
    RefsIff(v.runtimes);
    assert forall r :: TrimmedInstance(r) == TrimSpace(r.instanceCode);
    hide TrimSpace, SpecEncodable, GoodRefs, RefsSpelt, TrimmedInstance;
  }

  lemma RefsIff(refs: seq<RuntimeRef>)
    ensures GoodRefs(refs) <==> RefsSpelt(refs)
  {
    assert forall r :: TrimmedInstance(r) == TrimSpace(r.instanceCode);
    hide TrimSpace, TrimmedInstance;
  }

  lemma RuntimesIff(refs: seq<RuntimeRef>, runtimes: seq<CompiledRuntime>)
    ensures RuntimesSpelt(refs, runtimes) <==>
      Compiled(refs, runtimes) && forall r :: r in runtimes ==> CanonicalRaw(r.adapterSpec).Some?
  {
    NamesIff(runtimes);
    forall r | r in runtimes
      ensures RuntimeSpelt(refs, r) <==>
        CompleteRuntime(r) && Declared(refs, r) && CanonicalRaw(r.adapterSpec).Some?
    {
      RuntimeIff(refs, r);
    }
    hide RuntimeSpelt, DistinctKeys, Declared, CompleteRuntime, CanonicalRaw;
  }

  lemma NamesIff(runtimes: seq<CompiledRuntime>)
    ensures DistinctKeys(runtimes, CompiledKey) <==>
      forall i, j :: 0 <= i < j < |runtimes| ==> runtimes[i].instanceCode != runtimes[j].instanceCode
  {
    assert forall r :: CompiledKey(r) == r.instanceCode;
    hide CompiledKey;
  }

  lemma RuntimeIff(refs: seq<RuntimeRef>, r: CompiledRuntime)
    ensures RuntimeSpelt(refs, r) <==>
      CompleteRuntime(r) && Declared(refs, r) && CanonicalRaw(r.adapterSpec).Some?
  {
    CanonicalRawMeaning(r.adapterSpec);
    MatchIff(refs, r);
    hide TrimSpace, CanonicalRaw, MatchSpelt, Declared;
  }

  lemma MatchIff(refs: seq<RuntimeRef>, r: CompiledRuntime)
    ensures MatchSpelt(refs, r) <==> Declared(refs, r)
  {
    assert forall ref :: Declares(ref, r) <==>
      ref.instanceCode == r.instanceCode && ref.code == r.code && ref.imageVersion == r.imageVersion;
    hide Declares;
  }

  lemma ReadableIff(v: SnapshotValue)
    ensures RawJsonReadable(v) <==>
      && (forall r :: r in v.runtimes ==> CanonicalRaw(r.adapterSpec).Some?)
      && (forall c :: c in v.components ==>
            c.resourceSpec.NoBytes? || c.resourceSpec.Whitespace? || c.resourceSpec.Document?)
  {
  }
}
