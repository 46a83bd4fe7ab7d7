/** Compiled composition snapshots: what CanonicalSnapshotDigest accepts, and what its digest depends on. */
module SnapshotDigest {
  import opened Json
  import opened Text
  import opened Sorting
  import Sets
  import opened CanonicalJson
  import opened Composition
  import opened ImageClosure

  datatype CompiledRuntime = CompiledRuntime(
    instanceCode: string, runtimeID: int, imageID: int, code: string, eco: string, adapterLevel: int,
    capabilityImpl: string, pluginRef: string, adapterSpec: RawJson, imageURL: string, imageVersion: string)

  datatype CompiledComponent = CompiledComponent(
    componentID: int, category: string, code: string, kind: int, resourceSpec: RawJson)

  /** A snapshot over any representation of its spec and of its four lists. */
  datatype Snapshot<S, R, C, P, I> = Snapshot(
    digest: string, spec: S, runtimes: R, components: C, privateSidecars: P, imageClosure: I)

  type SnapshotInMemory = Snapshot<
    SpecInMemory, array<CompiledRuntime>, array<CompiledComponent>, array<Sidecar>, array<Item>>

  type SnapshotValue = Snapshot<SpecValue, seq<CompiledRuntime>, seq<CompiledComponent>, seq<Sidecar>, seq<Item>>

  /** What is encoded and hashed: closure items appear as their encodings. */
  type Preimage = Snapshot<SpecValue, seq<CompiledRuntime>, seq<CompiledComponent>, seq<Sidecar>, seq<string>>

  ghost function ValueOf(s: SnapshotInMemory): SnapshotValue
    reads s.spec.runtimes, s.spec.infra, s.spec.tools, s.spec.links
    reads s.runtimes, s.components, s.privateSidecars, s.imageClosure
  {
    Snapshot(s.digest, SpecOf(s.spec), s.runtimes[..], s.components[..], s.privateSidecars[..], s.imageClosure[..])
  }

  function CompiledKey(r: CompiledRuntime): string { r.instanceCode }

  function CompiledComponentKey(c: CompiledComponent): string { c.category + NUL + c.code }

  function SidecarKey(s: Sidecar): string { s.name }

  // ---- acceptance ----

  predicate CompleteRuntime(r: CompiledRuntime) {
    && r.runtimeID > 0 && r.imageID > 0 && TrimSpace(r.instanceCode) != "" && TrimSpace(r.code) != ""
    && r.adapterSpec != NoBytes
  }

  /** The compiled runtime is the declared one. */
  predicate Declares(ref: RuntimeRef, r: CompiledRuntime) {
    ref.instanceCode == r.instanceCode && ref.code == r.code && ref.imageVersion == r.imageVersion
  }

  ghost predicate Declared(refs: seq<RuntimeRef>, r: CompiledRuntime) {
    exists ref :: ref in refs && Declares(ref, r)
  }

  /** Compiled runtimes are complete, distinct, each declared, and as many as the declarations. */
  ghost predicate Compiled(refs: seq<RuntimeRef>, runtimes: seq<CompiledRuntime>) {
    && runtimes != [] && (forall r :: r in runtimes ==> CompleteRuntime(r)) && DistinctKeys(runtimes, CompiledKey)
    && (forall r :: r in runtimes ==> Declared(refs, r)) && |runtimes| == |refs|
  }

  /** The workspace name, with its spaces, is the name of a declared runtime. */
  ghost predicate WorkspaceNamed(refs: seq<RuntimeRef>, workspace: string) {
    exists ref :: ref in refs && ref.instanceCode == workspace
  }

  ghost predicate RawJsonReadable(v: SnapshotValue) {
    && (forall r :: r in v.runtimes ==> CanonicalRaw(r.adapterSpec).Some?)
    && (forall c :: c in v.components ==> CanonicalRaw(c.resourceSpec).Some?)
  }

  /** CanonicalSnapshotDigest returns a digest. */
  ghost predicate Accepted(v: SnapshotValue) {
    && TrimSpace(v.spec.id) != "" && ValidProfile(v.spec.accessProfile) && TrimSpace(v.spec.workspace) != ""
    && GoodRefs(v.spec.runtimes) && Compiled(v.spec.runtimes, v.runtimes)
    && WorkspaceNamed(v.spec.runtimes, v.spec.workspace)
    && RawJsonReadable(v) && SpecEncodable(v.spec)
  }

  /** pairing[i] is the declaration of compiled runtime i; the matching is one-to-one and onto. */
  ghost predicate Matching(refs: seq<RuntimeRef>, runtimes: seq<CompiledRuntime>, pairing: seq<nat>) {
    && |pairing| == |runtimes| == |refs|
    && (forall i :: 0 <= i < |pairing| ==> pairing[i] < |refs| && Declares(refs[pairing[i]], runtimes[i]))
    && NoDuplicates(pairing)
    && (forall j :: 0 <= j < |refs| ==> j in pairing)
  }

  /** An accepted snapshot compiles every declared runtime exactly once and nothing else. */
  lemma AcceptedIsBijection(v: SnapshotValue) returns (pairing: seq<nat>)
    requires Accepted(v)
    ensures Matching(v.spec.runtimes, v.runtimes, pairing)
  {
    hide TrimSpace, Encodable, Declares, GoodRefs;
    var refs, runtimes := v.spec.runtimes, v.runtimes;
    pairing := [];
    while |pairing| < |runtimes|
      invariant |pairing| <= |runtimes|
      invariant forall i :: 0 <= i < |pairing| ==> pairing[i] < |refs| && Declares(refs[pairing[i]], runtimes[i])
    {
      assert runtimes[|pairing|] in runtimes && Declared(refs, runtimes[|pairing|]);
      var ref :| ref in refs && Declares(ref, runtimes[|pairing|]);
      var j :| 0 <= j < |refs| && refs[j] == ref;
      pairing := pairing + [j];
    }
    forall i, j | 0 <= i < j < |pairing| ensures pairing[i] != pairing[j] {
      assert CompiledKey(runtimes[i]) != CompiledKey(runtimes[j]);
      SameInstance(refs[pairing[i]], runtimes[i]);
      SameInstance(refs[pairing[j]], runtimes[j]);
    }
    InjectiveIsOnto(pairing, |refs|);
  }

  /** n different numbers below n are all of them. */
  lemma InjectiveIsOnto(pairing: seq<nat>, n: nat)
    requires |pairing| == n && NoDuplicates(pairing) && forall i :: 0 <= i < n ==> pairing[i] < n
    ensures forall j :: 0 <= j < n ==> j in pairing
  {
    CountDistinct(pairing);
    forall j | 0 <= j < n ensures j in pairing {
      if j !in pairing {
        Sets.SubsetCard(Elements(pairing), NumbersBelow(n) - {j});
        assert false;
      }
    }
  }

  lemma SameInstance(ref: RuntimeRef, r: CompiledRuntime)
    requires Declares(ref, r)
    ensures ref.instanceCode == CompiledKey(r)
  {
  }

  function NumbersBelow(n: nat): (s: set<nat>)
    ensures |s| == n && forall j: nat :: j in s <==> j < n
  {
    if n == 0 then {} else NumbersBelow(n - 1) + {n - 1}
  }

  lemma {:induction false} CountDistinct<T>(s: seq<T>)
    requires NoDuplicates(s)
    ensures |Elements(s)| == |s|
  {
    if s != [] {
      var init := s[..|s| - 1];
      CountDistinct(init);
      ElementsSnoc(init, s[|s| - 1]);
      assert s == init + [s[|s| - 1]];
    }
  }

  /** An accepted snapshot has a spec that CanonicalDigest accepts too. */
  lemma AcceptedSpecIsAccepted(v: SnapshotValue)
    requires Accepted(v)
    ensures SpecAccepted(v.spec)
  {
  }

  /**
   * The converse needs one thing more: CanonicalDigest looks the workspace up by its trimmed name,
   * CanonicalSnapshotDigest by the name as it stands. So the one declaration that the trimmed name denotes must be
   * spelt like the workspace, with the same spaces.
   */
  lemma SnapshotAcceptedIff(v: SnapshotValue, i: nat)
    requires SpecAccepted(v.spec) && Compiled(v.spec.runtimes, v.runtimes) && RawJsonReadable(v)
    requires i < |v.spec.runtimes| && TrimmedInstance(v.spec.runtimes[i]) == TrimSpace(v.spec.workspace)
    ensures forall j :: 0 <= j < |v.spec.runtimes| && j != i ==>
      TrimmedInstance(v.spec.runtimes[j]) != TrimSpace(v.spec.workspace)
    ensures Accepted(v) <==> v.spec.runtimes[i].instanceCode == v.spec.workspace
  {
    hide TrimSpace, Encodable;
    var refs := v.spec.runtimes;
    if ref :| ref in refs && ref.instanceCode == v.spec.workspace {
      var j :| 0 <= j < |refs| && refs[j] == ref;
      assert TrimmedInstance(refs[j]) == TrimSpace(v.spec.workspace);
    }
  }

  /** A padded workspace name: the spec is accepted, the snapshot compiled from it is not. */
  lemma PaddedWorkspaceDiffers() returns (v: SnapshotValue)
    ensures SpecAccepted(v.spec) && Compiled(v.spec.runtimes, v.runtimes) && RawJsonReadable(v) && !Accepted(v)
  {
    hide TrimSpace;
    TrimmedNames();
    var ref := RuntimeRef("a", "evm", "v1", Obj(map[]));
    var spec: SpecValue := Spec("lab", [ref], " a", [], [], [], "experiment", map[], Obj(map[]), [], "", "");
    var runtime := CompiledRuntime("a", 1, 1, "evm", "", 0, "", "", Document(DocObj([])), "", "v1");
    v := Snapshot("", spec, [runtime], [], [], []);
    assert TrimmedInstance(ref) == TrimSpace(" a");
    assert ref in spec.runtimes && Declares(ref, runtime);
  }

  lemma TrimmedNames()
    ensures TrimSpace("a") == TrimSpace(" a") == "a" && TrimSpace("evm") == "evm" && TrimSpace("v1") == "v1"
    ensures TrimSpace("lab") == "lab"
  {
    hide TrimSpace;
    TrimSpaceFixed("a");
    TrimSpaceFixed("evm");
    TrimSpaceFixed("v1");
    TrimSpaceFixed("lab");
    LeadingSpace("a");
    assert [' '] + "a" == " a";
  }

  lemma LeadingSpace(s: string)
    ensures TrimSpace([' '] + s) == TrimSpace(s)
  {
  }

  /** Two bindings of one endpoint: the snapshot is accepted, and the sort may leave the links in either order. */
  lemma AcceptedUnstable() returns (v: SnapshotValue)
    ensures Accepted(v) && !Stable(v)
    ensures SpecAccepted(v.spec) && !KeysIdentify(v.spec)
  {
    hide TrimSpace, LinkKey;
    TrimmedNames();
    var ref := RuntimeRef("a", "evm", "v1", Obj(map[]));
    var link := Link("a", "rpc", "a", "rpc", "http", false, "private", "env:A");
    var other := link.(configBinding := "env:B");
    var spec: SpecValue := Spec("lab", [ref], "a", [], [], [link, other], "experiment", map[], Obj(map[]), [], "", "");
    var runtime := CompiledRuntime("a", 1, 1, "evm", "", 0, "", "", Document(DocObj([])), "", "v1");
    v := Snapshot("", spec, [runtime], [], [], []);
    assert ref in spec.runtimes && Declares(ref, runtime);
    assert LinkKey(link) == LinkKey(other) by { SameEndpoints(link, other); }
    assert link in spec.links && other in spec.links;
    AcceptedSpecIsAccepted(v);
  }

  lemma SameEndpoints(l: Link, m: Link)
    requires l.sourceComponent == m.sourceComponent && l.sourceEndpoint == m.sourceEndpoint
    requires l.targetComponent == m.targetComponent && l.targetEndpoint == m.targetEndpoint
    ensures LinkKey(l) == LinkKey(m)
  {
  }

  // ---- the canonical snapshot ----

  function CanonRuntime(r: CompiledRuntime): CompiledRuntime {
    r.(adapterSpec := GetOr(CanonicalRaw(r.adapterSpec), r.adapterSpec))
  }

  function CanonComponent(c: CompiledComponent): CompiledComponent {
    c.(resourceSpec := GetOr(CanonicalRaw(c.resourceSpec), c.resourceSpec))
  }

  /** p is a preimage that CanonicalSnapshotDigest may encode for v. itemText is json.Marshal on closure items. */
  ghost predicate IsPreimage(v: SnapshotValue, p: Preimage, itemText: Item -> string) {
    && p.digest == "" && IsNormal(v.spec, p.spec)
    && SortedPerm(Mapped(CanonRuntime, v.runtimes), p.runtimes, CompiledKey)
    && SortedPerm(Mapped(CanonComponent, v.components), p.components, CompiledComponentKey)
    && SortedPerm(v.privateSidecars, p.privateSidecars, SidecarKey)
    && exists items :: SortedPerm(v.imageClosure, items, itemText) && p.imageClosure == Mapped(itemText, items)
  }

  /** Sort keys identify elements wherever acceptance alone does not already make them. */
  ghost predicate Stable(v: SnapshotValue) {
    && KeyFunctional(v.spec.infra, ComponentKey) && KeyFunctional(v.spec.tools, ComponentKey)
    && KeyFunctional(v.spec.links, LinkKey)
    && KeyFunctional(Mapped(CanonComponent, v.components), CompiledComponentKey)
    && KeyFunctional(v.privateSidecars, SidecarKey)
  }

  /** The same snapshot up to its Digest field, the order of its lists and spaces around the workspace name. */
  ghost predicate SameSnapshot(v: SnapshotValue, w: SnapshotValue) {
    && SameUpToOrder(v.spec, w.spec)
    && multiset(v.runtimes) == multiset(w.runtimes) && multiset(v.components) == multiset(w.components)
    && multiset(v.privateSidecars) == multiset(w.privateSidecars)
    && multiset(v.imageClosure) == multiset(w.imageClosure)
  }

  lemma CanonRuntimesDistinct(v: SnapshotValue)
    requires Accepted(v)
    ensures KeyFunctional(v.spec.runtimes, RuntimeKey)
    ensures KeyFunctional(Mapped(CanonRuntime, v.runtimes), CompiledKey)
  {
    hide TrimSpace, Encodable, CanonicalRaw;
    RawInstancesDistinct(v.spec.runtimes);
    var mapped := Mapped(CanonRuntime, v.runtimes);
    forall i, j | 0 <= i < j < |mapped| ensures CompiledKey(mapped[i]) != CompiledKey(mapped[j]) {
      assert CompiledKey(v.runtimes[i]) != CompiledKey(v.runtimes[j]);
    }
    DistinctIsFunctional(mapped, CompiledKey);
  }

  /** Neither order nor the Digest field reaches the preimage; the closure may even repeat items. */
  lemma PreimagesAgree(v: SnapshotValue, w: SnapshotValue, p: Preimage, q: Preimage, itemText: Item -> string)
    requires SameSnapshot(v, w) && Accepted(v) && Stable(v)
    requires IsPreimage(v, p, itemText) && IsPreimage(w, q, itemText)
    ensures p == q
  {
    CanonRuntimesDistinct(v);
    hide TrimSpace, Encodable, CanonicalRaw, LinkKey, Accepted, CanonRuntime, CanonComponent;
    NormalAgree(v.spec, w.spec, p.spec, q.spec);
    MappedPerm(CanonRuntime, v.runtimes, w.runtimes);
    SortsAgree(
      Mapped(CanonRuntime, v.runtimes), Mapped(CanonRuntime, w.runtimes), p.runtimes, q.runtimes, CompiledKey);
    MappedPerm(CanonComponent, v.components, w.components);
    SortsAgree(
      Mapped(CanonComponent, v.components), Mapped(CanonComponent, w.components), p.components, q.components,
      CompiledComponentKey);
    SortsAgree(v.privateSidecars, w.privateSidecars, p.privateSidecars, q.privateSidecars, SidecarKey);
    ClosuresAgree(v.imageClosure, w.imageClosure, p.imageClosure, q.imageClosure, itemText);
  }

  /** Sorting by the whole encoding gives one list of encodings, whatever the items are. */
  lemma ClosuresAgree(s: seq<Item>, t: seq<Item>, a: seq<string>, b: seq<string>, itemText: Item -> string)
    requires multiset(s) == multiset(t)
    requires exists items :: SortedPerm(s, items, itemText) && a == Mapped(itemText, items)
    requires exists items :: SortedPerm(t, items, itemText) && b == Mapped(itemText, items)
    ensures a == b
  {
    var x :| SortedPerm(s, x, itemText) && a == Mapped(itemText, x);
    var y :| SortedPerm(t, y, itemText) && b == Mapped(itemText, y);
    MappedPerm(itemText, x, y);
    SortUnique(a, b, z => z);
  }

  /** Permuting an accepted snapshot keeps it accepted. */
  lemma AcceptedPerm(v: SnapshotValue, w: SnapshotValue)
    requires SameSnapshot(v, w) && v.spec.workspace == w.spec.workspace && Accepted(v)
    ensures Accepted(w)
  {
    hide TrimSpace, Encodable, CanonicalRaw, CompleteRuntime, Declares;
    AcceptedSpecIsAccepted(v);
    DigestIgnoresOrder(v.spec, w.spec);
    MembersOfPerm(v.spec.runtimes, w.spec.runtimes);
    MembersOfPerm(v.runtimes, w.runtimes);
    MembersOfPerm(v.components, w.components);
    PermDistinctKeys(v.runtimes, w.runtimes, CompiledKey);
  }

  function PreimageOf(v: SnapshotValue, itemText: Item -> string): (p: Preimage)
    ensures IsPreimage(v, p, itemText)
  {
    var items := InsertionSort(v.imageClosure, itemText);
    Snapshot(
      "", Normal(v.spec), InsertionSort(Mapped(CanonRuntime, v.runtimes), CompiledKey),
      InsertionSort(Mapped(CanonComponent, v.components), CompiledComponentKey),
      InsertionSort(v.privateSidecars, SidecarKey), Mapped(itemText, items))
  }

  /** Exactly when an accepted snapshot has one preimage, so that its digest is a function of it at all. */
  lemma PreimageUniqueIff(v: SnapshotValue, itemText: Item -> string)
    requires Accepted(v)
    ensures (forall p, q :: IsPreimage(v, p, itemText) && IsPreimage(v, q, itemText) ==> p == q) <==> Stable(v)
  {
    hide Stable, Accepted, IsPreimage;
    if Stable(v) {
      forall p, q | IsPreimage(v, p, itemText) && IsPreimage(v, q, itemText) ensures p == q {
        PreimagesAgree(v, v, p, q, itemText);
      }
    } else {
      var p, q := TwoPreimages(v, itemText);
    }
  }

  lemma {:induction false} TwoPreimages(v: SnapshotValue, itemText: Item -> string) returns (p: Preimage, q: Preimage)
    requires Accepted(v) && !Stable(v)
    ensures IsPreimage(v, p, itemText) && IsPreimage(v, q, itemText) && p != q
  {
    p := PreimageOf(v, itemText);
    q := p;
    hide TrimSpace, Encodable, CanonicalRaw, LinkKey, Accepted, CanonRuntime, CanonComponent, PreimageOf, InsertionSort;
    if !KeyFunctional(v.privateSidecars, SidecarKey) {
      var a, b := TwoSorts(v.privateSidecars, SidecarKey);
      p, q := p.(privateSidecars := a), q.(privateSidecars := b);
    } else if !KeyFunctional(Mapped(CanonComponent, v.components), CompiledComponentKey) {
      var a, b := TwoSorts(Mapped(CanonComponent, v.components), CompiledComponentKey);
      p, q := p.(components := a), q.(components := b);
    } else {
      NormalUniqueIff(v.spec);
      var n, m :| IsNormal(v.spec, n) && IsNormal(v.spec, m) && n != m;
      p, q := p.(spec := n), q.(spec := m);
    }
  }

  // ---- CanonicalSnapshotDigest ----

  lemma NotSeenBefore(runtimes: seq<RuntimeRef>, i: nat)
    requires i < |runtimes| && DistinctKeys(runtimes, RuntimeKey)
    ensures forall r :: r in runtimes[..i] ==> r.instanceCode != runtimes[i].instanceCode
  {
  }

  /** The map of declarations. Its duplicate check is never met, because trimmed names are already distinct. */
  method DeclaredRuntimes(runtimes: array<RuntimeRef>) returns (refs: map<string, RuntimeRef>)
    requires GoodRefs(runtimes[..])
    ensures |refs| == runtimes.Length
    ensures forall r :: r in runtimes[..] ==> r.instanceCode in refs && refs[r.instanceCode] == r
    ensures forall k :: k in refs ==> refs[k] in runtimes[..] && refs[k].instanceCode == k
  {
    RawInstancesDistinct(runtimes[..]);
    hide TrimSpace, GoodRefs;
    refs := map[];
    for i := 0 to runtimes.Length
      invariant |refs| == i
      invariant forall r :: r in runtimes[..i] ==> r.instanceCode in refs && refs[r.instanceCode] == r
      invariant forall k :: k in refs ==> refs[k] in runtimes[..i] && refs[k].instanceCode == k
    {
      var ref := runtimes[i];
      NotSeenBefore(runtimes[..], i);
      assert runtimes[..i] == runtimes[..][..i] && runtimes[..i + 1] == runtimes[..i] + [ref];
      if ref.instanceCode in refs {
        assert false;
      }
      refs := refs[ref.instanceCode := ref];
    }
    assert runtimes[..runtimes.Length] == runtimes[..];
  }

  /** The part of Compiled that the loop establishes runtime by runtime. */
  ghost predicate Checked(declared: seq<RuntimeRef>, runtimes: seq<CompiledRuntime>) {
    && (forall r :: r in runtimes ==> CompleteRuntime(r)) && DistinctKeys(runtimes, CompiledKey)
    && (forall r :: r in runtimes ==> Declared(declared, r))
  }

  lemma CheckedStep(declared: seq<RuntimeRef>, runtimes: seq<CompiledRuntime>, i: nat)
    requires i < |runtimes|
    ensures var r := runtimes[i]; Checked(declared, runtimes[..i + 1]) <==>
      && Checked(declared, runtimes[..i]) && CompleteRuntime(r)
      && CompiledKey(r) !in Elements(Mapped(CompiledKey, runtimes[..i]))
      && Declared(declared, r)
    ensures Checked(declared, runtimes) ==> Checked(declared, runtimes[..i + 1])
    ensures Elements(Mapped(CompiledKey, runtimes[..i + 1])) ==
      Elements(Mapped(CompiledKey, runtimes[..i])) + {CompiledKey(runtimes[i])}
  {
    hide CompleteRuntime, Declared, DistinctKeys, Mapped;
    var s, r := runtimes[..i], runtimes[i];
    assert runtimes[..i + 1] == s + [r];
    DistinctSnoc(s, r, CompiledKey);
    DistinctPrefix(runtimes, i + 1, CompiledKey);
    assert forall x :: x in s + [r] <==> x in s || x == r;
    assert forall x :: x in runtimes[..i + 1] ==> x in runtimes;
  }

  /** The loop over compiled runtimes, and the count and workspace checks after it. */
  method CheckCompiled(
      refs: map<string, RuntimeRef>, ghost declared: seq<RuntimeRef>, runtimes: array<CompiledRuntime>,
      workspace: string)
    returns (ok: bool)
    requires runtimes.Length > 0 && |refs| == |declared|
    requires forall r :: r in declared ==> r.instanceCode in refs && refs[r.instanceCode] == r
    requires forall k :: k in refs ==> refs[k] in declared && refs[k].instanceCode == k
    ensures ok <==> Compiled(declared, runtimes[..]) && WorkspaceNamed(declared, workspace)
  {
    hide CompleteRuntime, Declared, Checked, Compiled;
    ghost var all := runtimes[..];
    NothingChecked(declared);
    var seenSnapshots: set<string> := {};
    for i := 0 to runtimes.Length
      invariant |seenSnapshots| == i && Checked(declared, all[..i])
      invariant seenSnapshots == Elements(Mapped(CompiledKey, all[..i]))
    {
      var runtime := runtimes[i];
      CheckedStep(declared, all, i);
      DeclaredAs(refs, declared, runtime);
      if !CompleteRuntime(runtime) {
        CompiledIsChecked(declared, all);
        return false;
      }
      if runtime.instanceCode in seenSnapshots {
        CompiledIsChecked(declared, all);
        return false;
      }
      seenSnapshots := seenSnapshots + {runtime.instanceCode};
      if runtime.instanceCode !in refs || refs[runtime.instanceCode].code != runtime.code
        || refs[runtime.instanceCode].imageVersion != runtime.imageVersion
      {
        CompiledIsChecked(declared, all);
        return false;
      }
    }
    assert all[..runtimes.Length] == all;
    CompiledIsChecked(declared, all);
    if |seenSnapshots| != |refs| {
      return false;
    }
    ok := workspace in refs;
  }

  lemma NothingChecked(declared: seq<RuntimeRef>)
    ensures Checked(declared, [])
  {
  }

  lemma CompiledIsChecked(declared: seq<RuntimeRef>, runtimes: seq<CompiledRuntime>)
    ensures Compiled(declared, runtimes) <==> runtimes != [] && Checked(declared, runtimes) && |runtimes| == |declared|
  {
  }

  lemma DeclaredAs(refs: map<string, RuntimeRef>, declared: seq<RuntimeRef>, r: CompiledRuntime)
    requires forall r :: r in declared ==> r.instanceCode in refs && refs[r.instanceCode] == r
    requires forall k :: k in refs ==> refs[k] in declared && refs[k].instanceCode == k
    ensures Declared(declared, r) <==>
      r.instanceCode in refs && refs[r.instanceCode].code == r.code
      && refs[r.instanceCode].imageVersion == r.imageVersion
  {
  }

  method CanonicalRuntimes(a: array<CompiledRuntime>) returns (ok: bool)
    modifies a
    ensures ok <==> forall r :: r in old(a[..]) ==> CanonicalRaw(r.adapterSpec).Some?
    ensures ok ==> a[..] == Mapped(CanonRuntime, old(a[..]))
  {
    hide CanonicalRaw;
    for index := 0 to a.Length
      invariant forall j :: 0 <= j < index ==>
        CanonicalRaw(old(a[j]).adapterSpec).Some? && a[j] == CanonRuntime(old(a[j]))
      invariant forall j :: index <= j < a.Length ==> a[j] == old(a[j])
    {
      assert old(a[..])[index] == old(a[index]);
      var normalized := CanonicalRaw(a[index].adapterSpec);
      if normalized.None? {
        return false;
      }
      a[index] := a[index].(adapterSpec := normalized.value);
    }
    return true;
  }

  method CanonicalComponents(a: array<CompiledComponent>) returns (ok: bool)
    modifies a
    ensures ok <==> forall c :: c in old(a[..]) ==> CanonicalRaw(c.resourceSpec).Some?
    ensures ok ==> a[..] == Mapped(CanonComponent, old(a[..]))
  {
    hide CanonicalRaw;
    for index := 0 to a.Length
      invariant forall j :: 0 <= j < index ==>
        CanonicalRaw(old(a[j]).resourceSpec).Some? && a[j] == CanonComponent(old(a[j]))
      invariant forall j :: index <= j < a.Length ==> a[j] == old(a[j])
    {
      assert old(a[..])[index] == old(a[index]);
      var normalized := CanonicalRaw(a[index].resourceSpec);
      if normalized.None? {
        return false;
      }
      a[index] := a[index].(resourceSpec := normalized.value);
    }
    return true;
  }

  method Copied<T>(a: array<T>) returns (b: array<T>)
    ensures fresh(b) && b[..] == a[..]
  {
    b := new T[a.Length](i requires 0 <= i < a.Length reads a => a[i]);
  }

  /**
   * CanonicalSnapshotDigest. itemText is json.Marshal on closure items; digest is encoding and hashing together.
   * It writes to copies only: nothing the caller holds is modified. None is an error.
   */
  method CanonicalSnapshotDigest(snapshot: SnapshotInMemory, digest: Preimage -> string, itemText: Item -> string)
    returns (r: Option<string>)
    ensures r.Some? <==> Accepted(ValueOf(snapshot))
    ensures r.Some? ==> exists p :: IsPreimage(ValueOf(snapshot), p, itemText) && r.value == digest(p)
  {
    hide TrimSpace, Encodable, CanonicalRaw, GoodRefs, Compiled, WorkspaceNamed, CanonRuntime, CanonComponent;
    var spec := snapshot.spec;
    if TrimSpace(spec.id) == "" || !ValidProfile(spec.accessProfile) {
      return None;
    }
    if snapshot.runtimes.Length == 0 {
      NoRuntimes(SpecOf(spec).runtimes);
      assert snapshot.runtimes[..] == [];
      return None;
    }
    if TrimSpace(spec.workspace) == "" {
      return None;
    }
    var ok := ValidateRuntimeRefs(spec.runtimes);
    if !ok {
      return None;
    }
    var refs := DeclaredRuntimes(spec.runtimes);
    ok := CheckCompiled(refs, spec.runtimes[..], snapshot.runtimes, spec.workspace);
    if !ok {
      return None;
    }
    r := DigestCopies(snapshot, digest, itemText);
  }

  lemma NoRuntimes(refs: seq<RuntimeRef>)
    ensures !Compiled(refs, [])
  {
  }

  lemma Built(v: SnapshotValue, p: Preimage, items: seq<Item>, itemText: Item -> string)
    requires p.digest == "" && IsNormal(v.spec, p.spec)
    requires SortedPerm(Mapped(CanonRuntime, v.runtimes), p.runtimes, CompiledKey)
    requires SortedPerm(Mapped(CanonComponent, v.components), p.components, CompiledComponentKey)
    requires SortedPerm(v.privateSidecars, p.privateSidecars, SidecarKey)
    requires SortedPerm(v.imageClosure, items, itemText) && p.imageClosure == Mapped(itemText, items)
    ensures IsPreimage(v, p, itemText)
  {
  }

  /** The canonicalising half: copies, in-place rewriting of the copies, sorting, encoding. */
  method DigestCopies(snapshot: SnapshotInMemory, digest: Preimage -> string, itemText: Item -> string)
    returns (r: Option<string>)
    ensures r.Some? <==> RawJsonReadable(ValueOf(snapshot)) && SpecEncodable(SpecOf(snapshot.spec))
    ensures r.Some? ==> exists p :: IsPreimage(ValueOf(snapshot), p, itemText) && r.value == digest(p)
  {
    hide TrimSpace, Encodable, CanonicalRaw, CanonRuntime, CanonComponent, LinkKey, IsNormal, SortedPerm, IsPreimage;
    hide SpecEncodable, Marshals, Mapped;
    var spec := NormalizeComposition(snapshot.spec);
    var value := Freeze(spec);
    NormalEncodable(SpecOf(snapshot.spec), value);
    var components := Copied(snapshot.components);
    var runtimes := Copied(snapshot.runtimes);
    var ok := CanonicalRuntimes(runtimes);
    if !ok {
      return None;
    }
    ok := CanonicalComponents(components);
    if !ok {
      return None;
    }
    SortSlice(runtimes, CompiledKey);
    SortSlice(components, CompiledComponentKey);
    var sidecars := SortedCopy(snapshot.privateSidecars, SidecarKey);
    var closure := SortedCopy(snapshot.imageClosure, itemText);
    if !Marshals(value) {
      return None;
    }
    var p: Preimage := Snapshot("", value, runtimes[..], components[..], sidecars[..], Mapped(itemText, closure[..]));
    Built(ValueOf(snapshot), p, closure[..], itemText);
    r := Some(digest(p));
  }
}
