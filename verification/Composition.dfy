/** Sandbox composition specs: validation and the canonical form behind CanonicalDigest. */
module Composition {
  import opened Json
  import opened Text
  import opened Sorting

  datatype RuntimeRef = RuntimeRef(instanceCode: string, code: string, imageVersion: string, params: Json)

  datatype ComponentRef = ComponentRef(code: string, selection: string, params: Json)

  datatype Link = Link(
    sourceComponent: string, sourceEndpoint: string, targetComponent: string, targetEndpoint: string, protocol: string,
    requiredAtStart: bool, accessScope: string, configBinding: string)

  datatype InitAsset = InitAsset(
    name: string, sourceRef: string, targetRuntimeInstance: string, targetDomain: string, expectedSHA256: string,
    applyPhase: string)

  /** A spec over any representation of its four unordered lists: R of runtimes, C of components, L of links. */
  datatype Spec<R, C, L> = Spec(
    id: string, runtimes: R, workspace: string, infra: C, tools: C, links: L, accessProfile: string,
    resourceProfile: map<string, string>, networkProfile: Json, initAssets: seq<InitAsset>, initCodeRef: string,
    initScriptRef: string)

  /** As the caller holds it, with slices that could be shared. */
  type SpecInMemory = Spec<array<RuntimeRef>, array<ComponentRef>, array<Link>>

  /** As a value. */
  type SpecValue = Spec<seq<RuntimeRef>, seq<ComponentRef>, seq<Link>>

  ghost function SpecOf(s: SpecInMemory): SpecValue
    reads s.runtimes, s.infra, s.tools, s.links
  {
    Spec(
      s.id, s.runtimes[..], s.workspace, s.infra[..], s.tools[..], s.links[..], s.accessProfile, s.resourceProfile,
      s.networkProfile, s.initAssets, s.initCodeRef, s.initScriptRef)
  }

  predicate ValidProfile(p: string) {
    p in {"experiment", "contest-solve", "contest-battle", "vulnerability-prevalidate", "judge-private"}
  }

  // ---- sort keys ----

  const NUL: string := ['\0']

  function RuntimeKey(r: RuntimeRef): string { r.instanceCode }

  function ComponentKey(c: ComponentRef): string { c.code }

  function LinkKey(l: Link): string {
    l.sourceComponent + NUL + l.sourceEndpoint + NUL + l.targetComponent + NUL + l.targetEndpoint
  }

  // ---- validation ----

  function TrimmedInstance(r: RuntimeRef): string {
    TrimSpace(r.instanceCode)
  }

  predicate Complete(r: RuntimeRef) {
    TrimSpace(r.instanceCode) != "" && TrimSpace(r.code) != "" && TrimSpace(r.imageVersion) != ""
  }

  /** Some runtime, each complete, and no instance twice once names are trimmed. */
  ghost predicate GoodRefs(runtimes: seq<RuntimeRef>) {
    runtimes != [] && (forall r :: r in runtimes ==> Complete(r)) && DistinctKeys(runtimes, TrimmedInstance)
  }

  /** validateRuntimeRefs: true when it returns no error. */
  method ValidateRuntimeRefs(runtimes: array<RuntimeRef>) returns (ok: bool)
    ensures ok <==> GoodRefs(runtimes[..])
  {
    hide TrimSpace;
    if runtimes.Length == 0 {
      return false;
    }
    var seen: set<string> := {};
    for i := 0 to runtimes.Length
      invariant forall j :: 0 <= j < i ==> Complete(runtimes[j]) && TrimmedInstance(runtimes[j]) in seen
      invariant forall s :: s in seen ==> exists j :: 0 <= j < i && TrimmedInstance(runtimes[j]) == s
      invariant forall j, k :: 0 <= j < k < i ==> TrimmedInstance(runtimes[j]) != TrimmedInstance(runtimes[k])
    {
      assert runtimes[i] in runtimes[..];
      var instance := TrimSpace(runtimes[i].instanceCode);
      if instance == "" || TrimSpace(runtimes[i].code) == "" || TrimSpace(runtimes[i].imageVersion) == "" {
        return false;
      }
      if instance in seen {
        ghost var j :| 0 <= j < i && TrimmedInstance(runtimes[j]) == instance;
        assert runtimes[..][j] == runtimes[j] && runtimes[..][i] == runtimes[i];
        return false;
      }
      seen := seen + {instance};
    }
    return true;
  }

  /** The trimmed workspace name is the trimmed name of a runtime. */
  ghost predicate WorkspaceDeclared(runtimes: seq<RuntimeRef>, workspace: string) {
    exists r :: r in runtimes && TrimmedInstance(r) == TrimSpace(workspace)
  }

  /** ValidateCompositionRuntimeSelection */
  method ValidateSelection(runtimes: array<RuntimeRef>, workspace: string) returns (ok: bool)
    ensures ok <==> GoodRefs(runtimes[..]) && WorkspaceDeclared(runtimes[..], workspace)
  {
    hide TrimSpace;
    ok := ValidateRuntimeRefs(runtimes);
    if !ok {
      return;
    }
    var workspaceInstance := TrimSpace(workspace);
    for i := 0 to runtimes.Length
      invariant forall j :: 0 <= j < i ==> TrimmedInstance(runtimes[j]) != workspaceInstance
    {
      if TrimSpace(runtimes[i].instanceCode) == workspaceInstance {
        assert runtimes[i] in runtimes[..] && TrimmedInstance(runtimes[i]) == TrimSpace(workspace);
        return true;
      }
    }
    return false;
  }

  // ---- normalisation ----

  /** n is a result that normalizeComposition may give for v: the unordered lists sorted, the workspace name trimmed. */
  ghost predicate IsNormal(v: SpecValue, n: SpecValue) {
    && n == v.(runtimes := n.runtimes, workspace := TrimSpace(v.workspace),
         infra := n.infra, tools := n.tools, links := n.links)
    && SortedPerm(v.runtimes, n.runtimes, RuntimeKey)
    && SortedPerm(v.infra, n.infra, ComponentKey)
    && SortedPerm(v.tools, n.tools, ComponentKey)
    && SortedPerm(v.links, n.links, LinkKey)
  }

  /** Copy, then sort the copy: the caller's slice keeps its order. */
  method SortedCopy<T>(a: array<T>, key: T -> string) returns (b: array<T>)
    ensures fresh(b) && SortedPerm(a[..], b[..], key)
  {
    b := new T[a.Length](i requires 0 <= i < a.Length reads a => a[i]);
    assert b[..] == a[..];
    SortSlice(b, key);
  }

  /** normalizeComposition. Nothing that existed before is written. */
  method NormalizeComposition(spec: SpecInMemory) returns (out: SpecInMemory)
    ensures IsNormal(SpecOf(spec), SpecOf(out))
    ensures fresh(out.runtimes) && fresh(out.infra) && fresh(out.tools) && fresh(out.links)
  {
    var infra := SortedCopy(spec.infra, ComponentKey);
    var tools := SortedCopy(spec.tools, ComponentKey);
    var links := SortedCopy(spec.links, LinkKey);
    var runtimes := SortedCopy(spec.runtimes, RuntimeKey);
    out := spec.(workspace := TrimSpace(spec.workspace), runtimes := runtimes,
        infra := infra, tools := tools, links := links);
  }

  /** The endpoints of a link, in the order in which links are compared. */
  function EndpointText(l: Link): string {
    l.sourceComponent + ['\0'] + l.sourceEndpoint + ['\0'] + l.targetComponent + ['\0'] + l.targetEndpoint
  }

  /** Runtimes by instance, components by code, links by endpoints. */
  ghost predicate InOrder(n: SpecValue) {
    && (forall i, j :: 0 <= i < j < |n.runtimes| ==> StrLe(n.runtimes[i].instanceCode, n.runtimes[j].instanceCode))
    && (forall i, j :: 0 <= i < j < |n.infra| ==> StrLe(n.infra[i].code, n.infra[j].code))
    && (forall i, j :: 0 <= i < j < |n.tools| ==> StrLe(n.tools[i].code, n.tools[j].code))
    && (forall i, j :: 0 <= i < j < |n.links| ==> StrLe(EndpointText(n.links[i]), EndpointText(n.links[j])))
  }

  /** A canonical form is the same spec with its lists in order and the workspace name trimmed. */
  lemma NormalInOrder(v: SpecValue, n: SpecValue)
    requires IsNormal(v, n)
    ensures InOrder(n) && SameUpToOrder(v, n) && n.workspace == TrimSpace(v.workspace)
  {
    TrimSpaceFixed(n.workspace);
    hide TrimSpace, StrLe;
    forall i, j | 0 <= i < j < |n.runtimes| ensures StrLe(n.runtimes[i].instanceCode, n.runtimes[j].instanceCode) {
      assert StrLe(RuntimeKey(n.runtimes[i]), RuntimeKey(n.runtimes[j]));
    }
    forall i, j | 0 <= i < j < |n.infra| ensures StrLe(n.infra[i].code, n.infra[j].code) {
      assert StrLe(ComponentKey(n.infra[i]), ComponentKey(n.infra[j]));
    }
    forall i, j | 0 <= i < j < |n.tools| ensures StrLe(n.tools[i].code, n.tools[j].code) {
      assert StrLe(ComponentKey(n.tools[i]), ComponentKey(n.tools[j]));
    }
    forall i, j | 0 <= i < j < |n.links| ensures StrLe(EndpointText(n.links[i]), EndpointText(n.links[j])) {
      assert StrLe(LinkKey(n.links[i]), LinkKey(n.links[j]));
    }
  }

  /** The condition for a stable canonical form, said without sort keys. */
  lemma SpecKeysIff(v: SpecValue)
    ensures KeyFunctional(v.runtimes, RuntimeKey) <==>
      forall r, s :: r in v.runtimes && s in v.runtimes && r.instanceCode == s.instanceCode ==> r == s
    ensures KeyFunctional(v.infra, ComponentKey) <==>
      forall c, d :: c in v.infra && d in v.infra && c.code == d.code ==> c == d
    ensures KeyFunctional(v.tools, ComponentKey) <==>
      forall c, d :: c in v.tools && d in v.tools && c.code == d.code ==> c == d
    ensures KeyFunctional(v.links, LinkKey) <==>
      forall l, m :: l in v.links && m in v.links && EndpointText(l) == EndpointText(m) ==> l == m
  {
    assert forall r :: RuntimeKey(r) == r.instanceCode;
    assert forall c :: ComponentKey(c) == c.code;
    assert forall l :: LinkKey(l) == EndpointText(l);
    hide LinkKey, EndpointText;
  }

  predicate NulFree(l: Link) {
    '\0' !in l.sourceComponent && '\0' !in l.sourceEndpoint && '\0' !in l.targetComponent && '\0' !in l.targetEndpoint
  }

  /** Without NUL characters the text of the endpoints determines the endpoints. */
  lemma EndpointTextIff(l: Link, m: Link)
    requires NulFree(l) && NulFree(m)
    ensures EndpointText(l) == EndpointText(m) <==>
      && l.sourceComponent == m.sourceComponent && l.sourceEndpoint == m.sourceEndpoint
      && l.targetComponent == m.targetComponent && l.targetEndpoint == m.targetEndpoint
  {
    var a := [l.sourceComponent, l.sourceEndpoint, l.targetComponent, l.targetEndpoint];
    var b := [m.sourceComponent, m.sourceEndpoint, m.targetComponent, m.targetEndpoint];
    EndpointJoin(l);
    EndpointJoin(m);
    SplitJoin(a, '\0');
    SplitJoin(b, '\0');
    if EndpointText(l) == EndpointText(m) {
      assert a == b;
      assert a[0] == b[0] && a[1] == b[1] && a[2] == b[2] && a[3] == b[3];
    }
  }

  lemma EndpointJoin(l: Link)
    ensures EndpointText(l) ==
      Join([l.sourceComponent, l.sourceEndpoint, l.targetComponent, l.targetEndpoint], ['\0'])
  {
    var sep := ['\0'];
    JoinHead(l.targetComponent, [l.targetEndpoint], sep);
    JoinHead(l.sourceEndpoint, [l.targetComponent, l.targetEndpoint], sep);
    JoinHead(l.sourceComponent, [l.sourceEndpoint, l.targetComponent, l.targetEndpoint], sep);
    assert [l.targetComponent, l.targetEndpoint] == [l.targetComponent] + [l.targetEndpoint];
    assert [l.sourceEndpoint, l.targetComponent, l.targetEndpoint]
      == [l.sourceEndpoint] + [l.targetComponent, l.targetEndpoint];
    assert [l.sourceComponent, l.sourceEndpoint, l.targetComponent, l.targetEndpoint]
      == [l.sourceComponent] + [l.sourceEndpoint, l.targetComponent, l.targetEndpoint];
    assert Join([l.targetEndpoint], sep) == l.targetEndpoint;
  }

  lemma JoinHead(p: string, rest: seq<string>, sep: string)
    requires rest != []
    ensures Join([p] + rest, sep) == p + sep + Join(rest, sep)
  {
    assert ([p] + rest)[1..] == rest;
  }

  /** Elements that share a sort key are equal, in each of the four lists. */
  ghost predicate KeysIdentify(v: SpecValue) {
    && KeyFunctional(v.runtimes, RuntimeKey) && KeyFunctional(v.infra, ComponentKey)
    && KeyFunctional(v.tools, ComponentKey) && KeyFunctional(v.links, LinkKey)
  }

  /** The same spec up to the order of its unordered lists and the spaces around the workspace name. */
  ghost predicate SameUpToOrder(v: SpecValue, w: SpecValue) {
    && w == v.(runtimes := w.runtimes, workspace := w.workspace, infra := w.infra, tools := w.tools, links := w.links)
    && TrimSpace(v.workspace) == TrimSpace(w.workspace)
    && multiset(v.runtimes) == multiset(w.runtimes) && multiset(v.infra) == multiset(w.infra)
    && multiset(v.tools) == multiset(w.tools) && multiset(v.links) == multiset(w.links)
  }

  lemma NormalAgree(v: SpecValue, w: SpecValue, n: SpecValue, m: SpecValue)
    requires SameUpToOrder(v, w) && KeysIdentify(v) && IsNormal(v, n) && IsNormal(w, m)
    ensures n == m
  {
    hide TrimSpace, LinkKey;
    SortsAgree(v.runtimes, w.runtimes, n.runtimes, m.runtimes, RuntimeKey);
    SortsAgree(v.infra, w.infra, n.infra, m.infra, ComponentKey);
    SortsAgree(v.tools, w.tools, n.tools, m.tools, ComponentKey);
    SortsAgree(v.links, w.links, n.links, m.links, LinkKey);
  }

  lemma SortsAgree<T>(s: seq<T>, t: seq<T>, r1: seq<T>, r2: seq<T>, key: T -> string)
    requires multiset(s) == multiset(t) && SortedPerm(s, r1, key) && SortedPerm(t, r2, key) && KeyFunctional(s, key)
    ensures r1 == r2
  {
    MembersOfPerm(s, r1);
    SortUnique(r1, r2, key);
  }

  function Normal(v: SpecValue): (n: SpecValue)
    ensures IsNormal(v, n)
  {
    v.(
      runtimes := InsertionSort(v.runtimes, RuntimeKey), workspace := TrimSpace(v.workspace),
      infra := InsertionSort(v.infra, ComponentKey), tools := InsertionSort(v.tools, ComponentKey),
      links := InsertionSort(v.links, LinkKey))
  }

  /**
   * The exact condition for a stable canonical form. The sort is unstable, so two different components with one code,
   * or two different links with one key, leave two canonical forms for the very same spec.
   */
  lemma NormalUniqueIff(v: SpecValue)
    ensures (forall n, m :: IsNormal(v, n) && IsNormal(v, m) ==> n == m) <==> KeysIdentify(v)
  {
    hide TrimSpace, LinkKey, InsertionSort;
    if KeysIdentify(v) {
      forall n, m | IsNormal(v, n) && IsNormal(v, m) ensures n == m { NormalAgree(v, v, n, m); }
    } else if !KeyFunctional(v.runtimes, RuntimeKey) {
      var a, b := TwoSorts(v.runtimes, RuntimeKey);
      TwoNormals(v, Normal(v).(runtimes := a), Normal(v).(runtimes := b));
    } else if !KeyFunctional(v.infra, ComponentKey) {
      var a, b := TwoSorts(v.infra, ComponentKey);
      TwoNormals(v, Normal(v).(infra := a), Normal(v).(infra := b));
    } else if !KeyFunctional(v.tools, ComponentKey) {
      var a, b := TwoSorts(v.tools, ComponentKey);
      TwoNormals(v, Normal(v).(tools := a), Normal(v).(tools := b));
    } else {
      var a, b := TwoSorts(v.links, LinkKey);
      TwoNormals(v, Normal(v).(links := a), Normal(v).(links := b));
    }
  }

  lemma TwoNormals(v: SpecValue, n: SpecValue, m: SpecValue)
    requires IsNormal(v, n) && IsNormal(v, m) && n != m
    ensures !(forall n, m :: IsNormal(v, n) && IsNormal(v, m) ==> n == m)
  {
  }

  lemma {:induction false} TwoSorts<T>(s: seq<T>, key: T -> string) returns (a: seq<T>, b: seq<T>)
    requires !KeyFunctional(s, key)
    ensures SortedPerm(s, a, key) && SortedPerm(s, b, key) && a != b
  {
    var x, y :| x in s && y in s && key(x) == key(y) && x != y;
    a, b := TwoResults(s, x, y, key);
  }

  // ---- CanonicalDigest ----

  /** json.Marshal of the spec succeeds. */
  ghost predicate SpecEncodable(v: SpecValue) {
    && Encodable(v.networkProfile) && (forall r :: r in v.runtimes ==> Encodable(r.params))
    && (forall c :: c in v.infra ==> Encodable(c.params)) && (forall c :: c in v.tools ==> Encodable(c.params))
  }

  /** CanonicalDigest returns a digest. */
  ghost predicate SpecAccepted(v: SpecValue) {
    && TrimSpace(v.id) != "" && ValidProfile(v.accessProfile) && TrimSpace(v.workspace) != ""
    && GoodRefs(v.runtimes) && WorkspaceDeclared(v.runtimes, v.workspace) && SpecEncodable(v)
  }

  /** Reads the slices back as a value. */
  method Freeze(s: SpecInMemory) returns (v: SpecValue)
    ensures v == SpecOf(s)
  {
    v := Spec(
      s.id, s.runtimes[..], s.workspace, s.infra[..], s.tools[..], s.links[..], s.accessProfile, s.resourceProfile,
      s.networkProfile, s.initAssets, s.initCodeRef, s.initScriptRef);
  }

  /** json.Marshal either encodes the whole spec or fails. */
  predicate Marshals(v: SpecValue)
    ensures Marshals(v) <==> SpecEncodable(v)
  {
    && Encodable(v.networkProfile) && (forall i :: 0 <= i < |v.runtimes| ==> Encodable(v.runtimes[i].params))
    && (forall i :: 0 <= i < |v.infra| ==> Encodable(v.infra[i].params))
    && (forall i :: 0 <= i < |v.tools| ==> Encodable(v.tools[i].params))
  }

  lemma NormalEncodable(v: SpecValue, n: SpecValue)
    requires IsNormal(v, n)
    ensures SpecEncodable(v) <==> SpecEncodable(n)
  {
    hide TrimSpace, Encodable;
    MembersOfPerm(v.runtimes, n.runtimes);
    MembersOfPerm(v.infra, n.infra);
    MembersOfPerm(v.tools, n.tools);
  }

  /** CanonicalDigest, with encoding and hashing together as a parameter; None is an error. */
  method CanonicalDigest(spec: SpecInMemory, digest: SpecValue -> string) returns (r: Option<string>)
    ensures r.Some? <==> SpecAccepted(SpecOf(spec))
    ensures r.Some? ==> exists n :: IsNormal(SpecOf(spec), n) && r.value == digest(n)
  {
    hide TrimSpace, Encodable;
    if TrimSpace(spec.id) == "" || !ValidProfile(spec.accessProfile) || TrimSpace(spec.workspace) == "" {
      return None;
    }
    var ok := ValidateSelection(spec.runtimes, spec.workspace);
    if !ok {
      return None;
    }
    var canonical := NormalizeComposition(spec);
    var value := Freeze(canonical);
    NormalEncodable(SpecOf(spec), value);
    if !Marshals(value) {
      return None;
    }
    r := Some(digest(value));
  }

  /** Equal declarations give equal digests, when sort keys identify elements. */
  lemma DigestIgnoresOrder(v: SpecValue, w: SpecValue)
    requires SameUpToOrder(v, w)
    ensures SpecAccepted(v) <==> SpecAccepted(w)
    ensures KeysIdentify(v) ==> forall n, m :: IsNormal(v, n) && IsNormal(w, m) ==> n == m
  {
    hide TrimSpace, Encodable, LinkKey;
    if SpecAccepted(v) { AcceptedSame(v, w); }
    if SpecAccepted(w) { AcceptedSame(w, v); }
    if KeysIdentify(v) {
      forall n, m | IsNormal(v, n) && IsNormal(w, m) ensures n == m { NormalAgree(v, w, n, m); }
    }
  }

  /**
   * Distinct component codes and distinct endpoints, without NUL characters, are enough: then the order of an accepted
   * spec's lists never reaches its canonical form.
   */
  lemma DistinctIgnoresOrder(v: SpecValue, w: SpecValue, n: SpecValue, m: SpecValue)
    requires SpecAccepted(v) && SameUpToOrder(v, w) && IsNormal(v, n) && IsNormal(w, m)
    requires forall i, j :: 0 <= i < j < |v.infra| ==> v.infra[i].code != v.infra[j].code
    requires forall i, j :: 0 <= i < j < |v.tools| ==> v.tools[i].code != v.tools[j].code
    requires forall l :: l in v.links ==> NulFree(l)
    requires forall i, j :: 0 <= i < j < |v.links| ==>
      v.links[i].sourceComponent != v.links[j].sourceComponent || v.links[i].sourceEndpoint != v.links[j].sourceEndpoint
      || v.links[i].targetComponent != v.links[j].targetComponent
      || v.links[i].targetEndpoint != v.links[j].targetEndpoint
    ensures SpecAccepted(w) && n == m
  {
    AcceptedSame(v, w);
    RawInstancesDistinct(v.runtimes);
    SpecKeysIff(v);
    hide TrimSpace, Encodable, LinkKey, SpecAccepted, EndpointText;
    forall l, k | l in v.links && k in v.links && EndpointText(l) == EndpointText(k) ensures l == k {
      EndpointTextIff(l, k);
    }
    NormalAgree(v, w, n, m);
  }

  lemma AcceptedSame(v: SpecValue, w: SpecValue)
    requires SameUpToOrder(v, w) && SpecAccepted(v)
    ensures SpecAccepted(w)
  {
    hide TrimSpace, Encodable;
    MembersOfPerm(v.runtimes, w.runtimes);
    MembersOfPerm(v.infra, w.infra);
    MembersOfPerm(v.tools, w.tools);
    GoodRefsPerm(v.runtimes, w.runtimes);
  }

  lemma GoodRefsPerm(s: seq<RuntimeRef>, t: seq<RuntimeRef>)
    requires multiset(s) == multiset(t) && GoodRefs(s)
    ensures GoodRefs(t)
  {
    hide TrimSpace;
    MembersOfPerm(s, t);
    PermDistinctKeys(s, t, TrimmedInstance);
  }

  /** Trimmed names that differ were different to begin with. */
  lemma RawInstancesDistinct(runtimes: seq<RuntimeRef>)
    requires GoodRefs(runtimes)
    ensures DistinctKeys(runtimes, RuntimeKey) && KeyFunctional(runtimes, RuntimeKey)
  {
  }
}
