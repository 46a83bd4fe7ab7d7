/** What deleting dotted paths from a question body means. */
module FacePaths {
  import opened Json
  import opened Text

  /** The object keys along a path; array steps do not count. */
  function KeysOf(path: seq<Step>): seq<string> {
    if path == [] then []
    else (match path[0] case Key(k) => [k] case Index(_) => []) + KeysOf(path[1..])
  }

  /** parts occurs in keys as a subsequence, matched greedily from the left. */
  predicate Subseq(parts: seq<string>, keys: seq<string>) {
    parts == [] || (keys != [] && Subseq(if parts[0] == keys[0] then parts[1..] else parts, keys[1..]))
  }

  /** at lists strictly increasing positions of keys that spell out parts. */
  ghost predicate Embeds(parts: seq<string>, keys: seq<string>, at: seq<nat>) {
    && |at| == |parts|
    && (forall i :: 0 <= i < |at| ==> at[i] < |keys| && keys[at[i]] == parts[i])
    && (forall i, j :: 0 <= i < j < |at| ==> at[i] < at[j])
  }

  /** Greedy matching finds a subsequence exactly when there is one. */
  lemma SubseqIffEmbeds(parts: seq<string>, keys: seq<string>)
    ensures Subseq(parts, keys) <==> exists at :: Embeds(parts, keys, at)
  {
    if Subseq(parts, keys) {
      var at := Embedding(parts, keys);
    }
    if at :| Embeds(parts, keys, at) {
      EmbedsSubseq(parts, keys, at);
    }
  }

  lemma {:induction false} Embedding(parts: seq<string>, keys: seq<string>) returns (at: seq<nat>)
    requires Subseq(parts, keys)
    ensures Embeds(parts, keys, at)
    decreases keys
  {
    if parts == [] {
      at := [];
    } else if parts[0] == keys[0] {
      var rest := Embedding(parts[1..], keys[1..]);
      var shifted := Shifted(parts[1..], keys, rest);
      at := [0] + shifted;
      assert forall i :: 0 < i < |at| ==> at[i] == shifted[i - 1] && parts[i] == parts[1..][i - 1];
    } else {
      var rest := Embedding(parts, keys[1..]);
      at := Shifted(parts, keys, rest);
    }
  }

  lemma Shifted(parts: seq<string>, keys: seq<string>, rest: seq<nat>) returns (at: seq<nat>)
    requires keys != [] && Embeds(parts, keys[1..], rest)
    ensures Embeds(parts, keys, at) && forall i :: 0 <= i < |at| ==> at[i] > 0
  {
    at := seq(|rest|, i requires 0 <= i < |rest| => rest[i] + 1);
    forall i | 0 <= i < |at| ensures at[i] < |keys| && keys[at[i]] == parts[i] {
      assert keys[1..][rest[i]] == parts[i];
    }
  }

  lemma {:induction false} EmbedsSubseq(parts: seq<string>, keys: seq<string>, at: seq<nat>)
    requires Embeds(parts, keys, at)
    ensures Subseq(parts, keys)
    decreases keys
  {
    if parts != [] {
      assert keys[at[0]] == parts[0];
      var hit := parts[0] == keys[0];
      var tail := if hit then at[1..] else at;
      assert hit || at[0] > 0;
      var shifted := seq(|tail|, i requires 0 <= i < |tail| => if tail[i] > 0 then tail[i] - 1 else 0);
      assert forall i :: 0 <= i < |tail| ==> tail[i] > 0;
      EmbedsSubseq(if hit then parts[1..] else parts, keys[1..], shifted);
    }
  }

  lemma {:induction false} SubseqTail(parts: seq<string>, keys: seq<string>)
    requires parts != [] && Subseq(parts, keys)
    ensures Subseq(parts[1..], keys)
    decreases |keys|, 1
  {
    if parts[0] == keys[0] {
      SubseqWeaken(parts[1..], keys);
    } else {
      SubseqTail(parts, keys[1..]);
      SubseqWeaken(parts[1..], keys);
    }
  }

  lemma {:induction false} SubseqWeaken(parts: seq<string>, keys: seq<string>)
    requires keys != [] && Subseq(parts, keys[1..])
    ensures Subseq(parts, keys)
    decreases |keys|, 0
  {
    if parts != [] && parts[0] == keys[0] {
      SubseqTail(parts, keys[1..]);
    }
  }

  lemma {:induction false} SubseqTrans(a: seq<string>, b: seq<string>, c: seq<string>)
    requires Subseq(a, b) && Subseq(b, c)
    ensures Subseq(a, c)
    decreases c, b
  {
    if a != [] {
      if b[0] == c[0] {
        SubseqTrans(if a[0] == b[0] then a[1..] else a, b[1..], c[1..]);
        if a[0] != b[0] { SubseqWeaken(a, c); }
      } else {
        SubseqTrans(a, b, c[1..]);
        SubseqWeaken(a, c);
      }
    }
  }

  /** One deletion of a path, visiting each child once. */
  function Prune(j: Json, parts: seq<string>): Json
    requires parts != []
  {
    match j
    case Scalar(_) => j
    case Arr(items) => Arr(seq(|items|, i requires 0 <= i < |items| => Prune(items[i], parts)))
    case Obj(fields) =>
      Obj(map k | k in fields && [k] != parts :: Prune(fields[k], if k == parts[0] then parts[1..] else parts))
  }

  /** Exact meaning of deletion: a node disappears iff the parts are a subsequence of its key path. */
  lemma {:induction false} PruneMeaning(j: Json, parts: seq<string>, path: seq<Step>)
    requires parts != []
    ensures At(Prune(j, parts), path) == if Subseq(parts, KeysOf(path)) then None else At(j, path)
    decreases path
  {
    if path != [] {
      match j
      case Scalar(_) =>
      case Arr(items) =>
        if path[0].Index? && path[0].i < |items| {
          assert KeysOf(path) == KeysOf(path[1..]);
          PruneMeaning(items[path[0].i], parts, path[1..]);
        }
      case Obj(fields) =>
        if path[0].Key? && path[0].name in fields {
          var k := path[0].name;
          assert KeysOf(path)[1..] == KeysOf(path[1..]);
          if [k] != parts {
            PruneMeaning(fields[k], if k == parts[0] then parts[1..] else parts, path[1..]);
          }
        }
    }
  }

  /** A path that contains an already deleted one as a subsequence deletes nothing more. */
  lemma PruneAbsorbs(j: Json, parts: seq<string>, longer: seq<string>)
    requires parts != [] && longer != [] && Subseq(parts, longer)
    ensures Prune(Prune(j, parts), longer) == Prune(j, parts)
  {
    var a, b := Prune(Prune(j, parts), longer), Prune(j, parts);
    forall path ensures At(a, path) == At(b, path) {
      PruneMeaning(b, longer, path);
      PruneMeaning(j, parts, path);
      if Subseq(longer, KeysOf(path)) { SubseqTrans(parts, longer, KeysOf(path)); }
    }
    Extensional(a, b);
  }

  /** The second visit of the matched child changes nothing. */
  lemma SecondPassIsNoOp(child: Json, parts: seq<string>)
    requires |parts| > 1
    ensures Prune(Prune(child, parts[1..]), parts) == Prune(child, parts[1..])
  {
    SubseqRefl(parts);
    SubseqTail(parts, parts);
    PruneAbsorbs(child, parts[1..], parts);
  }

  lemma {:induction false} SubseqRefl(parts: seq<string>)
    ensures Subseq(parts, parts)
  {
    if parts != [] { SubseqRefl(parts[1..]); }
  }

  // ---- lists of paths ----

  /** Deleting a list of paths one after the other; an empty path deletes nothing. */
  function StripAll(j: Json, paths: seq<seq<string>>): Json
    decreases |paths|
  {
    if paths == [] then j
    else StripAll(if paths[0] == [] then j else Prune(j, paths[0]), paths[1..])
  }

  ghost predicate Doomed(paths: seq<seq<string>>, path: seq<Step>) {
    exists p :: p in paths && p != [] && Subseq(p, KeysOf(path))
  }

  /** Stripping keeps exactly the nodes that every path keeps, with their shape. */
  lemma {:induction false} StripMeaning(j: Json, paths: seq<seq<string>>, path: seq<Step>)
    ensures At(StripAll(j, paths), path) == if Doomed(paths, path) then None else At(j, path)
    decreases |paths|
  {
    if paths != [] {
      var next := if paths[0] == [] then j else Prune(j, paths[0]);
      StripMeaning(next, paths[1..], path);
      if paths[0] != [] { PruneMeaning(j, paths[0], path); }
      assert forall p :: p in paths <==> p == paths[0] || p in paths[1..];
    }
  }

  /** Stripping again with paths from the same set changes nothing. */
  lemma StripAbsorbs(j: Json, paths: seq<seq<string>>, again: seq<seq<string>>)
    requires forall p :: p in again && p != [] ==> p in paths
    ensures StripAll(StripAll(j, paths), again) == StripAll(j, paths)
  {
    var a, b := StripAll(StripAll(j, paths), again), StripAll(j, paths);
    forall path ensures At(a, path) == At(b, path) {
      StripMeaning(b, again, path);
      StripMeaning(j, paths, path);
    }
    Extensional(a, b);
  }

  /** Only the set of non-empty paths matters: neither order nor repetition does. */
  lemma StripIgnoresOrder(j: Json, paths: seq<seq<string>>, others: seq<seq<string>>)
    requires forall p :: p != [] ==> (p in paths <==> p in others)
    ensures StripAll(j, paths) == StripAll(j, others)
  {
    var a, b := StripAll(j, paths), StripAll(j, others);
    forall path ensures At(a, path) == At(b, path) {
      StripMeaning(j, paths, path);
      StripMeaning(j, others, path);
    }
    Extensional(a, b);
  }

  lemma {:induction false} StripAppend(j: Json, paths: seq<seq<string>>, more: seq<seq<string>>)
    ensures StripAll(j, paths + more) == StripAll(StripAll(j, paths), more)
    decreases |paths|
  {
    if paths == [] {
      assert paths + more == more;
    } else {
      assert (paths + more)[1..] == paths[1..] + more;
      StripAppend(if paths[0] == [] then j else Prune(j, paths[0]), paths[1..], more);
    }
  }

  lemma {:induction false} PruneEncodable(j: Json, parts: seq<string>)
    requires parts != [] && Encodable(j)
    ensures Encodable(Prune(j, parts))
  {
    match j
    case Scalar(_) =>
    case Arr(items) =>
      forall i | 0 <= i < |items| ensures Encodable(Prune(items[i], parts)) { PruneEncodable(items[i], parts); }
    case Obj(fields) =>
      forall k | k in fields && [k] != parts
        ensures Encodable(Prune(fields[k], if k == parts[0] then parts[1..] else parts))
      {
        PruneEncodable(fields[k], if k == parts[0] then parts[1..] else parts);
      }
  }

  lemma {:induction false} StripEncodable(j: Json, paths: seq<seq<string>>)
    requires Encodable(j)
    ensures Encodable(StripAll(j, paths))
    decreases |paths|
  {
    if paths != [] {
      if paths[0] != [] { PruneEncodable(j, paths[0]); }
      StripEncodable(if paths[0] == [] then j else Prune(j, paths[0]), paths[1..]);
    }
  }

  // ---- dotted paths ----

  /** A name that a dotted path can mention. */
  predicate Nameable(part: string) {
    part != "" && Trimmed(part) && '.' !in part
  }

  /** The non-blank pieces, trimmed. */
  function Clean(raw: seq<string>): (parts: seq<string>)
    ensures forall p :: p in parts ==> p != "" && Trimmed(p)
    ensures (forall r :: r in raw ==> '.' !in r) ==> forall p :: p in parts ==> Nameable(p)
  {
    if raw == [] then []
    else (if TrimSpace(raw[0]) == "" then [] else [TrimSpace(raw[0])]) + Clean(raw[1..])
  }

  /** Pieces are cleaned one by one, and kept in order. */
  lemma {:induction false} CleanAppend(a: seq<string>, b: seq<string>)
    ensures Clean(a + b) == Clean(a) + Clean(b)
    ensures |a| == 1 ==> Clean(a) == if TrimSpace(a[0]) == "" then [] else [TrimSpace(a[0])]
    decreases |a|
  {
    hide TrimSpace;
    if a == [] {
      assert a + b == b;
    } else {
      assert (a + b)[0] == a[0] && (a + b)[1..] == a[1..] + b;
      CleanAppend(a[1..], b);
    }
  }

  /** What splitPath yields. */
  function PathParts(path: string): (parts: seq<string>)
    ensures forall p :: p in parts ==> Nameable(p)
  {
    Clean(Split(TrimSpace(path), '.'))
  }

  /** splitPath inverts joining with dots, so every list of nameable parts can be asked for. */
  lemma PathPartsOfJoin(parts: seq<string>)
    requires forall p :: p in parts ==> Nameable(p)
    ensures PathParts(Join(parts, ".")) == parts
  {
    if parts == [] {
      assert Split("", '.') == [""];
    } else {
      JoinTrimmed(parts);
      TrimSpaceFixed(Join(parts, "."));
      SplitJoin(parts, '.');
      CleanFixed(parts);
    }
  }

  lemma {:induction false} JoinTrimmed(parts: seq<string>)
    requires parts != [] && forall p :: p in parts ==> Nameable(p)
    ensures Join(parts, ".") != "" && Trimmed(Join(parts, "."))
  {
    assert Nameable(parts[0]);
    if |parts| > 1 {
      JoinTrimmed(parts[1..]);
      var rest := Join(parts[1..], ".");
      assert Join(parts, ".") == parts[0] + "." + rest;
    }
  }

  lemma {:induction false} CleanFixed(parts: seq<string>)
    requires forall p :: p in parts ==> Nameable(p)
    ensures Clean(parts) == parts
  {
    hide TrimSpace;
    if parts != [] {
      assert Nameable(parts[0]);
      TrimSpaceFixed(parts[0]);
      CleanFixed(parts[1..]);
    }
  }

  // ---- faces ----

  const DEFAULT_SENSITIVE_PATHS := [
    "answer", "answers", "explanation", "correct_answer", "solution", "analysis.answer", "judge_config",
    "judge_config.testcases", "judge_config.hidden_cases", "testcases", "hidden_testcases", "flag", "flags"]

  function PartsOf(paths: seq<string>): seq<seq<string>> {
    seq(|paths|, i requires 0 <= i < |paths| => PathParts(paths[i]))
  }

  /** The body that faceSnapshot returns. */
  function FaceOf(body: Json, sensitive: seq<string>): Json {
    StripAll(StripAll(body, PartsOf(DEFAULT_SENSITIVE_PATHS)), PartsOf(sensitive))
  }

  /** A face keeps exactly the nodes that no default path and no declared path names. */
  lemma FaceMeaning(body: Json, sensitive: seq<string>, path: seq<Step>)
    ensures At(FaceOf(body, sensitive), path) ==
      if exists f ::
           (f in DEFAULT_SENSITIVE_PATHS || f in sensitive) && PathParts(f) != [] && Subseq(PathParts(f), KeysOf(path))
      then None else At(body, path)
  {
    var defaults, declared := PartsOf(DEFAULT_SENSITIVE_PATHS), PartsOf(sensitive);
    StripMeaning(StripAll(body, defaults), declared, path);
    StripMeaning(body, defaults, path);
    DoomedBy(DEFAULT_SENSITIVE_PATHS, path);
    DoomedBy(sensitive, path);
  }

  lemma DoomedBy(paths: seq<string>, path: seq<Step>)
    ensures Doomed(PartsOf(paths), path) <==>
      exists f :: f in paths && PathParts(f) != [] && Subseq(PathParts(f), KeysOf(path))
  {
    hide PathParts, Subseq, KeysOf;
    var all := PartsOf(paths);
    if p :| p in all && p != [] && Subseq(p, KeysOf(path)) {
      var i :| 0 <= i < |all| && all[i] == p;
      assert paths[i] in paths;
    }
    if f :| f in paths && PathParts(f) != [] && Subseq(PathParts(f), KeysOf(path)) {
      var i :| 0 <= i < |paths| && paths[i] == f;
      assert all[i] in all;
    }
  }

  /** The names that the default paths come down to: the dotted ones among them add nothing. */
  predicate AnswerName(k: string) {
    k in {"answer", "answers", "explanation", "correct_answer", "solution", "judge_config", "testcases",
      "hidden_testcases", "flag", "flags"}
  }

  /** Exactly what the default paths remove: whatever has one of these names on its way, at any depth. */
  lemma DefaultFaceIff(body: Json, path: seq<Step>)
    ensures At(FaceOf(body, []), path) ==
      if exists k :: k in KeysOf(path) && AnswerName(k) then None else At(body, path)
  {
    FaceMeaning(body, [], path);
    DefaultParts();
    hide PathParts, AnswerName;
    var keys := KeysOf(path);
    if k :| k in keys && AnswerName(k) {
      AnswerNameListed(k);
      SubseqOne(k, keys);
      assert k in DEFAULT_SENSITIVE_PATHS && Subseq(PathParts(k), keys);
    }
    if f :| f in DEFAULT_SENSITIVE_PATHS && PathParts(f) != [] && Subseq(PathParts(f), keys) {
      var k :| k in PathParts(f) && AnswerName(k);
      SubseqMember(PathParts(f), keys, k);
    }
  }

  /** So no face of any body, whatever else is declared sensitive, shows anything under such a name. */
  lemma NoAnswerInFace(body: Json, sensitive: seq<string>, path: seq<Step>, k: string)
    requires k in KeysOf(path) && AnswerName(k)
    ensures At(FaceOf(body, sensitive), path) == None
  {
    FaceMeaning(body, sensitive, path);
    DefaultParts();
    AnswerNameListed(k);
    hide PathParts, AnswerName;
    SubseqOne(k, KeysOf(path));
    assert k in DEFAULT_SENSITIVE_PATHS && Subseq(PathParts(k), KeysOf(path));
  }

  lemma AnswerNameListed(k: string)
    requires AnswerName(k)
    ensures k in DEFAULT_SENSITIVE_PATHS && '.' !in k
  {
  }

  lemma {:induction false} SubseqOne(k: string, keys: seq<string>)
    ensures Subseq([k], keys) <==> k in keys
    decreases keys
  {
    if keys != [] {
      SubseqOne(k, keys[1..]);
      assert [k][1..] == [];
      assert k in keys <==> k == keys[0] || k in keys[1..];
    }
  }

  lemma {:induction false} SubseqMember(parts: seq<string>, keys: seq<string>, k: string)
    requires Subseq(parts, keys) && k in parts
    ensures k in keys
    decreases keys
  {
    if parts[0] != keys[0] {
      SubseqMember(parts, keys[1..], k);
    } else if k != parts[0] {
      SubseqMember(parts[1..], keys[1..], k);
    }
  }

  /** Each default path has a part with such a name; the undotted ones are those names. */
  lemma DefaultParts()
    ensures forall f :: f in DEFAULT_SENSITIVE_PATHS ==> exists k :: k in PathParts(f) && AnswerName(k)
    ensures forall f :: f in DEFAULT_SENSITIVE_PATHS && '.' !in f ==> PathParts(f) == [f]
  {
    hide PathParts, AnswerName;
    forall f | f in DEFAULT_SENSITIVE_PATHS
      ensures exists k :: k in PathParts(f) && AnswerName(k)
      ensures '.' !in f ==> PathParts(f) == [f]
    {
      if AnswerName(f) {
        OneName(f);
        assert f in PathParts(f);
      } else {
        DottedDefault(f);
      }
    }
  }

  lemma OneName(f: string)
    requires AnswerName(f)
    ensures PathParts(f) == [f]
  {
    OnePart(f);
  }

  lemma DottedDefault(f: string)
    requires f in DEFAULT_SENSITIVE_PATHS && !AnswerName(f)
    ensures '.' in f && exists k :: k in PathParts(f) && AnswerName(k)
  {
    assert f in {"analysis.answer", "judge_config.testcases", "judge_config.hidden_cases"};
    DottedName(f);
  }

  lemma DottedName(f: string)
    requires f in {"analysis.answer", "judge_config.testcases", "judge_config.hidden_cases"}
    ensures '.' in f && exists k :: k in PathParts(f) && AnswerName(k)
  {
    hide PathParts, Nameable;
    NameableWords();
    if f == "analysis.answer" {
      TwoParts("analysis", "answer");
      assert f == "analysis" + "." + "answer";
      assert "answer" in PathParts(f) && f[8] == '.';
    } else if f == "judge_config.testcases" {
      TwoParts("judge_config", "testcases");
      assert f == "judge_config" + "." + "testcases";
      assert "testcases" in PathParts(f) && f[12] == '.';
    } else {
      TwoParts("judge_config", "hidden_cases");
      assert f == "judge_config" + "." + "hidden_cases";
      assert "judge_config" in PathParts(f) && f[12] == '.';
    }
  }

  lemma NameableWords()
    ensures Nameable("analysis") && Nameable("answer") && Nameable("judge_config")
    ensures Nameable("testcases") && Nameable("hidden_cases")
  {
  }

  lemma OnePart(f: string)
    requires Nameable(f)
    ensures PathParts(f) == [f]
  {
    PathPartsOfJoin([f]);
  }

  lemma TwoParts(a: string, b: string)
    requires Nameable(a) && Nameable(b)
    ensures PathParts(a + "." + b) == [a, b]
    ensures a in PathParts(a + "." + b) && b in PathParts(a + "." + b)
  {
    PathPartsOfJoin([a, b]);
    assert Join([a, b], ".") == a + "." + b by { assert [a, b][1..] == [b] && Join([b], ".") == b; }
  }

  /** A face of a face is the same face, and taking it cannot fail. */
  lemma FaceTwice(body: Json, sensitive: seq<string>)
    ensures FaceOf(FaceOf(body, sensitive), []) == FaceOf(body, sensitive)
    ensures Encodable(body) ==> Encodable(FaceOf(body, sensitive))
  {
    hide PathParts;
    assert PartsOf([]) == [];
    var defaults, declared := PartsOf(DEFAULT_SENSITIVE_PATHS), PartsOf(sensitive);
    assert StripAll(StripAll(FaceOf(body, sensitive), defaults), []) == StripAll(FaceOf(body, sensitive), defaults);
    hide PartsOf, StripAll, Encodable;
    StripAppend(body, defaults, declared);
    StripAbsorbs(body, defaults + declared, defaults);
    if Encodable(body) {
      StripEncodable(body, defaults);
      StripEncodable(StripAll(body, defaults), declared);
    }
  }

  /** Neither the order nor the repetition of declared paths matters. */
  lemma FaceIgnoresOrder(body: Json, sensitive: seq<string>, others: seq<string>)
    requires forall f :: f in sensitive <==> f in others
    ensures FaceOf(body, sensitive) == FaceOf(body, others)
  {
    hide PathParts;
    var a, b := PartsOf(sensitive), PartsOf(others);
    forall p ensures p in a <==> p in b {
      if p in a {
        var i :| 0 <= i < |a| && a[i] == p;
        assert sensitive[i] in others;
        var j :| 0 <= j < |others| && others[j] == sensitive[i];
        assert b[j] == p;
      }
      if p in b {
        var i :| 0 <= i < |b| && b[i] == p;
        assert others[i] in sensitive;
        var j :| 0 <= j < |sensitive| && sensitive[j] == others[i];
        assert a[j] == p;
      }
    }
    StripIgnoresOrder(StripAll(body, PartsOf(DEFAULT_SENSITIVE_PATHS)), a, b);
  }
}
