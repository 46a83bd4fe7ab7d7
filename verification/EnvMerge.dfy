/** Merging a manifest's environment into a runtime's base environment. */
module EnvMerge {
  import opened Json
  import opened Text

  datatype EnvVar = EnvVar(name: string, value: string)

  /** The value that the name index leads to: that of the last item with this name. */
  function Lookup(items: seq<EnvVar>, name: string): Option<string> {
    if items == [] then None
    else
      var last := items[|items| - 1];
      if last.name == name then Some(last.value) else Lookup(items[..|items| - 1], name)
  }

  /** What the merge yields; None where it returns an error. */
  function Merge(out: seq<EnvVar>, extra: seq<EnvVar>): Option<seq<EnvVar>>
    decreases |extra|
  {
    if extra == [] then Some(out)
    else
      var item := EnvVar(TrimSpace(extra[0].name), extra[0].value);
      if item.name == "" then None
      else match Lookup(out, item.name)
        case Some(value) => if value != item.value then None else Merge(out, extra[1..])
        case None => Merge(out + [item], extra[1..])
  }

  /** The index maps every name of the list, and no other, to its last position. */
  ghost predicate IndexAgrees(items: seq<EnvVar>, index: map<string, nat>) {
    && (forall n :: n in index ==> index[n] < |items| && items[index[n]].name == n)
    && (forall i :: 0 <= i < |items| ==> items[i].name in index && i <= index[items[i].name])
  }

  lemma {:induction false} IndexFinds(items: seq<EnvVar>, index: map<string, nat>, name: string)
    requires IndexAgrees(items, index)
    ensures Lookup(items, name) == if name in index then Some(items[index[name]].value) else None
    decreases |items|
  {
    if items != [] {
      var k := |items| - 1;
      var init, last := items[..k], items[k].name;
      if last != name {
        var earlier := map n | n in index && (n != last || PositionIn(init, n).Some?) ::
          if n != last then index[n] else PositionIn(init, n).value;
        IndexFinds(init, earlier, name);
      }
    }
  }

  /** The last position of a name. */
  function PositionIn(items: seq<EnvVar>, name: string): (k: Option<nat>)
    ensures k.Some? ==> k.value < |items| && items[k.value].name == name
    ensures forall i :: 0 <= i < |items| && items[i].name == name ==> k.Some? && i <= k.value
  {
    if items == [] then None
    else if items[|items| - 1].name == name then Some(|items| - 1)
    else PositionIn(items[..|items| - 1], name)
  }

  /** mergeRuntimeWorkloadEnv: the list is built beside an index that always agrees with it. */
  method MergeRuntimeWorkloadEnv(base: seq<EnvVar>, extra: seq<EnvVar>) returns (r: Option<seq<EnvVar>>)
    ensures r == Merge(base, extra)
  {
    hide TrimSpace, Lookup;
    var out := base;
    var index: map<string, nat> := map[];
    for position := 0 to |out|
      invariant IndexAgrees(out[..position], index)
    {
      index := index[out[position].name := position];
    }
    assert out[..|out|] == out;
    for i := 0 to |extra|
      invariant IndexAgrees(out, index)
      invariant Merge(out, extra[i..]) == Merge(base, extra)
    {
      assert extra[i..][0] == extra[i] && extra[i..][1..] == extra[i + 1..];
      var item := EnvVar(TrimSpace(extra[i].name), extra[i].value);
      if item.name == "" {
        return None;
      }
      IndexFinds(out, index, item.name);
      if item.name in index {
        if out[index[item.name]].value != item.value {
          return None;
        }
      } else {
        index := index[item.name := |out|];
        out := out + [item];
      }
    }
    r := Some(out);
  }

  // ---- what the merge promises ----

  function NameOf(e: EnvVar): string {
    TrimSpace(e.name)
  }

  /** No blank name, and no name with two values among the base and the extras. */
  ghost predicate Agree(out: seq<EnvVar>, extra: seq<EnvVar>) {
    && (forall i :: 0 <= i < |extra| ==>
          NameOf(extra[i]) != "" && Lookup(out, NameOf(extra[i])) in {None, Some(extra[i].value)})
    && (forall i, j :: 0 <= i < j < |extra| && NameOf(extra[i]) == NameOf(extra[j]) ==>
          extra[i].value == extra[j].value)
  }

  lemma LookupAppend(out: seq<EnvVar>, item: EnvVar, name: string)
    ensures Lookup(out + [item], name) == if name == item.name then Some(item.value) else Lookup(out, name)
  {
  }

  /** The merge fails exactly on a blank name or on two values for one name. */
  lemma {:induction false} MergeSucceedsIff(out: seq<EnvVar>, extra: seq<EnvVar>)
    ensures Merge(out, extra).Some? <==> Agree(out, extra)
    decreases |extra|
  {
    hide TrimSpace, Lookup;
    if extra != [] {
      var rest := extra[1..];
      assert forall i :: 1 <= i < |extra| ==> extra[i] == rest[i - 1];
      var item := EnvVar(NameOf(extra[0]), extra[0].value);
      if item.name != "" && Lookup(out, item.name).None? {
        MergeSucceedsIff(out + [item], rest);
        forall n ensures Lookup(out + [item], n) == if n == item.name then Some(item.value) else Lookup(out, n) {
          LookupAppend(out, item, n);
        }
        AgreeCons(out, extra, out + [item]);
      } else if item.name != "" && Lookup(out, item.name) == Some(item.value) {
        MergeSucceedsIff(out, rest);
        AgreeCons(out, extra, out);
      }
    }
  }

  lemma AgreeCons(out: seq<EnvVar>, extra: seq<EnvVar>, next: seq<EnvVar>)
    requires extra != [] && NameOf(extra[0]) != ""
    requires Lookup(out, NameOf(extra[0])) in {None, Some(extra[0].value)}
    requires forall n :: Lookup(next, n) == if n == NameOf(extra[0]) then Some(extra[0].value) else Lookup(out, n)
    ensures Agree(out, extra) <==> Agree(next, extra[1..])
  {
    hide TrimSpace, Lookup;
    var rest := extra[1..];
    assert forall i :: 1 <= i < |extra| ==> extra[i] == rest[i - 1];
    if Agree(next, rest) {
      forall i | 1 <= i < |extra|
        ensures NameOf(extra[i]) != "" && Lookup(out, NameOf(extra[i])) in {None, Some(extra[i].value)}
        ensures NameOf(extra[0]) == NameOf(extra[i]) ==> extra[0].value == extra[i].value
      {
        assert rest[i - 1] == extra[i];
      }
    }
  }

  ghost predicate DistinctNames(items: seq<EnvVar>) {
    forall i, j :: 0 <= i < j < |items| ==> items[i].name != items[j].name
  }

  lemma {:induction false} LookupAbsent(items: seq<EnvVar>, name: string)
    ensures Lookup(items, name).None? <==> forall i :: 0 <= i < |items| ==> items[i].name != name
    decreases |items|
  {
    if items != [] { LookupAbsent(items[..|items| - 1], name); }
  }

  /**
   * On success the base is a prefix, the names added are new and distinct, every added item comes from the extras,
   * and every extra can be looked up.
   */
  lemma {:induction false} MergeResult(out: seq<EnvVar>, extra: seq<EnvVar>)
    requires Merge(out, extra).Some?
    ensures var r := Merge(out, extra).value;
      && out <= r
      && (DistinctNames(out) ==> DistinctNames(r))
      && (forall i, j :: |out| <= i < |r| && 0 <= j < i ==> r[j].name != r[i].name)
      && (forall i :: |out| <= i < |r| ==> exists e :: e in extra && r[i] == EnvVar(NameOf(e), e.value))
      && (forall n :: Lookup(out, n).Some? ==> Lookup(r, n) == Lookup(out, n))
      && (forall i :: 0 <= i < |extra| ==> Lookup(r, NameOf(extra[i])) == Some(extra[i].value))
    decreases |extra|
  {
    hide TrimSpace, Lookup;
    if extra != [] {
      var rest := extra[1..];
      assert forall i :: 1 <= i < |extra| ==> extra[i] == rest[i - 1];
      var item := EnvVar(NameOf(extra[0]), extra[0].value);
      if Lookup(out, item.name).None? {
        MergeResult(out + [item], rest);
        LookupAbsent(out, item.name);
        forall n ensures Lookup(out + [item], n) == if n == item.name then Some(item.value) else Lookup(out, n) {
          LookupAppend(out, item, n);
        }
        var r := Merge(out, extra).value;
        assert r[|out|] == item;
      } else {
        MergeResult(out, rest);
      }
    }
  }

  /** Merging two lists of extras one after the other is merging them together: extras are added in their order. */
  lemma {:induction false} MergeInOrder(out: seq<EnvVar>, first: seq<EnvVar>, second: seq<EnvVar>)
    ensures Merge(out, first + second) ==
      if Merge(out, first).None? then None else Merge(Merge(out, first).value, second)
    decreases |first|
  {
    hide TrimSpace, Lookup;
    if first == [] {
      assert first + second == second;
    } else {
      assert (first + second)[0] == first[0] && (first + second)[1..] == first[1..] + second;
      var item := EnvVar(TrimSpace(first[0].name), first[0].value);
      MergeInOrder(out, first[1..], second);
      MergeInOrder(out + [item], first[1..], second);
    }
  }

  /** One extra: a blank name or another value is an error, a known pair changes nothing, a new one is appended. */
  lemma MergeOne(out: seq<EnvVar>, e: EnvVar)
    ensures Merge(out, [e]) ==
      if NameOf(e) == "" then None
      else if forall i :: 0 <= i < |out| ==> out[i].name != NameOf(e) then Some(out + [EnvVar(NameOf(e), e.value)])
      else if Lookup(out, NameOf(e)) == Some(e.value) then Some(out)
      else None
  {
    LookupAbsent(out, NameOf(e));
    hide TrimSpace, Lookup;
    assert [e][1..] == [];
  }

  /** Merging the same extras again changes nothing. */
  lemma MergeTwice(base: seq<EnvVar>, extra: seq<EnvVar>)
    requires Merge(base, extra).Some?
    ensures Merge(Merge(base, extra).value, extra) == Merge(base, extra)
  {
    MergeResult(base, extra);
    MergeSucceedsIff(base, extra);
    AlreadyThere(Merge(base, extra).value, extra);
  }

  lemma {:induction false} AlreadyThere(out: seq<EnvVar>, extra: seq<EnvVar>)
    requires forall i :: 0 <= i < |extra| ==>
      NameOf(extra[i]) != "" && Lookup(out, NameOf(extra[i])) == Some(extra[i].value)
    ensures Merge(out, extra) == Some(out)
    decreases |extra|
  {
    if extra != [] {
      assert forall i :: 1 <= i < |extra| ==> extra[i] == extra[1..][i - 1];
      AlreadyThere(out, extra[1..]);
    }
  }
}
