/** Projecting private sidecars into the image closure of a composition snapshot. */
module ImageClosure {
  import opened Json
  import opened Text

  datatype Mount = Mount(name: string, mountPath: string)

  datatype Item = Item(
    category: string, code: string, imageURL: string, version: string, prepullCommand: seq<string>, prepullHold: bool,
    mounts: seq<Mount>)

  /** A private sidecar; workload stands for the fields that neither the closure nor the sorting reads. */
  datatype Sidecar = Sidecar(
    name: string, imageURL: string, prepullCommand: seq<string>, prepullHold: bool, mounts: seq<Mount>, workload: Json)

  /** The part of the reference after the last '@', if there is one. */
  function ImageVersionFromURL(imageURL: string): (version: string)
    ensures '@' !in version
    ensures version != "" ==> exists prefix: string :: imageURL == prefix + "@" + version
    ensures version == "" <==> '@' !in imageURL || imageURL[|imageURL| - 1] == '@'
  {
    if imageURL == "" then ""
    else
      var c := imageURL[|imageURL| - 1];
      if c == '@' then ""
      else
        var init := imageURL[..|imageURL| - 1];
        var before := ImageVersionFromURL(init);
        assert imageURL == init + [c];
        if before == "" && !(init != "" && init[|init| - 1] == '@') then ""
        else
          assert before + [c] != "";
          assert exists prefix: string :: imageURL == prefix + "@" + (before + [c]) by {
            if before == "" {
              assert imageURL == init[..|init| - 1] + "@" + [c];
            } else {
              var prefix: string :| init == prefix + "@" + before;
              assert imageURL == prefix + "@" + (before + [c]);
            }
          }
          before + [c]
  }

  /** The closure item of a sidecar; None where the sidecar is rejected. */
  function ItemOf(s: Sidecar): Option<Item> {
    var name, imageURL := TrimSpace(s.name), TrimSpace(s.imageURL);
    if name == "" || imageURL == "" || s.prepullCommand == [] then None
    else Some(Item("judger", name, imageURL, ImageVersionFromURL(imageURL), s.prepullCommand, s.prepullHold, s.mounts))
  }

  /** Same image, self-check command and hold; the category does not matter. */
  predicate SameUse(a: Item, b: Item) {
    a.imageURL == b.imageURL && a.prepullHold == b.prepullHold && a.prepullCommand == b.prepullCommand
  }

  function MergeMounts(mounts: seq<Mount>, incoming: seq<Mount>): (r: seq<Mount>)
    ensures mounts <= r
    ensures forall m :: m in r <==> m in mounts || m in incoming
    decreases |incoming|
  {
    if incoming == [] then mounts
    else
      assert forall m :: m in incoming <==> m == incoming[0] || m in incoming[1..];
      MergeMounts(if incoming[0] in mounts then mounts else mounts + [incoming[0]], incoming[1..])
  }

  lemma MergeMountsStep(mounts: seq<Mount>, incoming: seq<Mount>, m: nat)
    requires m <= |incoming|
    ensures MergeMounts(mounts, incoming[m..]) ==
      if m == |incoming| then mounts
      else MergeMounts(if incoming[m] in mounts then mounts else mounts + [incoming[m]], incoming[m + 1..])
  {
  }

  /** The first item with the same use. */
  function FirstMatch(items: seq<Item>, incoming: Item): (i: Option<nat>)
    ensures i.Some? ==> i.value < |items| && SameUse(items[i.value], incoming)
    ensures i.Some? ==> forall j :: 0 <= j < i.value ==> !SameUse(items[j], incoming)
    ensures i.None? ==> forall j :: 0 <= j < |items| ==> !SameUse(items[j], incoming)
  {
    if items == [] then None
    else if SameUse(items[0], incoming) then Some(0)
    else
      var i := FirstMatch(items[1..], incoming);
      assert forall j :: 1 <= j < |items| ==> items[j] == items[1..][j - 1];
      if i.None? then None else Some(i.value + 1)
  }

  function MergeItem(items: seq<Item>, incoming: Item): seq<Item> {
    match FirstMatch(items, incoming)
    case Some(i) => items[i := items[i].(mounts := MergeMounts(items[i].mounts, incoming.mounts))]
    case None => items + [incoming]
  }

  /** The closure after the sidecars, and whether all of them were accepted; the first rejection ends the loop. */
  function Appended(items: seq<Item>, sidecars: seq<Sidecar>): (seq<Item>, bool)
    decreases |sidecars|
  {
    if sidecars == [] then (items, true)
    else match ItemOf(sidecars[0])
      case None => (items, false)
      case Some(item) => Appended(MergeItem(items, item), sidecars[1..])
  }

  // ---- the Go functions ----

  /** The fields of a snapshot that the projection reads and writes. */
  class Snapshot {
    const privateSidecars: seq<Sidecar>
    var imageClosure: seq<Item>

    constructor (privateSidecars: seq<Sidecar>, imageClosure: seq<Item>)
      ensures this.privateSidecars == privateSidecars && this.imageClosure == imageClosure
    {
      this.privateSidecars, this.imageClosure := privateSidecars, imageClosure;
    }

    /** mergeImageClosureItem: updates the first match in place and reports whether there was one. */
    method MergeImageClosureItem(incoming: Item) returns (merged: bool)
      modifies this
      ensures merged <==> FirstMatch(old(imageClosure), incoming).Some?
      ensures imageClosure == if merged then MergeItem(old(imageClosure), incoming) else old(imageClosure)
    {
      hide FirstMatch, MergeMounts;
      for index := 0 to |imageClosure|
        invariant imageClosure == old(imageClosure)
        invariant forall j :: 0 <= j < index ==> !SameUse(imageClosure[j], incoming)
      {
        if SameUse(imageClosure[index], incoming) {
          MatchIs(imageClosure, incoming, index);
          AddMounts(index, incoming.mounts);
          return true;
        }
      }
      return false;
    }

    /** The inner loops: each mount is added unless the item has it by then. */
    method AddMounts(index: nat, incoming: seq<Mount>)
      requires index < |imageClosure|
      modifies this
      ensures imageClosure == old(imageClosure)[index :=
        old(imageClosure)[index].(mounts := MergeMounts(old(imageClosure)[index].mounts, incoming))]
    {
      hide MergeMounts;
      ghost var before := imageClosure;
      for m := 0 to |incoming|
        invariant index < |imageClosure| == |before|
        invariant imageClosure == before[index := before[index].(mounts := imageClosure[index].mounts)]
        invariant MergeMounts(imageClosure[index].mounts, incoming[m..]) == MergeMounts(before[index].mounts, incoming)
      {
        MergeMountsStep(imageClosure[index].mounts, incoming, m);
        var target := imageClosure[index];
        if incoming[m] !in target.mounts {
          imageClosure := imageClosure[index := target.(mounts := target.mounts + [incoming[m]])];
        }
      }
      MergeMountsStep(imageClosure[index].mounts, incoming, |incoming|);
    }

    /** AppendPrivateSidecarImageClosure on a non-nil snapshot; an error leaves the sidecars before it merged. */
    method AppendPrivateSidecarImageClosure() returns (ok: bool)
      modifies this
      ensures (imageClosure, ok) == Appended(old(imageClosure), privateSidecars)
    {
      for i := 0 to |privateSidecars|
        invariant Appended(imageClosure, privateSidecars[i..]) == Appended(old(imageClosure), privateSidecars)
      {
        var sidecar := privateSidecars[i];
        assert privateSidecars[i..][0] == sidecar && privateSidecars[i..][1..] == privateSidecars[i + 1..];
        var name, imageURL := TrimSpace(sidecar.name), TrimSpace(sidecar.imageURL);
        if name == "" || imageURL == "" {
          return false;
        }
        if |sidecar.prepullCommand| == 0 {
          return false;
        }
        var item := Item(
          "judger", name, imageURL, ImageVersionFromURL(imageURL), sidecar.prepullCommand,
          sidecar.prepullHold, sidecar.mounts);
        assert ItemOf(sidecar) == Some(item);
        var merged := MergeImageClosureItem(item);
        if !merged {
          imageClosure := imageClosure + [item];
        }
      }
      return true;
    }
  }

  // ---- what one merge keeps ----

  /** The first item with this use has all these mounts. */
  ghost predicate Covers(items: seq<Item>, x: Item) {
    var i := FirstMatch(items, x);
    i.Some? && forall m :: m in x.mounts ==> m in items[i.value].mounts
  }

  /** after continues before: the old items stay where they are and only gain mounts, at the end of their lists. */
  ghost predicate Grows(before: seq<Item>, after: seq<Item>) {
    && |before| <= |after|
    && forall i :: 0 <= i < |before| ==>
         after[i] == before[i].(mounts := after[i].mounts) && before[i].mounts <= after[i].mounts
  }

  /** No item past the first n has the use of an earlier one. */
  ghost predicate FreshUses(items: seq<Item>, n: nat) {
    forall i, j :: 0 <= j < i < |items| && n <= i ==> !SameUse(items[i], items[j])
  }

  lemma MatchIs(items: seq<Item>, x: Item, i: nat)
    requires i < |items| && SameUse(items[i], x) && forall j :: 0 <= j < i ==> !SameUse(items[j], x)
    ensures FirstMatch(items, x) == Some(i)
  {
  }

  lemma GrowsTrans(a: seq<Item>, b: seq<Item>, c: seq<Item>)
    requires Grows(a, b) && Grows(b, c)
    ensures Grows(a, c)
  {
  }

  lemma MergeStep(items: seq<Item>, x: Item, n: nat)
    requires n <= |items| && FreshUses(items, n)
    ensures Grows(items, MergeItem(items, x)) && Covers(MergeItem(items, x), x) && FreshUses(MergeItem(items, x), n)
    ensures Covers(items, x) ==> MergeItem(items, x) == items
  {
    hide FirstMatch, MergeMounts;
    var after := MergeItem(items, x);
    var i := FirstMatch(items, x);
    MatchIs(after, x, if i.Some? then i.value else |items|);
    if i.Some? && Covers(items, x) { NothingNew(items[i.value].mounts, x.mounts); }
  }

  lemma {:induction false} NothingNew(mounts: seq<Mount>, incoming: seq<Mount>)
    requires forall m :: m in incoming ==> m in mounts
    ensures MergeMounts(mounts, incoming) == mounts
    decreases |incoming|
  {
    if incoming != [] { NothingNew(mounts, incoming[1..]); }
  }

  // ---- what the whole projection promises ----

  /** How many sidecars were merged before the end or the first rejection. */
  function AcceptedCount(sidecars: seq<Sidecar>): (k: nat)
    ensures k <= |sidecars|
  {
    if sidecars == [] || ItemOf(sidecars[0]).None? then 0 else 1 + AcceptedCount(sidecars[1..])
  }

  /** The sidecar was accepted, and the first item with its use has all its mounts. */
  ghost predicate Taken(items: seq<Item>, s: Sidecar) {
    ItemOf(s).Some? && Covers(items, ItemOf(s).value)
  }

  /** x has the image, command and hold of a sidecar, and all its mounts. */
  ghost predicate Holds(x: Item, s: Sidecar) {
    && x.imageURL == TrimSpace(s.imageURL) && x.prepullCommand == s.prepullCommand && x.prepullHold == s.prepullHold
    && forall m :: m in s.mounts ==> m in x.mounts
  }

  /**
   * Old items keep their position and only gain mounts, no use gets a second item, the merged sidecars are covered,
   * and the call succeeds exactly when every sidecar is acceptable.
   */
  lemma {:induction false} AppendedMeaning(items: seq<Item>, sidecars: seq<Sidecar>, n: nat)
    requires n <= |items| && FreshUses(items, n)
    ensures var (after, ok) := Appended(items, sidecars);
      && Grows(items, after) && FreshUses(after, n)
      && (forall i :: 0 <= i < AcceptedCount(sidecars) ==> Taken(after, sidecars[i]))
      && (ok <==> AcceptedCount(sidecars) == |sidecars|)
    decreases |sidecars|
  {
    hide FirstMatch, MergeMounts, ItemOf, Covers, MergeItem;
    if sidecars != [] && ItemOf(sidecars[0]).Some? {
      var item := ItemOf(sidecars[0]).value;
      var next := MergeItem(items, item);
      MergeStep(items, item, n);
      AppendedMeaning(next, sidecars[1..], n);
      var after := Appended(items, sidecars).0;
      CoveredAfter(next, after, item);
      GrowsTrans(items, next, after);
      assert forall i :: 1 <= i < |sidecars| ==> sidecars[i] == sidecars[1..][i - 1];
    }
  }

  lemma CoveredAfter(before: seq<Item>, after: seq<Item>, x: Item)
    requires Grows(before, after) && Covers(before, x)
    ensures Covers(after, x)
  {
  }

  /** On success every sidecar has an item with its image, command and hold that holds all its mounts. */
  lemma EverySidecarCovered(items: seq<Item>, sidecars: seq<Sidecar>, s: Sidecar)
    requires Appended(items, sidecars).1 && s in sidecars
    ensures exists x :: x in Appended(items, sidecars).0 && Holds(x, s)
  {
    hide FirstMatch, MergeMounts, TrimSpace;
    AppendedMeaning(items, sidecars, |items|);
    var i :| 0 <= i < |sidecars| && sidecars[i] == s;
    var after := Appended(items, sidecars).0;
    assert Taken(after, sidecars[i]);
    var x := after[FirstMatch(after, ItemOf(s).value).value];
    assert x in after && Holds(x, s);
  }

  /** The sidecar asks for this mount on items with this use. */
  ghost predicate Asks(s: Sidecar, x: Item, m: Mount) {
    ItemOf(s).Some? && SameUse(ItemOf(s).value, x) && m in s.mounts
  }

  /** Nothing is invented: a mount of the result was there before or belongs to a sidecar with the same use. */
  lemma {:induction false} NothingInvented(items: seq<Item>, sidecars: seq<Sidecar>, i: nat, m: Mount)
    requires i < |Appended(items, sidecars).0| && m in Appended(items, sidecars).0[i].mounts
    ensures (i < |items| && m in items[i].mounts)
      || exists s :: s in sidecars && Asks(s, Appended(items, sidecars).0[i], m)
    decreases |sidecars|
  {
    hide FirstMatch, MergeMounts, ItemOf;
    if sidecars != [] && ItemOf(sidecars[0]).Some? {
      var item := ItemOf(sidecars[0]).value;
      var next := MergeItem(items, item);
      var after := Appended(items, sidecars).0;
      AppendedMeaning(next, sidecars[1..], |next|);
      NothingInvented(next, sidecars[1..], i, m);
      assert forall s :: s in sidecars[1..] ==> s in sidecars;
      if i < |next| && m in next[i].mounts && !(i < |items| && m in items[i].mounts) {
        MountsOfItem(sidecars[0]);
        assert SameUse(item, next[i]) && m in item.mounts;
        assert sidecars[0] in sidecars && Asks(sidecars[0], after[i], m);
      }
    }
  }

  lemma MountsOfItem(s: Sidecar)
    requires ItemOf(s).Some?
    ensures ItemOf(s).value.mounts == s.mounts
  {
  }

  /** An item made for this sidecar. */
  ghost predicate MadeFor(x: Item, s: Sidecar) {
    && x.category == "judger" && x.code == TrimSpace(s.name) && x.imageURL == TrimSpace(s.imageURL)
    && x.version == ImageVersionFromURL(x.imageURL)
    && x.prepullCommand == s.prepullCommand && x.prepullHold == s.prepullHold
  }

  /** A sidecar is acceptable exactly when it has a name, an image and a self-check command. */
  lemma ItemOfMeaning(s: Sidecar)
    ensures ItemOf(s).Some? <==> TrimSpace(s.name) != "" && TrimSpace(s.imageURL) != "" && s.prepullCommand != []
    ensures ItemOf(s).Some? ==> MadeFor(ItemOf(s).value, s) && ItemOf(s).value.mounts == s.mounts
  {
  }

  /** Every item that the projection adds is made for one of the sidecars. */
  lemma {:induction false} AddedMadeFor(items: seq<Item>, sidecars: seq<Sidecar>, i: nat)
    requires |items| <= i < |Appended(items, sidecars).0|
    ensures exists s :: s in sidecars && MadeFor(Appended(items, sidecars).0[i], s)
    decreases |sidecars|
  {
    hide FirstMatch, MergeMounts, ItemOf, TrimSpace, ImageVersionFromURL;
    if sidecars != [] && ItemOf(sidecars[0]).Some? {
      var item := ItemOf(sidecars[0]).value;
      var next := MergeItem(items, item);
      var after := Appended(items, sidecars).0;
      AppendedMeaning(next, sidecars[1..], |next|);
      ItemOfMeaning(sidecars[0]);
      if i < |next| {
        assert next[i] == item && after[i] == item.(mounts := after[i].mounts);
        assert MadeFor(after[i], sidecars[0]) && sidecars[0] in sidecars;
      } else {
        AddedMadeFor(next, sidecars[1..], i);
        assert forall s :: s in sidecars[1..] ==> s in sidecars;
      }
    }
  }

  /** Sidecars are merged one after the other, in their order, up to the first that is rejected. */
  lemma {:induction false} AppendedInOrder(items: seq<Item>, first: seq<Sidecar>, second: seq<Sidecar>)
    ensures Appended(items, first + second) ==
      if Appended(items, first).1 then Appended(Appended(items, first).0, second) else Appended(items, first)
    decreases |first|
  {
    hide ItemOf, MergeItem;
    if first == [] {
      assert first + second == second;
    } else {
      assert (first + second)[0] == first[0] && (first + second)[1..] == first[1..] + second;
      if ItemOf(first[0]).Some? { AppendedInOrder(MergeItem(items, ItemOf(first[0]).value), first[1..], second); }
    }
  }

  /**
   * One item is merged into the first that has its image, its command and its hold, whatever their categories; only
   * where there is none is it appended.
   */
  lemma MergeExact(items: seq<Item>, x: Item, k: nat)
    requires k <= |items|
    requires forall i :: 0 <= i < k ==>
      || items[i].imageURL != x.imageURL || items[i].prepullHold != x.prepullHold
      || items[i].prepullCommand != x.prepullCommand
    requires k < |items| ==>
      && items[k].imageURL == x.imageURL && items[k].prepullHold == x.prepullHold
      && items[k].prepullCommand == x.prepullCommand
    ensures MergeItem(items, x) ==
      if k == |items| then items + [x] else items[k := items[k].(mounts := MergeMounts(items[k].mounts, x.mounts))]
  {
    hide MergeMounts;
  }

  /** Mounts are added one after the other, in their order, each unless it is there by then. */
  lemma {:induction false} MountsInOrder(mounts: seq<Mount>, first: seq<Mount>, second: seq<Mount>)
    ensures MergeMounts(mounts, first + second) == MergeMounts(MergeMounts(mounts, first), second)
    ensures |first| == 1 ==>
      MergeMounts(mounts, first) == if first[0] in mounts then mounts else mounts + [first[0]]
    decreases |first|
  {
    if first == [] {
      assert first + second == second;
    } else {
      assert (first + second)[0] == first[0] && (first + second)[1..] == first[1..] + second;
      MountsInOrder(if first[0] in mounts then mounts else mounts + [first[0]], first[1..], second);
    }
  }

  /** Running the projection twice is the same as running it once, even when it stops with an error. */
  lemma AppendTwice(items: seq<Item>, sidecars: seq<Sidecar>)
    ensures Appended(Appended(items, sidecars).0, sidecars) == Appended(items, sidecars)
  {
    AppendedMeaning(items, sidecars, |items|);
    NoChange(Appended(items, sidecars).0, sidecars);
  }

  lemma {:induction false} NoChange(items: seq<Item>, sidecars: seq<Sidecar>)
    requires forall i :: 0 <= i < AcceptedCount(sidecars) ==> Taken(items, sidecars[i])
    ensures Appended(items, sidecars) == (items, AcceptedCount(sidecars) == |sidecars|)
    decreases |sidecars|
  {
    hide FirstMatch, MergeMounts, ItemOf, Covers, MergeItem;
    if sidecars != [] && ItemOf(sidecars[0]).Some? {
      MergeStep(items, ItemOf(sidecars[0]).value, |items|);
      assert forall i :: 1 <= i < |sidecars| ==> sidecars[i] == sidecars[1..][i - 1];
      NoChange(items, sidecars[1..]);
    }
  }
}
