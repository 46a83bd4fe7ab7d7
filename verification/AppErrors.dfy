/** Application errors: what users are shown, and what the log keeps. */
module AppErrors {
  import opened Json
  import opened Text

  /** A value of type error. Nil is the nil interface; NilApp is a nil *Error inside an interface. */
  datatype Err =
    | Nil
    | App(code: string, message: string, cause: Err)
    | NilApp
    | Joined(text: string, causes: seq<Err>)
    | Wrapped(text: string, cause: Err)
    | Plain(text: string)

  const CODE_INTERNAL := "11000"
  const MESSAGE_INTERNAL := "服务暂时不可用,请稍后重试"

  /** err.Error() */
  function Message(e: Err): string {
    match e
    case App(code, message, _) => "[" + code + "] " + message
    case Joined(text, _) => text
    case Wrapped(text, _) => text
    case Plain(text) => text
    case _ => ""
  }

  // ---- strings.Contains and strings.Replace ----

  predicate OccursAt(s: string, t: string, i: nat) {
    i + |t| <= |s| && s[i..i + |t|] == t
  }

  ghost predicate Contains(s: string, t: string) {
    exists i: nat :: OccursAt(s, t, i)
  }

  /** The first occurrence of t in s. */
  function FirstIndex(s: string, t: string): (i: Option<nat>)
    ensures i.Some? <==> Contains(s, t)
    ensures i.Some? ==> OccursAt(s, t, i.value) && forall j: nat :: j < i.value ==> !OccursAt(s, t, j)
  {
    if t <= s then
      assert OccursAt(s, t, 0);
      Some(0)
    else if s == "" then
      None
    else
      var i := FirstIndex(s[1..], t);
      OccursInTail(s, t);
      assert !OccursAt(s, t, 0);
      if i.None? then None else Some(i.value + 1)
  }

  /** Past the first character, occurrences in a string and in its tail correspond. */
  lemma OccursInTail(s: string, t: string)
    requires s != ""
    ensures forall j: nat :: OccursAt(s[1..], t, j) ==> OccursAt(s, t, j + 1)
    ensures forall j: nat :: j > 0 && OccursAt(s, t, j) ==> OccursAt(s[1..], t, j - 1)
  {
    forall j: nat | OccursAt(s[1..], t, j) ensures OccursAt(s, t, j + 1) {
      assert s[1..][j..j + |t|] == s[j + 1..j + 1 + |t|];
    }
    forall j: nat | j > 0 && OccursAt(s, t, j) ensures OccursAt(s[1..], t, j - 1) {
      assert s[1..][j - 1..j - 1 + |t|] == s[j..j + |t|];
    }
  }

  function ReplaceFirst(s: string, t: string, with: string): string {
    match FirstIndex(s, t)
    case None => s
    case Some(i) => s[..i] + with + s[i + |t|..]
  }

  lemma ContainsMiddle(a: string, b: string, c: string)
    ensures Contains(a + b + c, b)
  {
    assert OccursAt(a + b + c, b, |a|);
  }

  lemma ContainsTrans(a: string, b: string, c: string)
    requires Contains(a, b) && Contains(b, c)
    ensures Contains(a, c)
  {
    var i: nat :| OccursAt(a, b, i);
    var j: nat :| OccursAt(b, c, j);
    forall k | 0 <= k < |c| ensures a[i + j + k] == c[k] {
      assert b[j..j + |c|][k] == b[j + k] && a[i..i + |b|][j + k] == a[i + j + k];
    }
    assert OccursAt(a, c, i + j);
  }

  // ---- rendering ----

  /** The non-nil causes of a joined error, rendered for the log. */
  function Logs(causes: seq<Err>): seq<string>
    decreases causes
  {
    if causes == [] then []
    else (if causes[0].Nil? then [] else [Log(causes[0])]) + Logs(causes[1..])
  }

  function Messages(causes: seq<Err>): seq<string> {
    if causes == [] then []
    else (if causes[0].Nil? then [] else [Message(causes[0])]) + Messages(causes[1..])
  }

  /** logCauseString, and LogString on an application error. */
  function Log(e: Err): string
    decreases e
  {
    match e
    case App(_, _, cause) => if cause.Nil? then Message(e) else Message(e) + ": " + Log(cause)
    case Joined(text, causes) =>
      if text == Join(Messages(causes), "\n") then Join(Logs(causes), "\n")
      else text + ": " + Join(Logs(causes), "\n")
    case Wrapped(text, cause) =>
      if cause.Nil? then text
      else if Message(cause) != "" && FirstIndex(text, Message(cause)).Some? then
        ReplaceFirst(text, Message(cause), Log(cause))
      else text + ": " + Log(cause)
    case Plain(text) => text
    case _ => ""
  }

  /** x is e or lies beneath it. */
  ghost predicate Below(e: Err, x: Err)
    decreases e
  {
    x == e ||
    match e
    case App(_, _, cause) => !cause.Nil? && Below(cause, x)
    case Joined(_, causes) => exists i :: 0 <= i < |causes| && !causes[i].Nil? && Below(causes[i], x)
    case Wrapped(_, cause) => !cause.Nil? && Below(cause, x)
    case _ => false
  }

  /** The log of an error contains the log of every error in its tree. */
  lemma {:induction false} LogKeepsAll(e: Err, x: Err)
    requires Below(e, x)
    ensures Contains(Log(e), Log(x))
    decreases e
  {
    if x == e {
      assert Log(e) == "" + Log(e) + "";
      ContainsMiddle("", Log(e), "");
    } else {
      var child := ChildTowards(e, x);
      LogKeepsAll(child, x);
      LogKeepsChild(e, child);
      ContainsTrans(Log(e), Log(child), Log(x));
    }
  }

  ghost predicate Child(e: Err, c: Err) {
    match e
    case App(_, _, cause) => !c.Nil? && cause == c
    case Joined(_, causes) => !c.Nil? && c in causes
    case Wrapped(_, cause) => !c.Nil? && cause == c
    case _ => false
  }

  lemma ChildTowards(e: Err, x: Err) returns (c: Err)
    requires Below(e, x) && x != e
    ensures Child(e, c) && Below(c, x) && c < e
  {
    match e
    case App(_, _, cause) => c := cause;
    case Joined(_, causes) =>
      var i :| 0 <= i < |causes| && !causes[i].Nil? && Below(causes[i], x);
      c := causes[i];
    case Wrapped(_, cause) => c := cause;
  }

  lemma LogKeepsChild(e: Err, c: Err)
    requires Child(e, c)
    ensures Contains(Log(e), Log(c))
  {
    match e
    case App(_, _, _) =>
      assert Log(e) == (Message(e) + ": ") + Log(c) + "";
      ContainsMiddle(Message(e) + ": ", Log(c), "");
    case Joined(text, causes) =>
      LogListed(causes, c);
      JoinKeeps(Logs(causes), Log(c));
      var head := if text == Join(Messages(causes), "\n") then "" else text + ": ";
      assert Log(e) == head + Join(Logs(causes), "\n") + "";
      ContainsMiddle(head, Join(Logs(causes), "\n"), "");
      ContainsTrans(Log(e), Join(Logs(causes), "\n"), Log(c));
    case Wrapped(text, _) =>
      var pre, post := WrapperContext(text, c);
      ContainsMiddle(pre, Log(c), post);
  }

  lemma {:induction false} LogListed(causes: seq<Err>, c: Err)
    requires c in causes && !c.Nil?
    ensures Log(c) in Logs(causes)
    decreases causes
  {
    if causes[0] != c { LogListed(causes[1..], c); }
  }

  lemma {:induction false} JoinKeeps(parts: seq<string>, p: string)
    requires p in parts
    ensures Contains(Join(parts, "\n"), p)
    decreases |parts|
  {
    if |parts| == 1 {
      assert Join(parts, "\n") == "" + p + "";
      ContainsMiddle("", p, "");
    } else if parts[0] == p {
      assert Join(parts, "\n") == "" + p + ("\n" + Join(parts[1..], "\n"));
      ContainsMiddle("", p, "\n" + Join(parts[1..], "\n"));
    } else {
      JoinKeeps(parts[1..], p);
      assert Join(parts, "\n") == (parts[0] + "\n") + Join(parts[1..], "\n") + "";
      ContainsMiddle(parts[0] + "\n", Join(parts[1..], "\n"), "");
      ContainsTrans(Join(parts, "\n"), Join(parts[1..], "\n"), p);
    }
  }

  /** A wrapper keeps its own words: its text around the cause's message, or its whole text in front. */
  lemma {:induction false} WrapperContext(text: string, c: Err) returns (pre: string, post: string)
    requires !c.Nil?
    ensures Log(Wrapped(text, c)) == pre + Log(c) + post
    ensures
      if Message(c) == "" || !Contains(text, Message(c)) then pre == text + ": " && post == ""
      else text == pre + Message(c) + post && forall i: nat :: i < |pre| ==> !OccursAt(text, Message(c), i)
  {
    hide FirstIndex, Message;
    var at := FirstIndex(text, Message(c));
    if Message(c) != "" && at.Some? {
      pre, post := text[..at.value], text[at.value + |Message(c)|..];
    } else {
      pre, post := text + ": ", "";
      assert Log(Wrapped(text, c)) == pre + Log(c) + post;
    }
  }

  /** An application error is logged with its code and message in front of its cause. */
  lemma AppContext(code: string, message: string, cause: Err)
    ensures Log(App(code, message, cause)) ==
      "[" + code + "] " + message + if cause.Nil? then "" else ": " + Log(cause)
  {
  }

  /**
   * Joined causes are logged one to a line and in order, those that are nil left out, behind the error's own text
   * unless that says no more than the causes' messages.
   */
  lemma JoinedContext(text: string, causes: seq<Err>) returns (lines: seq<string>, messages: seq<string>)
    requires forall i :: 0 <= i < |causes| ==> !causes[i].Nil?
    ensures |lines| == |messages| == |causes|
    ensures forall i :: 0 <= i < |causes| ==> lines[i] == Log(causes[i]) && messages[i] == Message(causes[i])
    ensures Log(Joined(text, causes)) ==
      (if text == Join(messages, "\n") then "" else text + ": ") + Join(lines, "\n")
  {
    lines, messages := Logs(causes), Messages(causes);
    LinesOf(causes);
  }

  lemma {:induction false} LinesOf(causes: seq<Err>)
    requires forall i :: 0 <= i < |causes| ==> !causes[i].Nil?
    ensures |Logs(causes)| == |Messages(causes)| == |causes|
    ensures forall i :: 0 <= i < |causes| ==>
      Logs(causes)[i] == Log(causes[i]) && Messages(causes)[i] == Message(causes[i])
    decreases causes
  {
    hide Log, Message;
    if causes != [] {
      LinesOf(causes[1..]);
      assert forall i :: 1 <= i < |causes| ==> causes[i] == causes[1..][i - 1];
    }
  }

  /** Nil causes are not logged. */
  lemma {:induction false} NilIgnored(before: seq<Err>, after: seq<Err>)
    ensures Logs(before + [Nil] + after) == Logs(before + after)
    ensures Messages(before + [Nil] + after) == Messages(before + after)
    decreases |before|
  {
    hide Log, Message;
    var longer, shorter := before + [Nil] + after, before + after;
    if before == [] {
      assert longer[1..] == after == shorter;
    } else {
      NilIgnored(before[1..], after);
      assert longer[1..] == before[1..] + [Nil] + after && shorter[1..] == before[1..] + after;
      assert longer[0] == shorter[0] == before[0];
    }
  }

  ghost predicate Leaf(e: Err) {
    match e
    case App(_, _, cause) => cause.Nil?
    case Joined(_, causes) => forall i :: 0 <= i < |causes| ==> causes[i].Nil?
    case Wrapped(_, cause) => cause.Nil?
    case _ => true
  }

  /** The log loses neither a leaf's text nor an application error's code and message. */
  lemma LogLosesNothing(e: Err, x: Err)
    requires Below(e, x) && (x.App? || Leaf(x))
    ensures Contains(Log(e), Message(x))
  {
    LogKeepsAll(e, x);
    OwnMessage(x);
    ContainsTrans(Log(e), Log(x), Message(x));
  }

  lemma OwnMessage(x: Err)
    requires x.App? || Leaf(x)
    ensures Contains(Log(x), Message(x))
  {
    if x.Joined? {
      NoCauses(x.causes);
    }
    var rest := Log(x)[|Message(x)|..];
    assert Log(x) == "" + Message(x) + rest;
    ContainsMiddle("", Message(x), rest);
  }

  lemma {:induction false} NoCauses(causes: seq<Err>)
    requires forall i :: 0 <= i < |causes| ==> causes[i].Nil?
    ensures Logs(causes) == [] && Messages(causes) == []
    decreases causes
  {
    if causes != [] { NoCauses(causes[1..]); }
  }

  /** The loop of logCauseString, over a possibly nil error. */
  method LogCauseString(err: Err) returns (log: string)
    ensures log == Log(err)
    decreases err
  {
    hide FirstIndex, ReplaceFirst, Join, Logs, Messages, Message;
    match err
    case App(_, _, cause) =>
      if cause.Nil? {
        log := Message(err);
      } else {
        var rest := LogCauseString(cause);
        log := Message(err) + ": " + rest;
      }
    case Joined(text, all) =>
      var causes, messages := RenderCauses(all);
      if text != Join(messages, "\n") {
        log := text + ": " + Join(causes, "\n");
      } else {
        log := Join(causes, "\n");
      }
    case Wrapped(text, cause) =>
      if cause.Nil? {
        return text;
      }
      var rest := LogCauseString(cause);
      var message := Message(cause);
      if message != "" && FirstIndex(text, message).Some? {
        log := ReplaceFirst(text, message, rest);
      } else {
        log := text + ": " + rest;
      }
    case Plain(text) =>
      log := text;
    case _ =>
      log := "";
  }

  /** The accumulating loop over the causes of a joined error. */
  method RenderCauses(all: seq<Err>) returns (causes: seq<string>, messages: seq<string>)
    ensures causes == Logs(all) && messages == Messages(all)
    decreases all
  {
    hide Log, Message, Logs, Messages;
    causes, messages := [], [];
    assert all[0..] == all;
    for i := 0 to |all|
      invariant causes + Logs(all[i..]) == Logs(all)
      invariant messages + Messages(all[i..]) == Messages(all)
    {
      RenderStep(all, i);
      if !all[i].Nil? {
        var one := LogCauseString(all[i]);
        assert causes + ([one] + Logs(all[i + 1..])) == causes + [one] + Logs(all[i + 1..]);
        var message := Message(all[i]);
        assert messages + ([message] + Messages(all[i + 1..])) == messages + [message] + Messages(all[i + 1..]);
        causes, messages := causes + [one], messages + [message];
      }
    }
    RenderStep(all, |all|);
  }

  lemma RenderStep(all: seq<Err>, i: nat)
    requires i <= |all|
    ensures Logs(all[i..]) ==
      if i == |all| then [] else (if all[i].Nil? then [] else [Log(all[i])]) + Logs(all[i + 1..])
    ensures Messages(all[i..]) ==
      if i == |all| then [] else (if all[i].Nil? then [] else [Message(all[i])]) + Messages(all[i + 1..])
  {
    hide Log, Message;
    if i < |all| { assert all[i..][1..] == all[i + 1..]; }
  }

  // ---- what a user sees ----

  /** errors.As with an *Error target: the first application error in pre-order. */
  function FirstApp(e: Err): (a: Err)
    ensures !a.Nil? ==> a.App? || a.NilApp?
    decreases e
  {
    match e
    case App(_, _, _) => e
    case NilApp => e
    case Joined(_, causes) => FirstAppIn(causes)
    case Wrapped(_, cause) => FirstApp(cause)
    case _ => Nil
  }

  function FirstAppIn(causes: seq<Err>): (a: Err)
    ensures !a.Nil? ==> a.App? || a.NilApp?
    decreases causes
  {
    if causes == [] then Nil
    else
      var here := FirstApp(causes[0]);
      if !here.Nil? then here else FirstAppIn(causes[1..])
  }

  function WithCause(e: Err, cause: Err): Err
    requires e.App? || e.NilApp?
  {
    if e.NilApp? then App(CODE_INTERNAL, MESSAGE_INTERNAL, cause) else App(e.code, e.message, cause)
  }

  function AsAppError(e: Err): (a: Err)
    ensures a.App? || a.NilApp?
  {
    var first := FirstApp(e);
    if e.Nil? then NilApp else if !first.Nil? then first else App(CODE_INTERNAL, MESSAGE_INTERNAL, e)
  }

  /** The tree with every text that is not an application error's own removed, and everything beneath those errors. */
  function Redact(e: Err): Err
    decreases e
  {
    match e
    case App(code, message, _) => App(code, message, Nil)
    case NilApp => NilApp
    case Joined(_, causes) => Joined("", RedactAll(causes))
    case Wrapped(_, cause) => Wrapped("", Redact(cause))
    case Plain(_) => Plain("")
    case Nil => Nil
  }

  function RedactAll(causes: seq<Err>): seq<Err>
    decreases causes
  {
    if causes == [] then []
    else [Redact(causes[0])] + RedactAll(causes[1..])
  }

  /** Every error of the tree, in pre-order. */
  function Visited(e: Err): seq<Err>
    decreases e
  {
    match e
    case Nil => []
    case App(_, _, cause) => [e] + Visited(cause)
    case Joined(_, causes) => [e] + VisitedAll(causes)
    case Wrapped(_, cause) => [e] + Visited(cause)
    case _ => [e]
  }

  function VisitedAll(causes: seq<Err>): seq<Err>
    decreases causes
  {
    if causes == [] then [] else Visited(causes[0]) + VisitedAll(causes[1..])
  }

  lemma {:induction false} VisitedIff(e: Err, x: Err)
    ensures x in Visited(e) <==> !x.Nil? && Below(e, x)
    decreases e
  {
    match e
    case App(_, _, cause) => VisitedIff(cause, x);
    case Wrapped(_, cause) => VisitedIff(cause, x);
    case Joined(_, causes) => VisitedAllIff(causes, x);
    case _ =>
  }

  lemma {:induction false} VisitedAllIff(causes: seq<Err>, x: Err)
    ensures x in VisitedAll(causes) <==>
      !x.Nil? && exists i :: 0 <= i < |causes| && !causes[i].Nil? && Below(causes[i], x)
    decreases causes
  {
    if causes != [] {
      VisitedIff(causes[0], x);
      VisitedAllIff(causes[1..], x);
      assert forall i :: 1 <= i < |causes| ==> causes[i] == causes[1..][i - 1];
    }
  }

  predicate AppAt(errs: seq<Err>, k: nat)
    requires k < |errs|
  {
    errs[k].App? || errs[k].NilApp?
  }

  ghost predicate FirstAppAt(errs: seq<Err>, k: nat) {
    k < |errs| && AppAt(errs, k) && forall i: nat :: i < k ==> !AppAt(errs, i)
  }

  /** The first application error of a list. */
  function FirstIn(errs: seq<Err>): (a: Err)
    ensures a.Nil? <==> forall i: nat :: i < |errs| ==> !AppAt(errs, i)
    ensures !a.Nil? ==> exists k: nat :: FirstAppAt(errs, k) && errs[k] == a
  {
    if errs == [] then Nil
    else if AppAt(errs, 0) then
      assert FirstAppAt(errs, 0);
      errs[0]
    else
      var a := FirstIn(errs[1..]);
      assert forall i: nat :: 1 <= i < |errs| ==> (AppAt(errs, i) <==> AppAt(errs[1..], i - 1));
      assert forall i: nat :: i < |errs[1..]| && AppAt(errs[1..], i) ==> AppAt(errs, i + 1);
      assert !a.Nil? ==> exists k: nat :: FirstAppAt(errs, k) && errs[k] == a by {
        if !a.Nil? {
          var k: nat :| FirstAppAt(errs[1..], k) && errs[1..][k] == a;
          assert FirstAppAt(errs, k + 1) && errs[k + 1] == a;
        }
      }
      a
  }

  lemma {:induction false} FirstInAppend(a: seq<Err>, b: seq<Err>)
    ensures FirstIn(a + b) == if FirstIn(a).Nil? then FirstIn(b) else FirstIn(a)
    decreases |a|
  {
    if a == [] {
      assert a + b == b;
    } else {
      assert (a + b)[0] == a[0] && (a + b)[1..] == a[1..] + b;
      FirstInAppend(a[1..], b);
    }
  }

  /** An application error is found itself, behind a wrapper its cause's, of joined causes the first's that has one. */
  lemma FirstAppExact(e: Err, k: nat)
    ensures e.App? || e.NilApp? ==> FirstApp(e) == e
    ensures e.Wrapped? ==> FirstApp(e) == FirstApp(e.cause)
    ensures e.Plain? || e.Nil? ==> FirstApp(e) == Nil
    ensures e.Joined? && k < |e.causes| && !FirstApp(e.causes[k]).Nil? ==>
      (forall i :: 0 <= i < k ==> FirstApp(e.causes[i]).Nil?) ==> FirstApp(e) == FirstApp(e.causes[k])
    ensures e.Joined? ==>
      (forall i :: 0 <= i < |e.causes| ==> FirstApp(e.causes[i]).Nil?) ==> FirstApp(e) == Nil
  {
    if e.Joined? { FirstAppInExact(e.causes, k); }
  }

  lemma {:induction false} FirstAppInExact(causes: seq<Err>, k: nat)
    ensures k < |causes| && !FirstApp(causes[k]).Nil? && (forall i :: 0 <= i < k ==> FirstApp(causes[i]).Nil?) ==>
      FirstAppIn(causes) == FirstApp(causes[k])
    ensures (forall i :: 0 <= i < |causes| ==> FirstApp(causes[i]).Nil?) ==> FirstAppIn(causes) == Nil
    decreases causes
  {
    hide FirstApp;
    if causes != [] {
      FirstAppInExact(causes[1..], if k > 0 then k - 1 else 0);
      assert forall i :: 1 <= i < |causes| ==> causes[i] == causes[1..][i - 1];
    }
  }

  /** What is found is the first application error of the whole tree in pre-order, so none lies above it. */
  lemma {:induction false} FirstAppMeaning(e: Err)
    ensures FirstApp(e) == FirstIn(Visited(e))
    decreases e
  {
    match e
    case Joined(_, causes) =>
      FirstAppInMeaning(causes);
      FirstInAppend([e], VisitedAll(causes));
    case Wrapped(_, cause) =>
      FirstAppMeaning(cause);
      FirstInAppend([e], Visited(cause));
    case App(_, _, cause) =>
      FirstInAppend([e], Visited(cause));
    case _ =>
  }

  lemma {:induction false} FirstAppInMeaning(causes: seq<Err>)
    ensures FirstAppIn(causes) == FirstIn(VisitedAll(causes))
    decreases causes
  {
    if causes != [] {
      FirstAppMeaning(causes[0]);
      FirstAppInMeaning(causes[1..]);
      FirstInAppend(Visited(causes[0]), VisitedAll(causes[1..]));
    }
  }

  /**
   * The user's text depends on nothing but the code and message of the first application error in pre-order, or on
   * there being none: no internal cause, no wrapper text and no other branch can reach it.
   */
  lemma UserTextIsSafe(e: Err, other: Err)
    requires e.Nil? <==> other.Nil?
    requires Redact(FirstIn(Visited(e))) == Redact(FirstIn(Visited(other)))
    ensures Message(AsAppError(e)) == Message(AsAppError(other))
  {
    FirstAppMeaning(e);
    FirstAppMeaning(other);
  }

  lemma {:induction false} FirstAppOfRedacted(e: Err)
    ensures !FirstApp(Redact(e)).Nil? <==> !FirstApp(e).Nil?
    ensures !FirstApp(e).Nil? ==> FirstApp(Redact(e)) == Redact(FirstApp(e))
    ensures Message(AsAppError(Redact(e))) == Message(AsAppError(e))
    decreases e
  {
    match e
    case Joined(_, causes) => FirstAppOfRedactedIn(causes);
    case Wrapped(_, cause) => FirstAppOfRedacted(cause);
    case _ =>
  }

  lemma {:induction false} FirstAppOfRedactedIn(causes: seq<Err>)
    ensures !FirstAppIn(RedactAll(causes)).Nil? <==> !FirstAppIn(causes).Nil?
    ensures !FirstAppIn(causes).Nil? ==> FirstAppIn(RedactAll(causes)) == Redact(FirstAppIn(causes))
    decreases causes
  {
    if causes != [] {
      FirstAppOfRedacted(causes[0]);
      FirstAppOfRedactedIn(causes[1..]);
    }
  }

  /**
   * What AsAppError returns: the application error that is found, with its own cause; for an error without one, the
   * internal error around it, whose log still contains the text of every leaf.
   */
  lemma AsAppErrorKeeps(e: Err)
    requires !e.Nil?
    ensures !FirstApp(e).Nil? ==> AsAppError(e) == FirstApp(e) && Below(e, AsAppError(e))
    ensures FirstApp(e).Nil? ==>
      && AsAppError(e) == App("11000", MESSAGE_INTERNAL, e)
      && Message(AsAppError(e)) == "[11000] " + MESSAGE_INTERNAL
      && forall x :: Below(e, x) && Leaf(x) ==> Contains(Log(AsAppError(e)), Message(x))
  {
    if !FirstApp(e).Nil? {
      FirstAppMeaning(e);
      var k: nat :| FirstAppAt(Visited(e), k) && Visited(e)[k] == FirstApp(e);
      VisitedIff(e, FirstApp(e));
    } else {
      var app := AsAppError(e);
      forall x | Below(e, x) && Leaf(x) ensures Contains(Log(app), Message(x)) {
        assert Below(app, x);
        LogLosesNothing(app, x);
      }
    }
  }

  /** An error made from a template keeps the template's code and message, and loses nothing of the cause in the log. */
  lemma WithCauseKeeps(template: Err, cause: Err)
    requires template.App?
    ensures Message(WithCause(template, cause)) == Message(template)
    ensures Redact(WithCause(template, cause)) == Redact(template)
    ensures !cause.Nil? ==> Contains(Log(WithCause(template, cause)), Log(cause))
  {
    var e := WithCause(template, cause);
    if !cause.Nil? {
      assert Below(e, cause);
      LogKeepsAll(e, cause);
    }
  }

  // ---- recognising templates ----

  /** (*Error).Is */
  predicate IsApp(e: Err, target: Err) {
    e.App? && target.App? && e.code != "" && e.code == target.code
  }

  /** errors.Is against an application error: the tree is searched in pre-order with (*Error).Is. */
  predicate ErrorsIs(e: Err, target: Err)
    decreases e
  {
    IsApp(e, target) ||
    match e
    case App(_, _, cause) => !cause.Nil? && ErrorsIs(cause, target)
    case Joined(_, causes) => ErrorsIsAny(causes, target)
    case Wrapped(_, cause) => !cause.Nil? && ErrorsIs(cause, target)
    case _ => false
  }

  predicate ErrorsIsAny(causes: seq<Err>, target: Err)
    decreases causes
  {
    causes != [] && ((!causes[0].Nil? && ErrorsIs(causes[0], target)) || ErrorsIsAny(causes[1..], target))
  }

  /** The search finds a template exactly when some error in the tree carries its code. */
  lemma ErrorsIsMeaning(e: Err, target: Err)
    ensures ErrorsIs(e, target) <==>
      exists x :: Below(e, x) && x.App? && target.App? && x.code == target.code != ""
  {
    if ErrorsIs(e, target) { var x := Found(e, target); }
    if x :| Below(e, x) && x.App? && target.App? && x.code == target.code != "" { Finds(e, x, target); }
  }

  lemma {:induction false} Found(e: Err, target: Err) returns (x: Err)
    requires ErrorsIs(e, target)
    ensures Below(e, x) && IsApp(x, target)
    decreases e
  {
    if IsApp(e, target) {
      x := e;
    } else {
      var c := ChildFound(e, target);
      x := Found(c, target);
      ChildBelow(e, c, x);
    }
  }

  lemma ChildFound(e: Err, target: Err) returns (c: Err)
    requires ErrorsIs(e, target) && !IsApp(e, target)
    ensures Child(e, c) && c < e && ErrorsIs(c, target)
  {
    match e
    case App(_, _, cause) => c := cause;
    case Joined(_, causes) => c := ListedFound(causes, target);
    case Wrapped(_, cause) => c := cause;
  }

  lemma {:induction false} ListedFound(causes: seq<Err>, target: Err) returns (c: Err)
    requires ErrorsIsAny(causes, target)
    ensures c in causes && ErrorsIs(c, target)
  {
    if !causes[0].Nil? && ErrorsIs(causes[0], target) {
      c := causes[0];
    } else {
      c := ListedFound(causes[1..], target);
    }
  }

  lemma {:induction false} Finds(e: Err, x: Err, target: Err)
    requires Below(e, x) && IsApp(x, target)
    ensures ErrorsIs(e, target)
    decreases e
  {
    if x != e {
      var c := ChildTowards(e, x);
      Finds(c, x, target);
      if e.Joined? { ListedFinds(e.causes, c, target); }
    }
  }

  lemma {:induction false} ListedFinds(causes: seq<Err>, c: Err, target: Err)
    requires c in causes && !c.Nil? && ErrorsIs(c, target)
    ensures ErrorsIsAny(causes, target)
  {
    if causes[0] != c { ListedFinds(causes[1..], c, target); }
  }

  lemma ChildBelow(e: Err, c: Err, x: Err)
    requires Child(e, c) && Below(c, x)
    ensures Below(e, x)
  {
  }

  /** An error made from a template is still recognised by it, under any further wrapping. */
  lemma WrappingKeepsTemplate(template: Err, cause: Err, e: Err)
    requires template.App? && template.code != "" && Below(e, WithCause(template, cause))
    ensures ErrorsIs(e, template)
  {
    ErrorsIsMeaning(e, template);
    assert IsApp(WithCause(template, cause), template);
  }
}
