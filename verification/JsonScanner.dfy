/**
 * The duplicate-key check of the relayer configuration, over the token reader of encoding/json.
 * The input is a list of lexemes; the reader's own state machine decides where a lexeme may stand.
 */
module JsonScanner {
  import opened Json

  /** Lexeme(NotJson) stands for bytes that are no lexeme at all. */
  datatype Lexeme = LBrace | RBrace | LBracket | RBracket | Colon | Comma | Literal(lit: Lit)

  /** The tokenState constants of json.Decoder. */
  datatype TokenState =
    | TopValue | ArrayStart | ArrayValue | ArrayComma
    | ObjectStart | ObjectKey | ObjectColon | ObjectValue | ObjectComma

  datatype Token = Delim(c: char) | Plain(lit: Lit)

  /** What a reader has left to read, and where it stands. */
  datatype Reader = Reader(input: seq<Lexeme>, state: TokenState, stack: seq<TokenState>)

  datatype Read = EndOfInput | SyntaxError | Next(token: Token, after: Reader)

  predicate ValueAllowed(s: TokenState) {
    s in {TopValue, ArrayStart, ArrayValue, ObjectValue}
  }

  function ValueEnd(s: TokenState): TokenState {
    match s
    case ArrayStart => ArrayComma
    case ArrayValue => ArrayComma
    case ObjectValue => ObjectComma
    case _ => s
  }

  /** Decoder.Token: separators are consumed on the way to the next token. */
  function ReadToken(r: Reader): (t: Read)
    ensures t.Next? ==> |t.after.input| < |r.input|
    decreases |r.input|
  {
    if r.input == [] then EndOfInput
    else
      var rest := r.input[1..];
      match r.input[0]
      case LBracket =>
        if ValueAllowed(r.state) then Next(Delim('['), Reader(rest, ArrayStart, r.stack + [r.state])) else SyntaxError
      case LBrace =>
        if ValueAllowed(r.state) then Next(Delim('{'), Reader(rest, ObjectStart, r.stack + [r.state])) else SyntaxError
      case RBracket =>
        if r.state in {ArrayStart, ArrayComma} && r.stack != [] then Next(Delim(']'), Popped(rest, r.stack))
        else SyntaxError
      case RBrace =>
        if r.state in {ObjectStart, ObjectComma} && r.stack != [] then Next(Delim('}'), Popped(rest, r.stack))
        else SyntaxError
      case Colon =>
        if r.state == ObjectColon then ReadToken(Reader(rest, ObjectValue, r.stack)) else SyntaxError
      case Comma =>
        if r.state == ArrayComma then ReadToken(Reader(rest, ArrayValue, r.stack))
        else if r.state == ObjectComma then ReadToken(Reader(rest, ObjectKey, r.stack))
        else SyntaxError
      case Literal(lit) =>
        if lit == NotJson then SyntaxError
        else if lit.Text? && r.state in {ObjectStart, ObjectKey} then
          Next(Plain(lit), Reader(rest, ObjectColon, r.stack))
        else if ValueAllowed(r.state) then Next(Plain(lit), Reader(rest, ValueEnd(r.state), r.stack))
        else SyntaxError
  }

  function Popped(rest: seq<Lexeme>, stack: seq<TokenState>): Reader
    requires stack != []
  {
    Reader(rest, ValueEnd(stack[|stack| - 1]), stack[..|stack| - 1])
  }

  /** Decoder.More */
  predicate HasMore(r: Reader) {
    r.input != [] && r.input[0] != RBracket && r.input[0] != RBrace
  }

  // ---- scanJSONValue as a function of the reader ----

  function ScanValue(r: Reader): (after: Option<Reader>)
    ensures after.Some? ==> |after.value.input| < |r.input|
    decreases |r.input|, 1
  {
    match ReadToken(r)
    case Next(Plain(_), after) => Some(after)
    case Next(Delim('{'), after) => ScanMembers(after, {})
    case Next(Delim('['), after) => ScanElements(after)
    case _ => None
  }

  function ScanMembers(r: Reader, keys: set<string>): (after: Option<Reader>)
    ensures after.Some? ==> |after.value.input| < |r.input|
    decreases |r.input|, 0
  {
    match ReadToken(r)
    case Next(token, next) =>
      if !HasMore(r) then (if token == Delim('}') then Some(next) else None)
      else if !token.Plain? || !token.lit.Text? || token.lit.s in keys then None
      else
        var value := ScanValue(next);
        if value.None? then None else ScanMembers(value.value, keys + {token.lit.s})
    case _ => None
  }

  function ScanElements(r: Reader): (after: Option<Reader>)
    ensures after.Some? ==> |after.value.input| < |r.input|
    decreases |r.input|, 2
  {
    if HasMore(r) then
      var value := ScanValue(r);
      if value.None? then None else ScanElements(value.value)
    else
      match ReadToken(r)
      case Next(token, next) => if token == Delim(']') then Some(next) else None
      case _ => None
  }

  // ---- documents as lexemes ----

  /** The separator that comes before a value read in this state. */
  function Lead(s: TokenState): seq<Lexeme> {
    match s
    case ArrayComma => [Comma]
    case ObjectColon => [Colon]
    case ObjectComma => [Comma]
    case _ => []
  }

  function Lexemes(doc: Doc): seq<Lexeme>
    decreases doc
  {
    match doc
    case DocScalar(lit) => [Literal(lit)]
    case DocArr(items) => [LBracket] + ItemLexemes(ArrayStart, items) + [RBracket]
    case DocObj(members) => [LBrace] + MemberLexemes(ObjectStart, members) + [RBrace]
  }

  function ItemLexemes(s: TokenState, items: seq<Doc>): seq<Lexeme>
    decreases items
  {
    if items == [] then [] else Lead(s) + Lexemes(items[0]) + ItemLexemes(ArrayComma, items[1..])
  }

  function MemberLexemes(s: TokenState, members: seq<Member>): seq<Lexeme>
    decreases members
  {
    if members == [] then []
    else
      Lead(s) + [Literal(Text(members[0].name)), Colon] + Lexemes(members[0].value)
      + MemberLexemes(ObjectComma, members[1..])
  }

  /** States in which scanJSONValue is called, and the state it leaves. */
  predicate BeforeValue(s: TokenState) {
    s in {TopValue, ArrayStart, ArrayComma, ObjectColon}
  }

  function AfterValue(s: TokenState): TokenState {
    match s
    case ArrayStart => ArrayComma
    case ObjectColon => ObjectComma
    case _ => s
  }

  lemma LexemesStart(doc: Doc)
    ensures Lexemes(doc) != [] && Lexemes(doc)[0] !in {RBracket, RBrace, Colon, Comma}
  {
  }

  /** The state in which the value itself is read, once its separator has been consumed. */
  function Inner(s: TokenState): TokenState {
    match s
    case ArrayComma => ArrayValue
    case ObjectColon => ObjectValue
    case ObjectComma => ObjectKey
    case _ => s
  }

  lemma ReadLead(r: Reader, body: seq<Lexeme>)
    requires r.input == Lead(r.state) + body
    ensures ReadToken(r) == ReadToken(Reader(body, Inner(r.state), r.stack))
    ensures body != [] && body[0] !in {RBracket, RBrace} ==> HasMore(r)
  {
    var open := Reader(body, Inner(r.state), r.stack);
    if Lead(r.state) == [] {
      assert r.input == body;
      assert open == r;
    } else {
      assert r.input[0] == Lead(r.state)[0] && r.input[1..] == body;
      if r.state == ArrayComma {
        assert ReadToken(r) == ReadToken(open);
      } else if r.state == ObjectComma {
        assert ReadToken(r) == ReadToken(open);
      }
    }
  }

  lemma ReadFirst(x: Lexeme, rest: seq<Lexeme>, s: TokenState, stack: seq<TokenState>)
    ensures var t := ReadToken(Reader([x] + rest, s, stack));
      && (x == LBracket && ValueAllowed(s) ==> t == Next(Delim('['), Reader(rest, ArrayStart, stack + [s])))
      && (x == LBrace && ValueAllowed(s) ==> t == Next(Delim('{'), Reader(rest, ObjectStart, stack + [s])))
      && (x == RBracket && s in {ArrayStart, ArrayComma} && stack != [] ==> t == Next(Delim(']'), Popped(rest, stack)))
      && (x == RBrace && s in {ObjectStart, ObjectComma} && stack != [] ==> t == Next(Delim('}'), Popped(rest, stack)))
      && (x.Literal? && x.lit == NotJson ==> t == SyntaxError)
      && (x.Literal? && x.lit != NotJson && ValueAllowed(s) && s != ObjectStart ==>
            t == Next(Plain(x.lit), Reader(rest, ValueEnd(s), stack)))
      && (x.Literal? && x.lit.Text? && s in {ObjectStart, ObjectKey} ==>
            t == Next(Plain(x.lit), Reader(rest, ObjectColon, stack)))
  {
  }

  // ---- complete: on the lexemes of a tree the scan consumes exactly that tree ----

  lemma {:induction false} ScanTree(doc: Doc, r: Reader, rest: seq<Lexeme>)
    requires BeforeValue(r.state) && r.input == Lead(r.state) + Lexemes(doc) + rest
    ensures ScanValue(r) == if DuplicateFree(doc) then Some(Reader(rest, AfterValue(r.state), r.stack)) else None
    decreases doc, 1
  {
    hide ReadToken, ItemLexemes, MemberLexemes, ScanElements, ScanMembers, ScanValue,
      Lexemes, HasMore, Popped, DuplicateFree;
    hide MembersFree;
    FreeIff(doc);
    match doc
    case DocScalar(lit) =>
      LiteralHere(lit, r, rest);
    case DocArr(items) =>
      ArrayHere(items, r, rest);
      PoppedPush(rest, r.stack, r.state);
      var stack := r.stack + [Inner(r.state)];
      ScanItems(items, Reader(ItemLexemes(ArrayStart, items) + [RBracket] + rest, ArrayStart, stack), rest);
    case DocObj(members) =>
      ObjectHere(members, r, rest);
      PoppedPush(rest, r.stack, r.state);
      var stack := r.stack + [Inner(r.state)];
      ScanMemberList(
        members, {}, Reader(MemberLexemes(ObjectStart, members) + [RBrace] + rest, ObjectStart, stack), rest);
  }

  lemma FreeIff(doc: Doc)
    ensures DuplicateFree(doc) <==>
      match doc
      case DocScalar(lit) => lit != NotJson
      case DocArr(items) => forall i :: 0 <= i < |items| ==> DuplicateFree(items[i])
      case DocObj(members) => MembersFree(members, {})
  {
  }

  lemma PoppedPush(rest: seq<Lexeme>, stack: seq<TokenState>, s: TokenState)
    requires BeforeValue(s)
    ensures Popped(rest, stack + [Inner(s)]) == Reader(rest, AfterValue(s), stack)
  {
  }

  lemma LiteralHere(lit: Lit, r: Reader, rest: seq<Lexeme>)
    requires BeforeValue(r.state) && r.input == Lead(r.state) + Lexemes(DocScalar(lit)) + rest
    ensures ScanValue(r) == if lit == NotJson then None else Some(Reader(rest, AfterValue(r.state), r.stack))
  {
    hide ReadToken, HasMore;
    assert r.input == Lead(r.state) + ([Literal(lit)] + rest);
    ReadLead(r, [Literal(lit)] + rest);
    ReadFirst(Literal(lit), rest, Inner(r.state), r.stack);
  }

  lemma ArrayHere(items: seq<Doc>, r: Reader, rest: seq<Lexeme>)
    requires BeforeValue(r.state) && r.input == Lead(r.state) + Lexemes(DocArr(items)) + rest
    ensures ScanValue(r) ==
      ScanElements(Reader(ItemLexemes(ArrayStart, items) + [RBracket] + rest, ArrayStart, r.stack + [Inner(r.state)]))
  {
    hide ReadToken, HasMore, ItemLexemes, ScanElements;
    var body := ItemLexemes(ArrayStart, items) + [RBracket] + rest;
    assert r.input == Lead(r.state) + ([LBracket] + body);
    ReadLead(r, [LBracket] + body);
    ReadFirst(LBracket, body, Inner(r.state), r.stack);
  }

  lemma ObjectHere(members: seq<Member>, r: Reader, rest: seq<Lexeme>)
    requires BeforeValue(r.state) && r.input == Lead(r.state) + Lexemes(DocObj(members)) + rest
    ensures ScanValue(r) ==
      ScanMembers(
        Reader(MemberLexemes(ObjectStart, members) + [RBrace] + rest, ObjectStart, r.stack + [Inner(r.state)]), {})
  {
    hide ReadToken, HasMore, MemberLexemes, ScanMembers;
    var body := MemberLexemes(ObjectStart, members) + [RBrace] + rest;
    assert r.input == Lead(r.state) + ([LBrace] + body);
    ReadLead(r, [LBrace] + body);
    ReadFirst(LBrace, body, Inner(r.state), r.stack);
  }

  lemma {:induction false} ScanItems(items: seq<Doc>, r: Reader, rest: seq<Lexeme>)
    requires r.state in {ArrayStart, ArrayComma} && r.stack != []
    requires r.input == ItemLexemes(r.state, items) + [RBracket] + rest
    ensures ScanElements(r) ==
      if forall i :: 0 <= i < |items| ==> DuplicateFree(items[i]) then Some(Popped(rest, r.stack)) else None
    decreases items, 0
  {
    hide ReadToken, DuplicateFree, ScanValue;
    if items == [] {
      assert r.input == [RBracket] + rest;
      ReadFirst(RBracket, rest, r.state, r.stack);
    } else {
      var tail := ItemLexemes(ArrayComma, items[1..]) + [RBracket] + rest;
      assert r.input == Lead(r.state) + Lexemes(items[0]) + tail == Lead(r.state) + (Lexemes(items[0]) + tail);
      LexemesStart(items[0]);
      ReadLead(r, Lexemes(items[0]) + tail);
      ScanTree(items[0], r, tail);
      if DuplicateFree(items[0]) {
        ScanItems(items[1..], Reader(tail, ArrayComma, r.stack), rest);
        assert forall i :: 1 <= i < |items| ==> items[i] == items[1..][i - 1];
      }
    }
  }

  ghost predicate MembersFree(members: seq<Member>, keys: set<string>) {
    && (forall i :: 0 <= i < |members| ==> DuplicateFree(members[i].value) && members[i].name !in keys)
    && (forall i, j :: 0 <= i < j < |members| ==> members[i].name != members[j].name)
  }

  lemma MembersFreeCons(members: seq<Member>, keys: set<string>)
    requires members != []
    ensures MembersFree(members, keys) <==>
      members[0].name !in keys && DuplicateFree(members[0].value) && MembersFree(members[1..], keys + {members[0].name})
  {
  }

  lemma {:induction false} ScanMemberList(members: seq<Member>, keys: set<string>, r: Reader, rest: seq<Lexeme>)
    requires r.state in {ObjectStart, ObjectComma} && r.stack != []
    requires r.input == MemberLexemes(r.state, members) + [RBrace] + rest
    ensures ScanMembers(r, keys) == if MembersFree(members, keys) then Some(Popped(rest, r.stack)) else None
    decreases members, 0
  {
    hide ReadToken, HasMore, Lexemes, DuplicateFree, ScanValue, ScanMembers, MembersFree;
    if members == [] {
      NoMembersLeft(keys, r, rest);
    } else {
      var m := members[0];
      var tail := MemberLexemes(ObjectComma, members[1..]) + [RBrace] + rest;
      var afterKey := Reader([Colon] + Lexemes(m.value) + tail, ObjectColon, r.stack);
      assert r.input == Lead(r.state) + ([Literal(Text(m.name))] + afterKey.input);
      KeyTurn(m.name, keys, r, afterKey);
      MembersFreeCons(members, keys);
      if m.name !in keys {
        ScanTree(m.value, afterKey, tail);
        if DuplicateFree(m.value) {
          ScanMemberList(members[1..], keys + {m.name}, Reader(tail, ObjectComma, r.stack), rest);
        }
      }
    }
  }

  lemma NoMembersLeft(keys: set<string>, r: Reader, rest: seq<Lexeme>)
    requires r.state in {ObjectStart, ObjectComma} && r.stack != []
    requires r.input == MemberLexemes(r.state, []) + [RBrace] + rest
    ensures ScanMembers(r, keys) == Some(Popped(rest, r.stack)) && MembersFree([], keys)
  {
  }

  /** One turn of the member loop on a key. */
  lemma KeyTurn(name: string, keys: set<string>, r: Reader, afterKey: Reader)
    requires r.state in {ObjectStart, ObjectComma}
    requires r.input == Lead(r.state) + ([Literal(Text(name))] + afterKey.input)
    requires afterKey.state == ObjectColon && afterKey.stack == r.stack
    ensures ScanMembers(r, keys) ==
      if name in keys || ScanValue(afterKey).None? then None else ScanMembers(ScanValue(afterKey).value, keys + {name})
  {
    hide ReadToken, ScanValue, HasMore;
    var key := Literal(Text(name));
    ReadLead(r, [key] + afterKey.input);
    ReadFirst(key, afterKey.input, Inner(r.state), r.stack);
  }

  // ---- sound: what the scan consumes is a duplicate-free tree ----

  function LexemeOf(t: Token): Lexeme {
    match t
    case Plain(lit) => Literal(lit)
    case Delim(c) => if c == '[' then LBracket else if c == '{' then LBrace else if c == ']' then RBracket else RBrace
  }

  lemma TokenHere(r: Reader)
    requires ValueAllowed(r.state) && r.state != ObjectStart && ReadToken(r).Next?
    ensures var t := ReadToken(r);
      && r.input == [LexemeOf(t.token)] + t.after.input
      && (t.token.Delim? ==> t.token.c in {'[', ']', '{', '}'})
      && (t.token.Plain? ==> t.token.lit != NotJson)
      && (t.token == Delim('[') ==> t.after.state == ArrayStart && t.after.stack == r.stack + [r.state])
      && (t.token == Delim('{') ==> t.after.state == ObjectStart && t.after.stack == r.stack + [r.state])
  {
  }

  /** A token that starts a value stands right behind its separator. */
  lemma TokenSource(r: Reader)
    requires BeforeValue(r.state) && ReadToken(r).Next? && ReadToken(r).token !in {Delim(']'), Delim('}')}
    ensures var t := ReadToken(r);
      && r.input == Lead(r.state) + [LexemeOf(t.token)] + t.after.input
      && (t.token.Delim? ==> t.token.c in {'[', '{'})
      && (t.token.Plain? ==> t.token.lit != NotJson)
      && (t.token == Delim('[') ==> t.after.state == ArrayStart && t.after.stack == r.stack + [Inner(r.state)])
      && (t.token == Delim('{') ==> t.after.state == ObjectStart && t.after.stack == r.stack + [Inner(r.state)])
  {
    if Lead(r.state) == [] {
      TokenHere(r);
      hide ReadToken;
      assert r.input == [] + r.input;
    } else {
      var open := Reader(r.input[1..], Inner(r.state), r.stack);
      assert [r.input[0]] == Lead(r.state) && ReadToken(r) == ReadToken(open);
      TokenHere(open);
      hide ReadToken;
      assert r.input == Lead(r.state) + open.input;
    }
  }

  lemma {:induction false} ScanSound(r: Reader) returns (doc: Doc)
    requires BeforeValue(r.state) && ScanValue(r).Some?
    ensures DuplicateFree(doc)
    ensures r.input == Lead(r.state) + Lexemes(doc) + ScanValue(r).value.input
    decreases |r.input|, 1
  {
    hide ReadToken, ScanElements, ScanMembers, ItemLexemes, MemberLexemes;
    TokenSource(r);
    var t := ReadToken(r);
    if t.token.Plain? {
      doc := DocScalar(t.token.lit);
    } else if t.token == Delim('[') {
      var items := ElementsSound(t.after);
      doc := DocArr(items);
      var rest := ScanElements(t.after).value.input;
      assert r.input == Lead(r.state) + [LBracket] + (ItemLexemes(ArrayStart, items) + [RBracket] + rest);
    } else {
      var members := MembersSound(t.after, {});
      doc := DocObj(members);
      var rest := ScanMembers(t.after, {}).value.input;
      assert r.input == Lead(r.state) + [LBrace] + (MemberLexemes(ObjectStart, members) + [RBrace] + rest);
    }
  }

  lemma {:induction false} ElementsSound(r: Reader) returns (items: seq<Doc>)
    requires r.state in {ArrayStart, ArrayComma} && r.stack != [] && ScanElements(r).Some?
    ensures forall i :: 0 <= i < |items| ==> DuplicateFree(items[i])
    ensures r.input == ItemLexemes(r.state, items) + [RBracket] + ScanElements(r).value.input
    ensures ScanElements(r).value == Popped(ScanElements(r).value.input, r.stack)
    decreases |r.input|, 2
  {
    hide ReadToken, HasMore, Lexemes, ScanValue, DuplicateFree, ScanElements;
    if HasMore(r) {
      var next := ElementStep(r);
      var doc := ScanSound(r);
      ScanTree(doc, r, next.input);
      var tail := ElementsSound(next);
      items := [doc] + tail;
      assert items[1..] == tail;
    } else {
      items := [];
      NoElements(r);
    }
  }

  lemma ElementStep(r: Reader) returns (next: Reader)
    requires ScanElements(r).Some? && HasMore(r)
    ensures ScanValue(r) == Some(next) && ScanElements(r) == ScanElements(next) && |next.input| < |r.input|
  {
    next := ScanValue(r).value;
  }

  lemma NoElements(r: Reader)
    requires r.state in {ArrayStart, ArrayComma} && r.stack != [] && ScanElements(r).Some? && !HasMore(r)
    ensures ScanElements(r) == Some(Popped(ScanElements(r).value.input, r.stack))
    ensures r.input == [RBracket] + ScanElements(r).value.input
  {
  }

  lemma {:induction false} MembersSound(r: Reader, keys: set<string>) returns (members: seq<Member>)
    requires r.state in {ObjectStart, ObjectComma} && r.stack != [] && ScanMembers(r, keys).Some?
    ensures MembersFree(members, keys)
    ensures r.input == MemberLexemes(r.state, members) + [RBrace] + ScanMembers(r, keys).value.input
    ensures ScanMembers(r, keys).value == Popped(ScanMembers(r, keys).value.input, r.stack)
    decreases |r.input|, 0
  {
    hide ReadToken, ScanValue, ScanMembers, Lexemes, DuplicateFree, HasMore, MembersFree;
    if HasMore(r) {
      var name, afterKey := MemberStep(r, keys);
      var next := ScanValue(afterKey).value;
      var value := ScanSound(afterKey);
      ScanTree(value, afterKey, next.input);
      var tail := MembersSound(next, keys + {name});
      members := [Member(name, value)] + tail;
      assert members[1..] == tail;
      MembersFreeCons(members, keys);
      var rest := MemberLexemes(ObjectComma, tail) + [RBrace] + ScanMembers(next, keys + {name}).value.input;
      assert r.input == Lead(r.state) + [Literal(Text(name))] + ([Colon] + Lexemes(value) + rest);
    } else {
      members := [];
      NoMembers(r, keys);
    }
  }

  lemma NoMembers(r: Reader, keys: set<string>)
    requires r.state in {ObjectStart, ObjectComma} && r.stack != [] && ScanMembers(r, keys).Some? && !HasMore(r)
    ensures ScanMembers(r, keys) == Some(Popped(ScanMembers(r, keys).value.input, r.stack))
    ensures r.input == [RBrace] + ScanMembers(r, keys).value.input && MembersFree([], keys)
  {
  }

  /** One round of the member loop that goes on. */
  lemma {:induction false} MemberStep(r: Reader, keys: set<string>) returns (name: string, afterKey: Reader)
    requires r.state in {ObjectStart, ObjectComma} && ScanMembers(r, keys).Some? && HasMore(r)
    ensures r.input == Lead(r.state) + [Literal(Text(name))] + afterKey.input
    ensures afterKey.state == ObjectColon && afterKey.stack == r.stack && name !in keys
    ensures ScanValue(afterKey).Some? && |ScanValue(afterKey).value.input| < |afterKey.input| < |r.input|
    ensures ScanMembers(r, keys) == ScanMembers(ScanValue(afterKey).value, keys + {name})
  {
    KeyRead(r);
    name, afterKey := ReadToken(r).token.lit.s, ReadToken(r).after;
  }

  /** A token read in a key position is a key. */
  lemma KeyRead(r: Reader)
    requires r.state in {ObjectStart, ObjectComma} && HasMore(r) && ReadToken(r).Next?
    ensures var t := ReadToken(r);
      && t.token.Plain? && t.token.lit.Text? && t.after.state == ObjectColon && t.after.stack == r.stack
      && r.input == Lead(r.state) + [Literal(t.token.lit)] + t.after.input
  {
  }

  // ---- the whole check ----

  /** rejectDuplicateJSONKeys returns nil. */
  predicate Accepts(contents: seq<Lexeme>) {
    var after := ScanValue(Reader(contents, TopValue, []));
    after.Some? && ReadToken(after.value) == EndOfInput
  }

  /** Exactly the single documents without repeated names are accepted. */
  lemma AcceptsIff(contents: seq<Lexeme>)
    ensures Accepts(contents) <==> exists doc :: DuplicateFree(doc) && contents == Lexemes(doc)
  {
    var r := Reader(contents, TopValue, []);
    if Accepts(contents) {
      var doc := ScanSound(r);
      ScanTree(doc, r, ScanValue(r).value.input);
      assert contents == Lexemes(doc);
    }
    if doc :| DuplicateFree(doc) && contents == Lexemes(doc) {
      assert r.input == Lead(r.state) + Lexemes(doc) + [];
      ScanTree(doc, r, []);
    }
  }

  // ---- the Go functions, on a reader that they move forward ----

  class Decoder {
    var input: seq<Lexeme>
    var state: TokenState
    var stack: seq<TokenState>

    ghost function View(): Reader
      reads this
    {
      Reader(input, state, stack)
    }

    constructor (contents: seq<Lexeme>)
      ensures View() == Reader(contents, TopValue, [])
    {
      input, state, stack := contents, TopValue, [];
    }

    /** Decoder.Token; after an error nobody reads on. */
    method Token() returns (t: Read)
      modifies this
      ensures t == ReadToken(old(View()))
      ensures t.Next? ==> View() == t.after
    {
      t := ReadToken(Reader(input, state, stack));
      if t.Next? {
        input, state, stack := t.after.input, t.after.state, t.after.stack;
      }
    }

    method More() returns (more: bool)
      ensures more == HasMore(View())
    {
      more := HasMore(Reader(input, state, stack));
    }
  }

  method ScanJSONValue(decoder: Decoder) returns (ok: bool)
    modifies decoder
    ensures ok == ScanValue(old(decoder.View())).Some?
    ensures ok ==> decoder.View() == ScanValue(old(decoder.View())).value
    decreases |decoder.input|, 0
  {
    var t := decoder.Token();
    if !t.Next? {
      return false;
    }
    if t.token.Plain? {
      return true;
    }
    if t.token.c == '{' {
      ok := ScanObject(decoder);
    } else if t.token.c == '[' {
      ok := ScanArray(decoder);
    } else {
      ok := false;
    }
  }

  /** The '{' case: a set of the names seen so far in this object. */
  method ScanObject(decoder: Decoder) returns (ok: bool)
    modifies decoder
    ensures ok == ScanMembers(old(decoder.View()), {}).Some?
    ensures ok ==> decoder.View() == ScanMembers(old(decoder.View()), {}).value
    decreases |decoder.input|, 1
  {
    ghost var start := decoder.View();
    var keys: set<string> := {};
    var more := decoder.More();
    while more
      invariant more == HasMore(decoder.View())
      invariant ScanMembers(decoder.View(), keys) == ScanMembers(start, {})
      invariant |decoder.input| <= |start.input|
      decreases |decoder.input|
    {
      var key := decoder.Token();
      if !key.Next? || !key.token.Plain? || !key.token.lit.Text? || key.token.lit.s in keys {
        return false;
      }
      keys := keys + {key.token.lit.s};
      ok := ScanJSONValue(decoder);
      if !ok {
        return;
      }
      more := decoder.More();
    }
    var closing := decoder.Token();
    ok := closing.Next? && closing.token == Delim('}');
  }

  /** The '[' case. */
  method ScanArray(decoder: Decoder) returns (ok: bool)
    modifies decoder
    ensures ok == ScanElements(old(decoder.View())).Some?
    ensures ok ==> decoder.View() == ScanElements(old(decoder.View())).value
    decreases |decoder.input|, 1
  {
    ghost var start := decoder.View();
    var more := decoder.More();
    while more
      invariant more == HasMore(decoder.View())
      invariant ScanElements(decoder.View()) == ScanElements(start)
      invariant |decoder.input| <= |start.input|
      decreases |decoder.input|
    {
      ok := ScanJSONValue(decoder);
      if !ok {
        return;
      }
      more := decoder.More();
    }
    var closing := decoder.Token();
    ok := closing.Next? && closing.token == Delim(']');
  }

  /** rejectDuplicateJSONKeys: true when it returns no error. */
  method RejectDuplicateJSONKeys(contents: seq<Lexeme>) returns (ok: bool)
    ensures ok <==> exists doc :: DuplicateFree(doc) && contents == Lexemes(doc)
  {
    AcceptsIff(contents);
    var decoder := new Decoder(contents);
    ok := ScanJSONValue(decoder);
    if ok {
      var t := decoder.Token();
      ok := t == EndOfInput;
    }
  }
}
