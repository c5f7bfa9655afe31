/**
 * JSON serialization of concrete syntax trees.
 *
 * The serializer walks a syntax tree and drives a JSON writer: every node
 * becomes an object whose first key is "kind", followed by one key per
 * field the node's generated handler writes; tokens become either their raw
 * text or a small object with kind, text and (depending on the mode) trivia.
 *
 * The writer is modelled by the sequence of calls made on it. A separate
 * reading of that sequence, a stack machine that accepts exactly the call
 * sequences of one well-formed JSON document and records the keys it meets
 * with their nesting depth, states what the emitted stream means.
 */
module CSTSerializer {

  datatype Option<T> = None | Some(value: T)

  /** One call on the JSON writer; its formatting and escaping are not modelled. */
  datatype JsonEvent =
    | ObjectStart
    | ObjectEnd
    | ArrayStart
    | ArrayEnd
    | Property(name: string)
    | Value(text: string)

  /** How much detail is written for each token. */
  datatype CSTJsonMode = Full | SimpleTokens | NoTrivia | SimpleTrivia

  /** A piece of trivia; `kind` is the printed name of its kind. */
  datatype Trivia = Trivia(kind: string, rawText: string)

  datatype Token = Token(kind: string, rawText: string, valueText: string, trivia: seq<Trivia>)

  datatype SyntaxNode = SyntaxNode(kind: string, members: seq<Member>)

  /**
   * One field of a syntax node, in the shape its generated handler writes it:
   * a token, a child node, a child node that may be absent, a token list, a
   * node list, or a separated list.
   */
  datatype Member =
    | TokenMember(name: string, token: Token)
    | NodeMember(name: string, node: SyntaxNode)
    | OptionalNodeMember(name: string, optional: Option<SyntaxNode>)
    | TokenListMember(name: string, tokens: seq<Token>)
    | SyntaxListMember(name: string, items: seq<SyntaxNode>)
    | SeparatedListMember(name: string, children: seq<ListChild>)

  /** One slot of a separated list: a node, a token, or a slot holding neither. */
  datatype ListChild = ChildNode(node: SyntaxNode) | ChildToken(token: Token) | NoChild

  datatype SyntaxTree = SyntaxTree(root: SyntaxNode)

  // ---------------------------------------------------------------------------
  // The calls each writer makes
  // ---------------------------------------------------------------------------

  /** The trivia texts of `trivia` concatenated in order. */
  function TriviaText(trivia: seq<Trivia>): string
  {
    if trivia == [] then [] else TriviaText(trivia[..|trivia| - 1]) + trivia[|trivia| - 1].rawText
  }

  function ObjectOf(body: seq<JsonEvent>): seq<JsonEvent>
  {
    [ObjectStart] + body + [ObjectEnd]
  }

  function ArrayOf(elements: seq<JsonEvent>): seq<JsonEvent>
  {
    [ArrayStart] + elements + [ArrayEnd]
  }

  /** The "kind" and "text" keys with their string values. */
  function KindAndText(kind: string, text: string): seq<JsonEvent>
  {
    [Property("kind"), Value(kind), Property("text"), Value(text)]
  }

  function TriviaObject(t: Trivia): seq<JsonEvent>
  {
    ObjectOf(KindAndText(t.kind, t.rawText))
  }

  /** One kind/text object per piece of trivia, in order. */
  function TriviaObjects(trivia: seq<Trivia>): seq<JsonEvent>
  {
    if trivia == [] then [] else TriviaObjects(trivia[..|trivia| - 1]) + TriviaObject(trivia[|trivia| - 1])
  }

  /** Whether a token's "trivia" key is written at all. */
  predicate ShowsTrivia(mode: CSTJsonMode, token: Token)
  {
    mode != SimpleTokens && mode != NoTrivia && token.trivia != []
  }

  /** The "trivia" key of a token object and its value, or nothing. */
  function TriviaEvents(mode: CSTJsonMode, token: Token): seq<JsonEvent>
  {
    if !ShowsTrivia(mode, token) then []
    else if mode == SimpleTrivia then [Property("trivia"), Value(TriviaText(token.trivia))]
    else [Property("trivia")] + ArrayOf(TriviaObjects(token.trivia))
  }

  function TokenValueEvents(mode: CSTJsonMode, token: Token): seq<JsonEvent>
  {
    if mode == SimpleTokens then [Value(token.rawText)]
    else ObjectOf(KindAndText(token.kind, token.rawText) + TriviaEvents(mode, token))
  }

  function TokenValuesEvents(mode: CSTJsonMode, tokens: seq<Token>): seq<JsonEvent>
  {
    if tokens == [] then []
    else TokenValuesEvents(mode, tokens[..|tokens| - 1]) + TokenValueEvents(mode, tokens[|tokens| - 1])
  }

  function ArrayMember(name: string, elements: seq<JsonEvent>): seq<JsonEvent>
  {
    [Property(name)] + ArrayOf(elements)
  }

  function NodeEvents(mode: CSTJsonMode, node: SyntaxNode): seq<JsonEvent>
    decreases node, 2
  {
    ObjectOf([Property("kind"), Value(node.kind)] + MembersEvents(mode, node.members))
  }

  function MembersEvents(mode: CSTJsonMode, members: seq<Member>): seq<JsonEvent>
    decreases members, 1
  {
    if members == [] then []
    else MembersEvents(mode, members[..|members| - 1]) + MemberEvents(mode, members[|members| - 1])
  }

  function MemberEvents(mode: CSTJsonMode, m: Member): seq<JsonEvent>
    decreases m, 0
  {
    match m
    case TokenMember(name, token) =>
      if token.valueText == [] then [] else [Property(name)] + TokenValueEvents(mode, token)
    case NodeMember(name, node) =>
      [Property(name)] + NodeEvents(mode, node)
    case OptionalNodeMember(name, optional) =>
      (match optional
       case None => []
       case Some(node) => [Property(name)] + NodeEvents(mode, node))
    case TokenListMember(name, tokens) =>
      if tokens == [] then [] else ArrayMember(name, TokenValuesEvents(mode, tokens))
    case SyntaxListMember(name, items) =>
      if items == [] then [] else ArrayMember(name, NodesEvents(mode, items))
    case SeparatedListMember(name, children) =>
      if children == [] then [] else ArrayMember(name, ChildrenEvents(mode, children))
  }

  function NodesEvents(mode: CSTJsonMode, items: seq<SyntaxNode>): seq<JsonEvent>
    decreases items, 1
  {
    if items == [] then []
    else NodesEvents(mode, items[..|items| - 1]) + NodeEvents(mode, items[|items| - 1])
  }

  function ChildrenEvents(mode: CSTJsonMode, children: seq<ListChild>): seq<JsonEvent>
    decreases children, 1
  {
    if children == [] then []
    else ChildrenEvents(mode, children[..|children| - 1]) + ChildEvents(mode, children[|children| - 1])
  }

  function ChildEvents(mode: CSTJsonMode, child: ListChild): seq<JsonEvent>
    decreases child, 0
  {
    match child
    case ChildNode(node) => NodeEvents(mode, node)
    case ChildToken(token) => TokenValueEvents(mode, token)
    case NoChild => []
  }

  function TreeEvents(mode: CSTJsonMode, tree: SyntaxTree): seq<JsonEvent>
  {
    ObjectOf([Property("kind"), Value("SyntaxTree")] + ([Property("root")] + NodeEvents(mode, tree.root)))
  }

  /** Whether a member's writer emits anything: the skip rules, stated per kind of field. */
  predicate Emits(m: Member)
  {
    match m
    case TokenMember(_, token) => token.valueText != []
    case NodeMember(_, _) => true
    case OptionalNodeMember(_, optional) => optional.Some?
    case TokenListMember(_, tokens) => tokens != []
    case SyntaxListMember(_, items) => items != []
    case SeparatedListMember(_, children) => children != []
  }

  /** The names of the members that are written, in order. */
  function EmittedNames(members: seq<Member>): seq<string>
  {
    if members == [] then []
    else EmittedNames(members[..|members| - 1])
         + (if Emits(members[|members| - 1]) then [members[|members| - 1].name] else [])
  }

  /** The number of slots of a separated list that hold a node or a token. */
  function PresentCount(children: seq<ListChild>): nat
  {
    if children == [] then 0
    else PresentCount(children[..|children| - 1]) + (if children[|children| - 1].NoChild? then 0 else 1)
  }

  /** The keys of a token object: none in SimpleTokens mode, where no object is written. */
  function TokenKeys(mode: CSTJsonMode, token: Token): seq<string>
  {
    if mode == SimpleTokens then []
    else ["kind", "text"] + (if ShowsTrivia(mode, token) then ["trivia"] else [])
  }

  // ---------------------------------------------------------------------------
  // Reading a call sequence back: well-formed JSON and the keys it holds
  // ---------------------------------------------------------------------------

  /**
   * An open container: the document itself (filled once its single value is
   * written), an object (awaiting a value after a key, or awaiting a key or
   * its end), or an array holding `count` elements so far.
   */
  datatype Frame = Root(filled: bool) | InObject(awaitingValue: bool) | InArray(count: nat)

  /** A key met at a given nesting depth (the document is depth 1, its value's keys depth 2). */
  datatype KeyAt = KeyAt(depth: nat, name: string)

  datatype Outcome = Outcome(stack: seq<Frame>, keys: seq<KeyAt>)

  /** A value may be written here. */
  predicate ValuePosition(st: seq<Frame>)
  {
    |st| > 0 && (st[|st| - 1] == Root(false) || st[|st| - 1] == InObject(true) || st[|st| - 1].InArray?)
  }

  predicate Top(st: seq<Frame>, f: Frame)
  {
    |st| > 0 && st[|st| - 1] == f
  }

  predicate ArrayTop(st: seq<Frame>)
  {
    |st| > 0 && st[|st| - 1].InArray?
  }

  /** The stack with `n` more elements counted in the array open at its top. */
  function AddCount(st: seq<Frame>, n: nat): seq<Frame>
    requires ArrayTop(st)
  {
    st[..|st| - 1] + [InArray(st[|st| - 1].count + n)]
  }

  /** The stack once a value has been written at its top. */
  function Filled(st: seq<Frame>): seq<Frame>
    requires |st| > 0
  {
    st[..|st| - 1] + [match st[|st| - 1]
                      case Root(_) => Root(true)
                      case InObject(_) => InObject(false)
                      case InArray(count) => InArray(count + 1)]
  }

  function Step(st: seq<Frame>, e: JsonEvent): Option<Outcome>
  {
    match e
    case ObjectStart =>
      if ValuePosition(st) then Some(Outcome(Filled(st) + [InObject(false)], [])) else None
    case ArrayStart =>
      if ValuePosition(st) then Some(Outcome(Filled(st) + [InArray(0)], [])) else None
    case ObjectEnd =>
      if Top(st, InObject(false)) then Some(Outcome(st[..|st| - 1], [])) else None
    case ArrayEnd =>
      if ArrayTop(st) then Some(Outcome(st[..|st| - 1], [])) else None
    case Property(name) =>
      if Top(st, InObject(false)) then Some(Outcome(st[..|st| - 1] + [InObject(true)], [KeyAt(|st|, name)]))
      else None
    case Value(_) =>
      if ValuePosition(st) then Some(Outcome(Filled(st), [])) else None
  }

  /** Runs the calls from stack `st`; None when some call is out of place. */
  function Run(st: seq<Frame>, events: seq<JsonEvent>): Option<Outcome>
    decreases |events|
  {
    if events == [] then Some(Outcome(st, []))
    else match Step(st, events[0])
      case None => None
      case Some(first) =>
        match Run(first.stack, events[1..])
        case None => None
        case Some(rest) => Some(Outcome(rest.stack, first.keys + rest.keys))
  }

  /** The calls of exactly one complete JSON document. */
  predicate JsonDocument(events: seq<JsonEvent>)
  {
    var r := Run([Root(false)], events);
    r.Some? && r.value.stack == [Root(true)]
  }

  /** The names of the keys met at depth `d`, in order. */
  function KeysAt(keys: seq<KeyAt>, d: nat): seq<string>
  {
    if keys == [] then [] else (if keys[0].depth == d then [keys[0].name] else []) + KeysAt(keys[1..], d)
  }

  ghost predicate Deeper(keys: seq<KeyAt>, d: nat)
  {
    forall i :: 0 <= i < |keys| ==> keys[i].depth > d
  }

  /** `events` write one value at the top of `st`, with every key inside it deeper than `st`. */
  ghost predicate WritesValue(st: seq<Frame>, events: seq<JsonEvent>)
  {
    ValuePosition(st) &&
    var r := Run(st, events);
    r.Some? && r.value.stack == Filled(st) && Deeper(r.value.keys, |st|)
  }

  /** `events` write one object at the top of `st` whose own keys are `names`. */
  ghost predicate WritesObject(st: seq<Frame>, events: seq<JsonEvent>, names: seq<string>)
  {
    WritesValue(st, events) && KeysAt(Run(st, events).value.keys, |st| + 1) == names
  }

  /** `events` write `n` elements into the array open at the top of `st`. */
  ghost predicate WritesElements(st: seq<Frame>, events: seq<JsonEvent>, n: nat)
  {
    ArrayTop(st) &&
    var r := Run(st, events);
    r.Some? && r.value.stack == AddCount(st, n) && Deeper(r.value.keys, |st|)
  }

  /** `events` write the keys `names`, with their values, into the object open at the top of `st`. */
  ghost predicate WritesMembers(st: seq<Frame>, events: seq<JsonEvent>, names: seq<string>)
  {
    Top(st, InObject(false)) &&
    var r := Run(st, events);
    r.Some? && r.value.stack == st && Deeper(r.value.keys, |st| - 1) && KeysAt(r.value.keys, |st|) == names
  }

  // ---------------------------------------------------------------------------
  // Sequence facts
  //
  // Dafny's sequence axioms prove each of these unaided; they state nothing
  // about the serializer. Calling them by name at the exact regrouping a
  // proof needs keeps the proofs below cheap for the solver.
  // ---------------------------------------------------------------------------

  lemma ConsAppend<T>(a: seq<T>, b: seq<T>)
    requires |a| > 0
    ensures (a + b)[0] == a[0] && (a + b)[1..] == a[1..] + b
  {
  }

  lemma SnocAppend<T>(a: seq<T>, b: seq<T>)
    requires |b| > 0
    ensures (a + b)[..|a + b| - 1] == a + b[..|b| - 1] && (a + b)[|a + b| - 1] == b[|b| - 1]
  {
  }

  lemma DropLast<T>(p: seq<T>, x: T)
    ensures |p + [x]| == |p| + 1 && (p + [x])[..|p|] == p && (p + [x])[|p|] == x
  {
  }

  lemma AppendNil<T>(a: seq<T>)
    ensures a + [] == a && [] + a == a
  {
  }

  lemma AppendAssoc<T>(a: seq<T>, b: seq<T>, c: seq<T>)
    ensures a + (b + c) == (a + b) + c
  {
  }

  /** Moves the brackets of a writer's log: what was written before, an opening, the body, a closing. */
  lemma Bracketed<T>(before: seq<T>, opening: seq<T>, body: seq<T>, closing: seq<T>)
    ensures ((before + opening) + body) + closing == before + ((opening + body) + closing)
  {
  }

  lemma AppendTwo<T>(a: seq<T>, x1: T, x2: T)
    ensures (a + [x1]) + [x2] == a + [x1, x2]
  {
  }

  lemma AppendFour<T>(a: seq<T>, x1: T, x2: T, x3: T, x4: T)
    ensures (((a + [x1]) + [x2]) + [x3]) + [x4] == a + [x1, x2, x3, x4]
  {
  }

  // ---------------------------------------------------------------------------
  // Composing call sequences
  // ---------------------------------------------------------------------------

  /** Running two call sequences one after the other. */
  lemma {:induction false} RunChain(st: seq<Frame>, a: seq<JsonEvent>, b: seq<JsonEvent>, mid: Outcome, last: Outcome)
    requires Run(st, a) == Some(mid)
    requires Run(mid.stack, b) == Some(last)
    ensures Run(st, a + b) == Some(Outcome(last.stack, mid.keys + last.keys))
    decreases |a|
  {
    if a == [] {
      AppendNil(b);
      AppendNil(last.keys);
    } else {
      var first := Step(st, a[0]).value;
      var rest := Run(first.stack, a[1..]).value;
      RunChain(first.stack, a[1..], b, rest, last);
      ConsAppend(a, b);
      AppendAssoc(first.keys, rest.keys, last.keys);
    }
  }

  /** A single call runs as one step. */
  lemma RunOne(st: seq<Frame>, e: JsonEvent)
    requires Step(st, e).Some?
    ensures Run(st, [e]) == Step(st, e)
  {
    assert [e][1..] == [];
    assert Step(st, e).value.keys + [] == Step(st, e).value.keys;
  }

  lemma {:induction false} KeysAtAppend(a: seq<KeyAt>, b: seq<KeyAt>, d: nat)
    ensures KeysAt(a + b, d) == KeysAt(a, d) + KeysAt(b, d)
  {
    if a == [] {
      AppendNil(b);
    } else {
      KeysAtAppend(a[1..], b, d);
      ConsAppend(a, b);
    }
  }

  lemma {:induction false} DeeperHasNoKeys(keys: seq<KeyAt>, d: nat, e: nat)
    requires Deeper(keys, d) && e <= d
    ensures KeysAt(keys, e) == []
  {
    if keys != [] {
      DeeperHasNoKeys(keys[1..], d, e);
    }
  }

  /** Proved unaided; called by name only to keep the callers' proofs cheap. */
  lemma DeeperAppend(a: seq<KeyAt>, b: seq<KeyAt>, d: nat)
    requires Deeper(a, d) && Deeper(b, d)
    ensures Deeper(a + b, d)
  {
  }

  lemma ScalarValue(st: seq<Frame>, text: string)
    requires ValuePosition(st)
    ensures WritesValue(st, [Value(text)])
  {
  }

  /** A key followed by its value adds that one key to the open object. */
  lemma MemberWith(st: seq<Frame>, name: string, v: seq<JsonEvent>)
    requires Top(st, InObject(false))
    requires WritesValue(st[..|st| - 1] + [InObject(true)], v)
    ensures WritesMembers(st, [Property(name)] + v, [name])
  {
    var awaiting := st[..|st| - 1] + [InObject(true)];
    var rv := Run(awaiting, v).value;
    assert Filled(awaiting) == st;
    RunOne(st, Property(name));
    RunChain(st, [Property(name)], v, Outcome(awaiting, [KeyAt(|st|, name)]), rv);
    var keys := [KeyAt(|st|, name)] + rv.keys;
    DeeperHasNoKeys(rv.keys, |st|, |st|);
    KeysAtAppend([KeyAt(|st|, name)], rv.keys, |st|);
    assert KeysAt(keys, |st|) == [name];
  }

  lemma NoMembers(st: seq<Frame>)
    requires Top(st, InObject(false))
    ensures WritesMembers(st, [], [])
  {
  }

  lemma AppendMembers(st: seq<Frame>, a: seq<JsonEvent>, b: seq<JsonEvent>, na: seq<string>, nb: seq<string>)
    requires WritesMembers(st, a, na) && WritesMembers(st, b, nb)
    ensures WritesMembers(st, a + b, na + nb)
  {
    var ra := Run(st, a).value;
    var rb := Run(st, b).value;
    RunChain(st, a, b, ra, rb);
    KeysAtAppend(ra.keys, rb.keys, |st|);
    DeeperAppend(ra.keys, rb.keys, |st| - 1);
  }

  /** An object start, members and an object end write one object. */
  lemma ObjectWith(st: seq<Frame>, body: seq<JsonEvent>, names: seq<string>)
    requires ValuePosition(st)
    requires WritesMembers(Filled(st) + [InObject(false)], body, names)
    ensures WritesObject(st, ObjectOf(body), names)
  {
    var inner := Filled(st) + [InObject(false)];
    var rb := Run(inner, body).value;
    RunOne(st, ObjectStart);
    RunChain(st, [ObjectStart], body, Outcome(inner, []), rb);
    assert [] + rb.keys == rb.keys;
    DropLast(Filled(st), InObject(false));
    RunOne(inner, ObjectEnd);
    RunChain(st, [ObjectStart] + body, [ObjectEnd], Outcome(inner, rb.keys), Outcome(Filled(st), []));
    assert rb.keys + [] == rb.keys;
  }

  /** An array start, elements and an array end write one array value. */
  lemma ArrayWith(st: seq<Frame>, elements: seq<JsonEvent>, n: nat)
    requires ValuePosition(st)
    requires WritesElements(Filled(st) + [InArray(0)], elements, n)
    ensures WritesValue(st, ArrayOf(elements))
  {
    var inner := Filled(st) + [InArray(0)];
    var full := AddCount(inner, n);
    var re := Run(inner, elements).value;
    RunOne(st, ArrayStart);
    RunChain(st, [ArrayStart], elements, Outcome(inner, []), re);
    assert [] + re.keys == re.keys;
    DropLast(Filled(st), InArray(0));
    DropLast(Filled(st), InArray(n));
    RunOne(full, ArrayEnd);
    RunChain(st, [ArrayStart] + elements, [ArrayEnd], Outcome(full, re.keys), Outcome(Filled(st), []));
    assert re.keys + [] == re.keys;
  }

  lemma NoElements(st: seq<Frame>)
    requires ArrayTop(st)
    ensures WritesElements(st, [], 0)
  {
    assert AddCount(st, 0) == st;
  }

  /** Elements written after elements: the counts add up. */
  lemma AppendElements(st: seq<Frame>, a: seq<JsonEvent>, b: seq<JsonEvent>, m: nat, n: nat)
    requires WritesElements(st, a, m) && WritesElements(AddCount(st, m), b, n)
    ensures WritesElements(st, a + b, m + n)
  {
    var ra := Run(st, a).value;
    var rb := Run(AddCount(st, m), b).value;
    RunChain(st, a, b, ra, rb);
    DropLast(st[..|st| - 1], InArray(st[|st| - 1].count + m));
    DeeperAppend(ra.keys, rb.keys, |st|);
  }

  /** Elements followed by one more value: one more element. */
  lemma AppendValueElement(st: seq<Frame>, a: seq<JsonEvent>, m: nat, v: seq<JsonEvent>)
    requires WritesElements(st, a, m) && WritesValue(AddCount(st, m), v)
    ensures WritesElements(st, a + v, m + 1)
  {
    ValueIsElement(AddCount(st, m), v);
    AppendElements(st, a, v, m, 1);
  }

  /** One value written into an array is one element. */
  lemma ValueIsElement(st: seq<Frame>, v: seq<JsonEvent>)
    requires ArrayTop(st) && WritesValue(st, v)
    ensures WritesElements(st, v, 1)
  {
    assert Filled(st) == AddCount(st, 1);
  }

  // ---------------------------------------------------------------------------
  // What the serializer's calls mean
  // ---------------------------------------------------------------------------

  /** The "kind" and "text" keys, each with a string value. */
  lemma KindTextMembers(st: seq<Frame>, kind: string, text: string)
    requires Top(st, InObject(false))
    ensures WritesMembers(st, KindAndText(kind, text), ["kind", "text"])
  {
    var awaiting := st[..|st| - 1] + [InObject(true)];
    ScalarValue(awaiting, kind);
    MemberWith(st, "kind", [Value(kind)]);
    ScalarValue(awaiting, text);
    MemberWith(st, "text", [Value(text)]);
    AppendMembers(st, [Property("kind"), Value(kind)], [Property("text"), Value(text)], ["kind"], ["text"]);
    assert [Property("kind"), Value(kind)] + [Property("text"), Value(text)] == KindAndText(kind, text);
    assert ["kind"] + ["text"] == ["kind", "text"];
  }

  lemma TriviaObjectWellFormed(t: Trivia, st: seq<Frame>)
    requires ValuePosition(st)
    ensures WritesObject(st, TriviaObject(t), ["kind", "text"])
  {
    KindTextMembers(Filled(st) + [InObject(false)], t.kind, t.rawText);
    ObjectWith(st, KindAndText(t.kind, t.rawText), ["kind", "text"]);
  }

  /** The full-mode trivia array holds one element per piece of trivia. */
  lemma {:induction false} TriviaObjectsWellFormed(trivia: seq<Trivia>, st: seq<Frame>)
    requires ArrayTop(st)
    ensures WritesElements(st, TriviaObjects(trivia), |trivia|)
  {
    if trivia == [] {
      NoElements(st);
    } else {
      var init := trivia[..|trivia| - 1];
      TriviaObjectsWellFormed(init, st);
      TriviaObjectWellFormed(trivia[|trivia| - 1], AddCount(st, |init|));
      AppendValueElement(st, TriviaObjects(init), |init|, TriviaObject(trivia[|trivia| - 1]));
    }
  }

  /** The "trivia" key is written exactly when the mode shows non-empty trivia. */
  lemma TriviaWellFormed(mode: CSTJsonMode, token: Token, st: seq<Frame>)
    requires Top(st, InObject(false))
    ensures WritesMembers(st, TriviaEvents(mode, token), if ShowsTrivia(mode, token) then ["trivia"] else [])
  {
    var awaiting := st[..|st| - 1] + [InObject(true)];
    if !ShowsTrivia(mode, token) {
      NoMembers(st);
    } else if mode == SimpleTrivia {
      ScalarValue(awaiting, TriviaText(token.trivia));
      MemberWith(st, "trivia", [Value(TriviaText(token.trivia))]);
    } else {
      TriviaObjectsWellFormed(token.trivia, Filled(awaiting) + [InArray(0)]);
      ArrayWith(awaiting, TriviaObjects(token.trivia), |token.trivia|);
      MemberWith(st, "trivia", ArrayOf(TriviaObjects(token.trivia)));
    }
  }

  /**
   * A token is written as one value: its raw text in SimpleTokens mode,
   * otherwise an object whose keys are kind, text and, when shown, trivia.
   */
  lemma TokenValueWellFormed(mode: CSTJsonMode, token: Token, st: seq<Frame>)
    requires ValuePosition(st)
    ensures WritesObject(st, TokenValueEvents(mode, token), TokenKeys(mode, token))
  {
    if mode == SimpleTokens {
      ScalarValue(st, token.rawText);
    } else {
      var inner := Filled(st) + [InObject(false)];
      var head := KindAndText(token.kind, token.rawText);
      KindTextMembers(inner, token.kind, token.rawText);
      TriviaWellFormed(mode, token, inner);
      AppendMembers(inner, head, TriviaEvents(mode, token), ["kind", "text"],
                    if ShowsTrivia(mode, token) then ["trivia"] else []);
      ObjectWith(st, head + TriviaEvents(mode, token), TokenKeys(mode, token));
    }
  }

  /** A token list's array holds one element per token. */
  lemma {:induction false} TokenValuesWellFormed(mode: CSTJsonMode, tokens: seq<Token>, st: seq<Frame>)
    requires ArrayTop(st)
    ensures WritesElements(st, TokenValuesEvents(mode, tokens), |tokens|)
  {
    if tokens == [] {
      NoElements(st);
    } else {
      var init := tokens[..|tokens| - 1];
      TokenValuesWellFormed(mode, init, st);
      TokenValueWellFormed(mode, tokens[|tokens| - 1], AddCount(st, |init|));
      AppendValueElement(st, TokenValuesEvents(mode, init), |init|, TokenValueEvents(mode, tokens[|tokens| - 1]));
    }
  }

  /** A node is written as one object whose keys are "kind" and then the names of its written members. */
  lemma {:induction false} NodeWellFormed(mode: CSTJsonMode, node: SyntaxNode, st: seq<Frame>)
    requires ValuePosition(st)
    ensures WritesObject(st, NodeEvents(mode, node), ["kind"] + EmittedNames(node.members))
    decreases node, 2
  {
    var inner := Filled(st) + [InObject(false)];
    var head := [Property("kind"), Value(node.kind)];
    var awaiting := Filled(st) + [InObject(true)];
    assert inner[..|inner| - 1] + [InObject(true)] == awaiting;
    ScalarValue(awaiting, node.kind);
    MemberWith(inner, "kind", [Value(node.kind)]);
    MembersWellFormed(mode, node.members, inner);
    AppendMembers(inner, head, MembersEvents(mode, node.members), ["kind"], EmittedNames(node.members));
    ObjectWith(st, head + MembersEvents(mode, node.members), ["kind"] + EmittedNames(node.members));
  }

  lemma {:induction false} MembersWellFormed(mode: CSTJsonMode, members: seq<Member>, st: seq<Frame>)
    requires Top(st, InObject(false))
    ensures WritesMembers(st, MembersEvents(mode, members), EmittedNames(members))
    decreases members, 1
  {
    if members == [] {
      NoMembers(st);
    } else {
      var init := members[..|members| - 1];
      var m := members[|members| - 1];
      MembersWellFormed(mode, init, st);
      MemberWellFormed(mode, m, st);
      AppendMembers(st, MembersEvents(mode, init), MemberEvents(mode, m), EmittedNames(init),
                    if Emits(m) then [m.name] else []);
    }
  }

  /** A member writes its own name as a key exactly when it is written at all. */
  lemma {:induction false} MemberWellFormed(mode: CSTJsonMode, m: Member, st: seq<Frame>)
    requires Top(st, InObject(false))
    ensures WritesMembers(st, MemberEvents(mode, m), if Emits(m) then [m.name] else [])
    decreases m, 0
  {
    var awaiting := st[..|st| - 1] + [InObject(true)];
    assert Filled(awaiting) == st;
    if !Emits(m) {
      NoMembers(st);
    } else {
      match m
      case TokenMember(name, token) =>
        TokenValueWellFormed(mode, token, awaiting);
        MemberWith(st, name, TokenValueEvents(mode, token));
      case NodeMember(name, node) =>
        NodeWellFormed(mode, node, awaiting);
        MemberWith(st, name, NodeEvents(mode, node));
      case OptionalNodeMember(name, optional) =>
        NodeWellFormed(mode, optional.value, awaiting);
        MemberWith(st, name, NodeEvents(mode, optional.value));
      case TokenListMember(name, tokens) =>
        TokenValuesWellFormed(mode, tokens, st + [InArray(0)]);
        ArrayMemberWellFormed(st, name, TokenValuesEvents(mode, tokens), |tokens|);
      case SyntaxListMember(name, items) =>
        NodesWellFormed(mode, items, st + [InArray(0)]);
        ArrayMemberWellFormed(st, name, NodesEvents(mode, items), |items|);
      case SeparatedListMember(name, children) =>
        ChildrenWellFormed(mode, children, st + [InArray(0)]);
        ArrayMemberWellFormed(st, name, ChildrenEvents(mode, children), PresentCount(children));
    }
  }

  /** A syntax list's array holds one element per node. */
  lemma {:induction false} NodesWellFormed(mode: CSTJsonMode, items: seq<SyntaxNode>, st: seq<Frame>)
    requires ArrayTop(st)
    ensures WritesElements(st, NodesEvents(mode, items), |items|)
    decreases items, 1
  {
    if items == [] {
      NoElements(st);
    } else {
      var init := items[..|items| - 1];
      var last := items[|items| - 1];
      NodesWellFormed(mode, init, st);
      NodeWellFormed(mode, last, AddCount(st, |init|));
      AppendValueElement(st, NodesEvents(mode, init), |init|, NodeEvents(mode, last));
    }
  }

  /** A separated list's array holds one element per slot holding a node or a token. */
  lemma {:induction false} ChildrenWellFormed(mode: CSTJsonMode, children: seq<ListChild>, st: seq<Frame>)
    requires ArrayTop(st)
    ensures WritesElements(st, ChildrenEvents(mode, children), PresentCount(children))
    decreases children, 1
  {
    if children == [] {
      NoElements(st);
    } else {
      var init := children[..|children| - 1];
      var last := children[|children| - 1];
      var n := if last.NoChild? then 0 else 1;
      ChildrenWellFormed(mode, init, st);
      ChildWellFormed(mode, last, AddCount(st, PresentCount(init)));
      AppendElements(st, ChildrenEvents(mode, init), ChildEvents(mode, last), PresentCount(init), n);
    }
  }

  lemma {:induction false} ChildWellFormed(mode: CSTJsonMode, child: ListChild, st: seq<Frame>)
    requires ArrayTop(st)
    ensures WritesElements(st, ChildEvents(mode, child), if child.NoChild? then 0 else 1)
    decreases child, 0
  {
    match child
    case ChildNode(node) =>
      NodeWellFormed(mode, node, st);
      ValueIsElement(st, NodeEvents(mode, node));
    case ChildToken(token) =>
      TokenValueWellFormed(mode, token, st);
      ValueIsElement(st, TokenValueEvents(mode, token));
    case NoChild =>
      NoElements(st);
  }

  /** A key whose value is an array of `n` elements. */
  lemma ArrayMemberWellFormed(st: seq<Frame>, name: string, elements: seq<JsonEvent>, n: nat)
    requires Top(st, InObject(false))
    requires WritesElements(st + [InArray(0)], elements, n)
    ensures WritesMembers(st, ArrayMember(name, elements), [name])
  {
    var awaiting := st[..|st| - 1] + [InObject(true)];
    assert Filled(awaiting) == st;
    ArrayWith(awaiting, elements, n);
    MemberWith(st, name, ArrayOf(elements));
  }

  /**
   * A serialized tree is exactly one JSON document: an object with the keys
   * "kind" and "root", whose root value is the root node's object.
   */
  lemma TreeWellFormed(mode: CSTJsonMode, tree: SyntaxTree)
    ensures JsonDocument(TreeEvents(mode, tree))
    ensures KeysAt(Run([Root(false)], TreeEvents(mode, tree)).value.keys, 2) == ["kind", "root"]
    ensures WritesObject([Root(true), InObject(true)], NodeEvents(mode, tree.root),
                         ["kind"] + EmittedNames(tree.root.members))
  {
    var st := [Root(false)];
    var inner := [Root(true), InObject(false)];
    var awaiting := [Root(true), InObject(true)];
    var head := [Property("kind"), Value("SyntaxTree")];
    var root := [Property("root")] + NodeEvents(mode, tree.root);
    assert Filled(st) + [InObject(false)] == inner;
    assert inner[..|inner| - 1] + [InObject(true)] == awaiting;
    ScalarValue(awaiting, "SyntaxTree");
    MemberWith(inner, "kind", [Value("SyntaxTree")]);
    NodeWellFormed(mode, tree.root, awaiting);
    MemberWith(inner, "root", NodeEvents(mode, tree.root));
    AppendMembers(inner, head, root, ["kind"], ["root"]);
    ObjectWith(st, head + root, ["kind", "root"]);
    assert Filled(st) == [Root(true)];
  }

  // ---------------------------------------------------------------------------
  // Order of trivia in the two trivia modes
  // ---------------------------------------------------------------------------

  lemma {:induction false} TriviaTextAppend(a: seq<Trivia>, b: seq<Trivia>)
    ensures TriviaText(a + b) == TriviaText(a) + TriviaText(b)
    decreases |b|
  {
    if b == [] {
      AppendNil(a);
    } else {
      TriviaTextAppend(a, b[..|b| - 1]);
      SnocAppend(a, b);
    }
  }

  /**
   * In SimpleTrivia mode each piece's raw text sits in the "trivia" string
   * right after the texts of the pieces before it.
   */
  lemma TriviaTextAt(trivia: seq<Trivia>, i: nat)
    requires i < |trivia|
    ensures |TriviaText(trivia[..i])| + |trivia[i].rawText| <= |TriviaText(trivia)|
    ensures TriviaText(trivia)[|TriviaText(trivia[..i])|..|TriviaText(trivia[..i])| + |trivia[i].rawText|]
            == trivia[i].rawText
  {
    var upTo := trivia[..i + 1];
    assert upTo[..|upTo| - 1] == trivia[..i];
    assert trivia == upTo + trivia[i + 1..];
    TriviaTextAppend(upTo, trivia[i + 1..]);
  }

  lemma {:induction false} TriviaObjectsAppend(a: seq<Trivia>, b: seq<Trivia>)
    ensures TriviaObjects(a + b) == TriviaObjects(a) + TriviaObjects(b)
    decreases |b|
  {
    if b == [] {
      AppendNil(a);
    } else {
      TriviaObjectsAppend(a, b[..|b| - 1]);
      SnocAppend(a, b);
    }
  }

  lemma {:induction false} TriviaObjectsLength(trivia: seq<Trivia>)
    ensures |TriviaObjects(trivia)| == 6 * |trivia|
  {
    if trivia != [] {
      TriviaObjectsLength(trivia[..|trivia| - 1]);
    }
  }

  /** In Full mode the trivia array's i-th element is the kind/text object of the i-th piece. */
  lemma TriviaObjectsAt(trivia: seq<Trivia>, i: nat)
    requires i < |trivia|
    ensures 6 * i + 6 <= |TriviaObjects(trivia)|
    ensures TriviaObjects(trivia)[6 * i..6 * i + 6] == TriviaObject(trivia[i])
  {
    var upTo := trivia[..i + 1];
    assert upTo[..|upTo| - 1] == trivia[..i];
    assert trivia == upTo + trivia[i + 1..];
    TriviaObjectsAppend(upTo, trivia[i + 1..]);
    TriviaObjectsLength(trivia[..i]);
    TriviaObjectsLength(trivia);
  }

  lemma TokenValuesStep(mode: CSTJsonMode, tokens: seq<Token>, i: nat)
    requires i < |tokens|
    ensures TokenValuesEvents(mode, tokens[..i + 1]) == TokenValuesEvents(mode, tokens[..i]) + TokenValueEvents(mode, tokens[i])
  {
    assert tokens[..i + 1][..i] == tokens[..i];
  }

  lemma TriviaObjectsStep(trivia: seq<Trivia>, i: nat)
    requires i < |trivia|
    ensures TriviaObjects(trivia[..i + 1]) == TriviaObjects(trivia[..i]) + TriviaObject(trivia[i])
  {
    assert trivia[..i + 1][..i] == trivia[..i];
  }

  lemma MembersStep(mode: CSTJsonMode, members: seq<Member>, i: nat)
    requires i < |members|
    ensures MembersEvents(mode, members[..i + 1]) == MembersEvents(mode, members[..i]) + MemberEvents(mode, members[i])
  {
    assert members[..i + 1][..i] == members[..i];
  }

  lemma NodesStep(mode: CSTJsonMode, items: seq<SyntaxNode>, i: nat)
    requires i < |items|
    ensures NodesEvents(mode, items[..i + 1]) == NodesEvents(mode, items[..i]) + NodeEvents(mode, items[i])
  {
    assert items[..i + 1][..i] == items[..i];
  }

  lemma ChildrenStep(mode: CSTJsonMode, children: seq<ListChild>, i: nat)
    requires i < |children|
    ensures ChildrenEvents(mode, children[..i + 1]) == ChildrenEvents(mode, children[..i]) + ChildEvents(mode, children[i])
  {
    assert children[..i + 1][..i] == children[..i];
  }

  // ---------------------------------------------------------------------------
  // The writer and the visitor
  // ---------------------------------------------------------------------------

  /** The JSON writer, recorded as the calls made on it so far. */
  class JsonWriter {
    var events: seq<JsonEvent>

    constructor()
      ensures events == []
    {
      events := [];
    }

    method StartObject()
      modifies this
      ensures events == old(events) + [ObjectStart]
    {
      events := events + [ObjectStart];
    }

    method EndObject()
      modifies this
      ensures events == old(events) + [ObjectEnd]
    {
      events := events + [ObjectEnd];
    }

    method StartArray()
      modifies this
      ensures events == old(events) + [ArrayStart]
    {
      events := events + [ArrayStart];
    }

    method EndArray()
      modifies this
      ensures events == old(events) + [ArrayEnd]
    {
      events := events + [ArrayEnd];
    }

    method WriteProperty(name: string)
      modifies this
      ensures events == old(events) + [Property(name)]
    {
      events := events + [Property(name)];
    }

    method WriteValue(text: string)
      modifies this
      ensures events == old(events) + [Value(text)]
    {
      events := events + [Value(text)];
    }
  }

  /** Walks syntax nodes, writing each one to the shared writer. */
  class CSTJsonVisitor {
    const writer: JsonWriter
    const mode: CSTJsonMode

    constructor(writer: JsonWriter, mode: CSTJsonMode)
      ensures this.writer == writer && this.mode == mode
    {
      this.writer := writer;
      this.mode := mode;
    }

    method Visit(node: SyntaxNode)
      modifies writer
      ensures writer.events == old(writer.events) + NodeEvents(mode, node)
      decreases node, 3
    {
      writer.StartObject();
      ghost var begun := writer.events;
      writer.WriteProperty("kind");
      writer.WriteValue(node.kind);
      AppendTwo(begun, Property("kind"), Value(node.kind));
      Handle(node);
      AppendAssoc(begun, [Property("kind"), Value(node.kind)], MembersEvents(mode, node.members));
      writer.EndObject();
      Bracketed(old(writer.events), [ObjectStart], [Property("kind"), Value(node.kind)] + MembersEvents(mode, node.members), [ObjectEnd]);
    }

    /** The node class's generated handler: writes each field in declaration order. */
    method Handle(node: SyntaxNode)
      modifies writer
      ensures writer.events == old(writer.events) + MembersEvents(mode, node.members)
      decreases node, 2
    {
      var i := 0;
      while i < |node.members|
        invariant 0 <= i <= |node.members|
        invariant writer.events == old(writer.events) + MembersEvents(mode, node.members[..i])
      {
        MembersStep(mode, node.members, i);
        AppendAssoc(old(writer.events), MembersEvents(mode, node.members[..i]), MemberEvents(mode, node.members[i]));
        WriteMember(node.members[i]);
        i := i + 1;
      }
      assert node.members[..i] == node.members;
    }

    /** The writer call the generated handler makes for one field. */
    method WriteMember(m: Member)
      modifies writer
      ensures writer.events == old(writer.events) + MemberEvents(mode, m)
      decreases m, 1
    {
      match m
      case TokenMember(name, token) => WriteToken(name, token);
      case NodeMember(name, node) => WriteNode(name, node);
      case OptionalNodeMember(name, optional) => WriteOptionalNode(name, optional);
      case TokenListMember(name, tokens) => WriteTokenList(name, tokens);
      case SyntaxListMember(name, items) => WriteSyntaxList(name, items);
      case SeparatedListMember(name, children) => WriteSeparatedSyntaxList(name, children);
    }

    method WriteToken(name: string, token: Token)
      modifies writer
      ensures writer.events == old(writer.events) + MemberEvents(mode, TokenMember(name, token))
    {
      if token.valueText == [] {
        return;
      }
      writer.WriteProperty(name);
      WriteTokenValue(token);
      AppendAssoc(old(writer.events), [Property(name)], TokenValueEvents(mode, token));
    }

    method WriteNode(name: string, node: SyntaxNode)
      modifies writer
      ensures writer.events == old(writer.events) + MemberEvents(mode, NodeMember(name, node))
      decreases node, 4
    {
      writer.WriteProperty(name);
      Visit(node);
      AppendAssoc(old(writer.events), [Property(name)], NodeEvents(mode, node));
    }

    method WriteOptionalNode(name: string, node: Option<SyntaxNode>)
      modifies writer
      ensures writer.events == old(writer.events) + MemberEvents(mode, OptionalNodeMember(name, node))
      decreases node, 4
    {
      if node.Some? {
        writer.WriteProperty(name);
        Visit(node.value);
        AppendAssoc(old(writer.events), [Property(name)], NodeEvents(mode, node.value));
      }
    }

    method WriteTokenList(name: string, tokens: seq<Token>)
      modifies writer
      ensures writer.events == old(writer.events) + (if tokens == [] then [] else ArrayMember(name, TokenValuesEvents(mode, tokens)))
    {
      if tokens == [] {
        return;
      }
      writer.WriteProperty(name);
      writer.StartArray();
      ghost var start := writer.events;
      var i := 0;
      while i < |tokens|
        invariant 0 <= i <= |tokens|
        invariant writer.events == start + TokenValuesEvents(mode, tokens[..i])
      {
        TokenValuesStep(mode, tokens, i);
        AppendAssoc(start, TokenValuesEvents(mode, tokens[..i]), TokenValueEvents(mode, tokens[i]));
        WriteTokenValue(tokens[i]);
        i := i + 1;
      }
      assert tokens[..i] == tokens;
      writer.EndArray();
      Bracketed(old(writer.events) + [Property(name)], [ArrayStart], TokenValuesEvents(mode, tokens), [ArrayEnd]);
      AppendAssoc(old(writer.events), [Property(name)], ArrayOf(TokenValuesEvents(mode, tokens)));
    }

    method WriteSyntaxList(name: string, items: seq<SyntaxNode>)
      modifies writer
      ensures writer.events == old(writer.events) + (if items == [] then [] else ArrayMember(name, NodesEvents(mode, items)))
      decreases items, 4
    {
      if items == [] {
        return;
      }
      writer.WriteProperty(name);
      writer.StartArray();
      ghost var start := writer.events;
      var i := 0;
      while i < |items|
        invariant 0 <= i <= |items|
        invariant writer.events == start + NodesEvents(mode, items[..i])
      {
        NodesStep(mode, items, i);
        AppendAssoc(start, NodesEvents(mode, items[..i]), NodeEvents(mode, items[i]));
        Visit(items[i]);
        i := i + 1;
      }
      assert items[..i] == items;
      writer.EndArray();
      Bracketed(old(writer.events) + [Property(name)], [ArrayStart], NodesEvents(mode, items), [ArrayEnd]);
      AppendAssoc(old(writer.events), [Property(name)], ArrayOf(NodesEvents(mode, items)));
    }

    method WriteSeparatedSyntaxList(name: string, children: seq<ListChild>)
      modifies writer
      ensures writer.events == old(writer.events) + (if children == [] then [] else ArrayMember(name, ChildrenEvents(mode, children)))
      decreases children, 4
    {
      if children == [] {
        return;
      }
      writer.WriteProperty(name);
      writer.StartArray();
      ghost var start := writer.events;
      var i := 0;
      while i < |children|
        invariant 0 <= i <= |children|
        invariant writer.events == start + ChildrenEvents(mode, children[..i])
      {
        ChildrenStep(mode, children, i);
        AppendAssoc(start, ChildrenEvents(mode, children[..i]), ChildEvents(mode, children[i]));
        match children[i] {
          case ChildNode(node) =>
            assert children[i] decreases to node;
            Visit(node);
          case ChildToken(token) => WriteTokenValue(token);
          case NoChild =>
        }
        i := i + 1;
      }
      assert children[..i] == children;
      writer.EndArray();
      Bracketed(old(writer.events) + [Property(name)], [ArrayStart], ChildrenEvents(mode, children), [ArrayEnd]);
      AppendAssoc(old(writer.events), [Property(name)], ArrayOf(ChildrenEvents(mode, children)));
    }

    method WriteTokenValue(token: Token)
      modifies writer
      ensures writer.events == old(writer.events) + TokenValueEvents(mode, token)
    {
      if mode == SimpleTokens {
        writer.WriteValue(token.rawText);
        return;
      }
      writer.StartObject();
      ghost var begun := writer.events;
      writer.WriteProperty("kind");
      writer.WriteValue(token.kind);
      writer.WriteProperty("text");
      writer.WriteValue(token.rawText);
      AppendFour(begun, Property("kind"), Value(token.kind), Property("text"), Value(token.rawText));
      WriteTrivia(token);
      AppendAssoc(begun, KindAndText(token.kind, token.rawText), TriviaEvents(mode, token));
      writer.EndObject();
      Bracketed(old(writer.events), [ObjectStart], KindAndText(token.kind, token.rawText) + TriviaEvents(mode, token), [ObjectEnd]);
    }

    /** The "trivia" key of a token object, written as the mode asks; part of WriteTokenValue. */
    method WriteTrivia(token: Token)
      requires mode != SimpleTokens
      modifies writer
      ensures writer.events == old(writer.events) + TriviaEvents(mode, token)
    {
      if mode == NoTrivia || token.trivia == [] {
        AppendNil(writer.events);
        return;
      }
      writer.WriteProperty("trivia");
      if mode == SimpleTrivia {
        var triviaText := ConcatTriviaText(token.trivia);
        writer.WriteValue(triviaText);
        AppendTwo(old(writer.events), Property("trivia"), Value(triviaText));
      } else {
        writer.StartArray();
        ghost var start := writer.events;
        var i := 0;
        while i < |token.trivia|
          invariant 0 <= i <= |token.trivia|
          invariant writer.events == start + TriviaObjects(token.trivia[..i])
        {
          var trivia := token.trivia[i];
          TriviaObjectsStep(token.trivia, i);
          ghost var before := writer.events;
          writer.StartObject();
          ghost var inner := writer.events;
          writer.WriteProperty("kind");
          writer.WriteValue(trivia.kind);
          writer.WriteProperty("text");
          writer.WriteValue(trivia.rawText);
          AppendFour(inner, Property("kind"), Value(trivia.kind), Property("text"), Value(trivia.rawText));
          writer.EndObject();
          Bracketed(before, [ObjectStart], KindAndText(trivia.kind, trivia.rawText), [ObjectEnd]);
          AppendAssoc(start, TriviaObjects(token.trivia[..i]), TriviaObject(trivia));
          i := i + 1;
        }
        assert token.trivia[..i] == token.trivia;
        writer.EndArray();
        Bracketed(old(writer.events) + [Property("trivia")], [ArrayStart], TriviaObjects(token.trivia), [ArrayEnd]);
        AppendAssoc(old(writer.events), [Property("trivia")], ArrayOf(TriviaObjects(token.trivia)));
      }
    }
  }

  /** The SimpleTrivia-mode string: the trivia's raw texts appended one by one. */
  method ConcatTriviaText(trivia: seq<Trivia>) returns (triviaText: string)
    ensures triviaText == TriviaText(trivia)
  {
    triviaText := "";
    var i := 0;
    while i < |trivia|
      invariant 0 <= i <= |trivia|
      invariant triviaText == TriviaText(trivia[..i])
    {
      assert trivia[..i + 1][..i] == trivia[..i];
      triviaText := triviaText + trivia[i].rawText;
      i := i + 1;
    }
    assert trivia[..i] == trivia;
  }

  /** Serializes whole trees or single nodes to a writer in a fixed mode. */
  class CSTSerializer {
    const writer: JsonWriter
    const mode: CSTJsonMode

    constructor(writer: JsonWriter, mode: CSTJsonMode)
      ensures this.writer == writer && this.mode == mode
    {
      this.writer := writer;
      this.mode := mode;
    }

    method Serialize(tree: SyntaxTree)
      modifies writer
      ensures writer.events == old(writer.events) + TreeEvents(mode, tree)
    {
      writer.StartObject();
      ghost var begun := writer.events;
      writer.WriteProperty("kind");
      writer.WriteValue("SyntaxTree");
      AppendTwo(begun, Property("kind"), Value("SyntaxTree"));
      ghost var head := writer.events;
      writer.WriteProperty("root");
      SerializeNode(tree.root);
      AppendAssoc(head, [Property("root")], NodeEvents(mode, tree.root));
      AppendAssoc(begun, [Property("kind"), Value("SyntaxTree")], [Property("root")] + NodeEvents(mode, tree.root));
      writer.EndObject();
      Bracketed(old(writer.events), [ObjectStart],
                [Property("kind"), Value("SyntaxTree")] + ([Property("root")] + NodeEvents(mode, tree.root)), [ObjectEnd]);
    }

    method SerializeNode(node: SyntaxNode)
      modifies writer
      ensures writer.events == old(writer.events) + NodeEvents(mode, node)
    {
      var visitor := new CSTJsonVisitor(writer, mode);
      visitor.Visit(node);
    }
  }
}
