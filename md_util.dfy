/**
 * The outline pipeline of `md.util.ts`: a flat markdown-it token list is
 * rebuilt into a render tree, the top-level heading nodes are picked out,
 * and the headings are nested into a heading tree by level.
 */
module MdUtil {
  import opened Js

  /**
   * A markdown-it token. `kind` is the token's `type`; an absent `content`
   * is the empty string, which JavaScript treats the same way (both falsy).
   */
  datatype Token = Token(tag: string, kind: string, content: string, children: seq<Token>)

  /** A render node; its content mixes text runs and nested nodes. */
  datatype RenderNode = RenderNode(tag: string, content: seq<Content>)
  datatype Content = TextRun(text: string) | Subtree(node: RenderNode)

  /** A heading: flat (no children yet) or in tree form. */
  datatype HeadingNode = HeadingNode(text: string, level: nat, children: seq<HeadingNode>)

  /** `matchTagStart`: the type ends in `_open`. */
  predicate IsOpen(t: Token) { EndsWith(t.kind, "_open") }

  /** `matchTagEnd`: the type ends in `_close`. */
  predicate IsClose(t: Token) { EndsWith(t.kind, "_close") }

  /** `matchHeadingTag`: `h` followed by one or more ASCII digits. */
  predicate IsHeadingTag(tag: string) {
    |tag| >= 2 && tag[0] == 'h' && IsDigits(tag[1..])
  }

  function CreateEmptyRenderNode(tag: string): RenderNode {
    RenderNode(tag, [])
  }

  // ---------------------------------------------------------------------
  // encodeRenderTree
  //
  // In the source every node on the stack is also, by reference, the last
  // entry of the node below it: it was appended there when it was opened and
  // nothing else is appended below it while it stays open. The model keeps
  // each open node as a value frame that holds what has been appended to it
  // so far, and hangs it under the frame below when it is popped; `View`
  // gives the tree that the source's root object holds at any moment.

  /**
   * The builder's state: the stack of open frames, and the root's content
   * once the root itself has been popped by a surplus close token.
   */
  datatype Builder = Builder(stack: seq<RenderNode>, root: seq<Content>)

  function Initial(): Builder {
    Builder([CreateEmptyRenderNode("")], [])
  }

  function Append(node: RenderNode, c: Content): RenderNode {
    RenderNode(node.tag, node.content + [c])
  }

  /** The tree rooted at the bottom frame, with every open frame hung under the one below. */
  function View(stack: seq<RenderNode>): RenderNode
    requires |stack| > 0
  {
    if |stack| == 1 then stack[0] else Append(stack[0], Subtree(View(stack[1..])))
  }

  /** The node at stack position `k` as the source's objects show it. */
  function NodeAt(stack: seq<RenderNode>, k: nat): RenderNode
    requires k < |stack|
  {
    View(stack[k..])
  }

  /** What `root.content` holds for this state. */
  function RootContent(b: Builder): seq<Content> {
    if |b.stack| > 0 then View(b.stack).content else b.root
  }

  /** `stack.pop()`; popping the root keeps its content, popping an empty stack does nothing. */
  function Pop(b: Builder): Builder {
    if |b.stack| == 0 then b
    else if |b.stack| == 1 then Builder([], b.stack[0].content)
    else
      var n := |b.stack|;
      Builder(b.stack[..n - 2] + [Append(b.stack[n - 2], Subtree(b.stack[n - 1]))], b.root)
  }

  /** The message of the `TypeError` thrown when the stack is empty and a node is needed. */
  const EmptyStackError := TypeError("Cannot read properties of undefined (reading 'content')")

  /**
   * The entry a token that neither opens nor closes contributes, by JavaScript
   * truthiness: its content if non-empty, else (for a non-empty tag) a node
   * built from its children, else the empty string.
   */
  function SelfClosingEntry(t: Token): (r: Result<Content>)
    ensures t.content != "" ==> r == Success(TextRun(t.content))
    ensures t.content == "" && t.tag == "" ==> r == Success(TextRun(""))
    ensures t.content == "" && t.tag != "" ==>
      (r.Success? <==> RenderTree(t.children).Success?) &&
      (r.Success? ==> r.value == Subtree(RenderNode(t.tag, RenderTree(t.children).value))) &&
      (r.Failure? ==> r.error == RenderTree(t.children).error)
    decreases t, 0
  {
    if t.content != "" then Success(TextRun(t.content))
    else if t.tag != "" then
      var content :- RenderTree(t.children);
      Success(Subtree(RenderNode(t.tag, content)))
    else Success(TextRun(""))
  }

  /** One iteration of the loop in `encodeRenderTree`. */
  function Step(b: Builder, t: Token): Result<Builder>
    decreases t, 1
  {
    if IsOpen(t) then
      if |b.stack| == 0 then Failure(EmptyStackError)
      else Success(Builder(b.stack + [CreateEmptyRenderNode(t.tag)], b.root))
    else if IsClose(t) then Success(Pop(b))
    else if |b.stack| == 0 then Failure(EmptyStackError)
    else
      var e :- SelfClosingEntry(t);
      var n := |b.stack|;
      Success(Builder(b.stack[..n - 1] + [Append(b.stack[n - 1], e)], b.root))
  }

  /** The loop of `encodeRenderTree` over `tokens`, from state `b`. */
  function Run(b: Builder, tokens: seq<Token>): Result<Builder>
    decreases tokens, 0
  {
    if |tokens| == 0 then Success(b)
    else
      var b' :- Step(b, tokens[0]);
      Run(b', tokens[1..])
  }

  /** `encodeRenderTree`: the root's content after all tokens. */
  function RenderTree(tokens: seq<Token>): Result<seq<Content>>
    decreases tokens, 1
  {
    var b :- Run(Initial(), tokens);
    Success(RootContent(b))
  }

  lemma {:induction false} RunAppend(b: Builder, xs: seq<Token>, ys: seq<Token>)
    ensures Run(b, xs + ys) == (var b' :- Run(b, xs); Run(b', ys))
    decreases xs
  {
    if |xs| == 0 {
      assert xs + ys == ys;
    } else {
      assert (xs + ys)[0] == xs[0];
      assert (xs + ys)[1..] == xs[1..] + ys;
      match Step(b, xs[0])
      case Failure(_) =>
      case Success(b1) => RunAppend(b1, xs[1..], ys);
    }
  }

  /**
   * `encodeRenderTree` as the source writes it: a loop over the tokens with an
   * explicit stack, recursing through `createRenderNode` for tokens that
   * carry children.
   */
  method EncodeRenderTree(tokens: seq<Token>) returns (r: Result<seq<Content>>)
    ensures r == RenderTree(tokens)
    decreases tokens, 1
  {
    var stack := [CreateEmptyRenderNode("")];
    var root: seq<Content> := [];
    for i := 0 to |tokens|
      invariant Run(Initial(), tokens[..i]) == Success(Builder(stack, root))
    {
      var token := tokens[i];
      RunAppend(Initial(), tokens[..i], [token]);
      assert tokens[..i + 1] == tokens[..i] + [token];
      if IsOpen(token) {
        if |stack| == 0 {
          RunAppend(Initial(), tokens[..i + 1], tokens[i + 1..]);
          assert tokens[..i + 1] + tokens[i + 1..] == tokens;
          return Failure(EmptyStackError);
        }
        stack := stack + [CreateEmptyRenderNode(token.tag)];
      } else if IsClose(token) {
        if |stack| == 1 {
          root := stack[0].content;
          stack := [];
        } else if |stack| > 1 {
          var n := |stack|;
          stack := stack[..n - 2] + [Append(stack[n - 2], Subtree(stack[n - 1]))];
        }
      } else {
        if |stack| == 0 {
          RunAppend(Initial(), tokens[..i + 1], tokens[i + 1..]);
          assert tokens[..i + 1] + tokens[i + 1..] == tokens;
          return Failure(EmptyStackError);
        }
        var entry: Content;
        if token.content != "" {
          entry := TextRun(token.content);
        } else if token.tag != "" {
          var node := CreateRenderNode(token.tag, token.children);
          if node.Failure? {
            RunAppend(Initial(), tokens[..i + 1], tokens[i + 1..]);
            assert tokens[..i + 1] + tokens[i + 1..] == tokens;
            return Failure(node.error);
          }
          entry := Subtree(node.value);
        } else {
          entry := TextRun("");
        }
        var n := |stack|;
        stack := stack[..n - 1] + [Append(stack[n - 1], entry)];
      }
    }
    assert tokens[..|tokens|] == tokens;
    r := Success(if |stack| > 0 then View(stack).content else root);
  }

  /** `createRenderNode`: a node with the given tag whose content is the render tree of `children`. */
  method CreateRenderNode(tag: string, children: seq<Token>) returns (r: Result<RenderNode>)
    ensures r.Success? <==> RenderTree(children).Success?
    ensures r.Success? ==> r.value.tag == tag && r.value.content == RenderTree(children).value
    ensures r.Failure? ==> r.error == RenderTree(children).error
    decreases children, 2
  {
    var content := EncodeRenderTree(children);
    if content.Failure? {
      return Failure(content.error);
    }
    r := Success(RenderNode(tag, content.value));
  }

  // ---------------------------------------------------------------------
  // What one token does

  /** An empty token list gives an empty render tree. */
  lemma EmptyTokenList()
    ensures RenderTree([]) == Success([])
  {
  }

  /** Hanging the top frame under the one below does not change the tree seen from the root. */
  lemma {:induction false} ViewPop(stack: seq<RenderNode>)
    requires |stack| >= 2
    ensures var n := |stack|;
      View(stack[..n - 2] + [Append(stack[n - 2], Subtree(stack[n - 1]))]) == View(stack)
    decreases |stack|
  {
    var n := |stack|;
    var popped := stack[..n - 2] + [Append(stack[n - 2], Subtree(stack[n - 1]))];
    if n > 2 {
      assert popped[1..] == stack[1..][..n - 3] + [Append(stack[n - 2], Subtree(stack[n - 1]))];
      ViewPop(stack[1..]);
    }
  }

  /**
   * An open token puts a fresh empty node with the token's tag on the stack,
   * and that node becomes the last entry of the node that was on top before.
   */
  lemma OpenStep(b: Builder, t: Token)
    requires IsOpen(t) && |b.stack| > 0
    ensures Step(b, t).Success?
    ensures var b' := Step(b, t).value; var n := |b.stack|;
      && |b'.stack| == n + 1
      && b'.stack[..n] == b.stack
      && b'.stack[n] == RenderNode(t.tag, [])
      && NodeAt(b'.stack, n - 1) == Append(NodeAt(b.stack, n - 1), Subtree(RenderNode(t.tag, [])))
  {
    var n := |b.stack|;
    var b' := Step(b, t).value;
    assert b'.stack == b.stack + [RenderNode(t.tag, [])];
    assert b'.stack[n - 1..] == [b.stack[n - 1], RenderNode(t.tag, [])];
    var top := b'.stack[n - 1..];
    assert top[1..] == [RenderNode(t.tag, [])];
    assert View(top[1..]) == RenderNode(t.tag, []);
    assert View(top) == Append(top[0], Subtree(View(top[1..])));
    assert NodeAt(b'.stack, n - 1) == Append(b.stack[n - 1], Subtree(RenderNode(t.tag, [])));
    assert b.stack[n - 1..] == [b.stack[n - 1]];
    assert NodeAt(b.stack, n - 1) == b.stack[n - 1];
  }

  /**
   * A close token only pops: the stack loses its top (or stays empty), the
   * nodes left on it are unchanged, and so is the root's content.
   */
  lemma CloseStep(b: Builder, t: Token)
    requires IsClose(t)
    ensures Step(b, t).Success?
    ensures var b' := Step(b, t).value;
      && |b'.stack| == (if |b.stack| == 0 then 0 else |b.stack| - 1)
      && RootContent(b') == RootContent(b)
      && forall k :: 0 <= k < |b'.stack| ==> NodeAt(b'.stack, k) == NodeAt(b.stack, k)
  {
    OpenIsNotClose(t);
    var b' := Step(b, t).value;
    var n := |b.stack|;
    if n >= 2 {
      assert b' == Pop(b);
      forall k | 0 <= k < |b'.stack|
        ensures NodeAt(b'.stack, k) == NodeAt(b.stack, k)
      {
        PopKeepsNode(b.stack, k);
      }
      PopKeepsNode(b.stack, 0);
    }
  }

  /** Hanging the top frame under the one below leaves every lower node as the source's objects show it. */
  lemma PopKeepsNode(stack: seq<RenderNode>, k: nat)
    requires |stack| >= 2 && k < |stack| - 1
    ensures var n := |stack|;
      var popped := stack[..n - 2] + [Append(stack[n - 2], Subtree(stack[n - 1]))];
      NodeAt(popped, k) == NodeAt(stack, k)
  {
    var n := |stack|;
    var popped := stack[..n - 2] + [Append(stack[n - 2], Subtree(stack[n - 1]))];
    var top := stack[k..];
    assert popped[k..] == top[..n - k - 2] + [Append(top[n - k - 2], Subtree(top[n - k - 1]))];
    ViewPop(top);
  }

  /**
   * Any other token appends exactly one entry, its `SelfClosingEntry`, to the
   * node on top of the stack, and leaves the stack's height as it was; on an
   * empty stack it throws.
   */
  lemma OtherStep(b: Builder, t: Token)
    requires !IsOpen(t) && !IsClose(t)
    ensures |b.stack| == 0 ==> Step(b, t) == Failure(EmptyStackError)
    ensures |b.stack| > 0 && SelfClosingEntry(t).Failure? ==>
      Step(b, t) == Failure(SelfClosingEntry(t).error)
    ensures |b.stack| > 0 && SelfClosingEntry(t).Success? ==>
      Step(b, t).Success? &&
      var b' := Step(b, t).value; var n := |b.stack|;
      && |b'.stack| == n
      && b'.stack[..n - 1] == b.stack[..n - 1]
      && NodeAt(b'.stack, n - 1) == Append(NodeAt(b.stack, n - 1), SelfClosingEntry(t).value)
  {
    if |b.stack| > 0 && SelfClosingEntry(t).Success? {
      var n := |b.stack|;
      var b' := Step(b, t).value;
      assert b'.stack[n - 1..] == [b'.stack[n - 1]];
      assert b.stack[n - 1..] == [b.stack[n - 1]];
    }
  }

  /** No type ends in both `_open` and `_close`. */
  lemma OpenIsNotClose(t: Token)
    ensures !(IsOpen(t) && IsClose(t))
  {
    var n := |t.kind|;
    if IsOpen(t) {
      assert t.kind[n - 5..][4] == 'n';
      if n >= 6 {
        assert t.kind[n - 6..][5] == t.kind[n - 1] == 'n';
      }
    }
  }

  // ---------------------------------------------------------------------
  // Stack depth

  function Opens(ts: seq<Token>): nat {
    if |ts| == 0 then 0 else (if IsOpen(ts[0]) then 1 else 0) + Opens(ts[1..])
  }

  function Closes(ts: seq<Token>): nat {
    if |ts| == 0 then 0 else (if IsClose(ts[0]) then 1 else 0) + Closes(ts[1..])
  }

  /** Starting from `depth` open frames, no prefix of `ts` closes more frames than are open. */
  predicate NeverUnderflows(depth: nat, ts: seq<Token>) {
    forall i :: 0 <= i <= |ts| ==> Closes(ts[..i]) < depth + Opens(ts[..i])
  }

  /**
   * When closes never outrun opens, the stack after the tokens holds its
   * starting height plus the opens minus the closes, and the run can only
   * fail inside a token that builds a node from its children.
   */
  lemma {:induction false} RunDepth(b: Builder, ts: seq<Token>)
    requires NeverUnderflows(|b.stack|, ts)
    ensures Run(b, ts).Success? ==> |Run(b, ts).value.stack| == |b.stack| + Opens(ts) - Closes(ts)
    ensures Run(b, ts).Failure? ==>
      exists i :: 0 <= i < |ts| && !IsOpen(ts[i]) && !IsClose(ts[i]) && SelfClosingEntry(ts[i]).Failure?
    decreases ts
  {
    assert ts[..0] == [];
    if |ts| > 0 {
      var t := ts[0];
      assert ts[..1] == [t];
      assert Closes(ts[..1]) < |b.stack| + Opens(ts[..1]);
      OpenIsNotClose(t);
      match Step(b, t)
      case Failure(_) =>
        assert |b.stack| > 0;
        OtherStep(b, t);
        assert !IsOpen(ts[0]) && !IsClose(ts[0]) && SelfClosingEntry(ts[0]).Failure?;
      case Success(b1) =>
        var d := |b.stack| + (if IsOpen(t) then 1 else 0) - (if IsClose(t) then 1 else 0);
        assert |b1.stack| == d by {
          if IsOpen(t) { OpenStep(b, t); }
          else if IsClose(t) { CloseStep(b, t); }
          else { OtherStep(b, t); }
        }
        forall i | 0 <= i <= |ts[1..]|
          ensures Closes(ts[1..][..i]) < |b1.stack| + Opens(ts[1..][..i])
        {
          assert ts[..i + 1][0] == t && ts[..i + 1][1..] == ts[1..][..i];
          assert Closes(ts[..i + 1]) < |b.stack| + Opens(ts[..i + 1]);
        }
        RunDepth(b1, ts[1..]);
        if Run(b, ts).Failure? {
          var i :| 0 <= i < |ts[1..]| && !IsOpen(ts[1..][i]) && !IsClose(ts[1..][i]) && SelfClosingEntry(ts[1..][i]).Failure?;
          assert ts[i + 1] == ts[1..][i];
        }
    }
  }

  /**
   * For a stream whose prefixes never close more than they open, the stack
   * after it holds the root plus the opens minus the closes; a stream that
   * also closes everything it opens leaves only the root.
   */
  lemma RenderDepth(tokens: seq<Token>)
    requires NeverUnderflows(1, tokens)
    ensures Run(Initial(), tokens).Success? ==>
      |Run(Initial(), tokens).value.stack| == 1 + Opens(tokens) - Closes(tokens)
    ensures Run(Initial(), tokens).Success? && Opens(tokens) == Closes(tokens) ==>
      |Run(Initial(), tokens).value.stack| == 1
  {
    RunDepth(Initial(), tokens);
  }

  // ---------------------------------------------------------------------
  // Well-formed streams

  /**
   * A document in which every open token is paired with a close token: the
   * shape a well-formed stream has. `DocTokens` lists its tokens in order.
   */
  datatype Doc = Leaf(token: Token) | Block(open: Token, body: seq<Doc>, close: Token)

  predicate WellFormedDoc(d: Doc)
    decreases d, 0
  {
    match d
    case Leaf(t) => !IsOpen(t) && !IsClose(t)
    case Block(o, body, c) => IsOpen(o) && IsClose(c) && WellFormedDocs(body)
  }

  predicate WellFormedDocs(ds: seq<Doc>)
    decreases ds, 1
  {
    forall i :: 0 <= i < |ds| ==> WellFormedDoc(ds[i])
  }

  function DocTokens(ds: seq<Doc>): seq<Token>
    decreases ds, 1
  {
    if |ds| == 0 then [] else DocTokensOf(ds[0]) + DocTokens(ds[1..])
  }

  function DocTokensOf(d: Doc): seq<Token>
    decreases d, 0
  {
    match d
    case Leaf(t) => [t]
    case Block(o, body, c) => [o] + DocTokens(body) + [c]
  }

  /**
   * The render tree a document denotes, read by recursive descent: a leaf
   * gives its entry, a block gives a node with the open token's tag holding
   * the entries of its body. The first failing leaf in order decides the error.
   */
  function DocTree(ds: seq<Doc>): Result<seq<Content>>
    decreases ds, 1
  {
    if |ds| == 0 then Success([])
    else
      var x :- DocTreeOf(ds[0]);
      var xs :- DocTree(ds[1..]);
      Success([x] + xs)
  }

  function DocTreeOf(d: Doc): Result<Content>
    decreases d, 0
  {
    match d
    case Leaf(t) => SelfClosingEntry(t)
    case Block(o, body, c) =>
      var inner :- DocTree(body);
      Success(Subtree(RenderNode(o.tag, inner)))
  }

  /** Appends `items` to the node on top of the stack. */
  function AppendAll(b: Builder, items: seq<Content>): Builder
    requires |b.stack| > 0
  {
    var n := |b.stack|;
    Builder(b.stack[..n - 1] + [RenderNode(b.stack[n - 1].tag, b.stack[n - 1].content + items)], b.root)
  }

  lemma {:induction false} RunDoc(b: Builder, d: Doc, rest: seq<Token>)
    requires |b.stack| > 0 && WellFormedDoc(d)
    ensures Run(b, DocTokensOf(d) + rest) ==
      (var x :- DocTreeOf(d); Run(AppendAll(b, [x]), rest))
    decreases d, 0
  {
    match d
    case Leaf(t) =>
      LeafRun(b, t, rest);
    case Block(o, body, c) =>
      var b1 := Builder(b.stack + [RenderNode(o.tag, [])], b.root);
      assert DocTokensOf(d) + rest == [o] + (DocTokens(body) + ([c] + rest));
      OpenRun(b, o, DocTokens(body) + ([c] + rest));
      RunDocs(b1, body, [c] + rest);
      match DocTree(body)
      case Failure(_) =>
      case Success(inner) =>
        CloseRun(b, o.tag, inner, c, rest);
  }

  /** A leaf appends its entry to the top node, or fails as its entry does. */
  lemma LeafRun(b: Builder, t: Token, rest: seq<Token>)
    requires |b.stack| > 0 && !IsOpen(t) && !IsClose(t)
    ensures Run(b, [t] + rest) ==
      (var x :- SelfClosingEntry(t); Run(AppendAll(b, [x]), rest))
  {
    assert ([t] + rest)[0] == t && ([t] + rest)[1..] == rest;
  }

  /** An open token pushes an empty node with its tag. */
  lemma OpenRun(b: Builder, o: Token, rest: seq<Token>)
    requires |b.stack| > 0 && IsOpen(o)
    ensures Run(b, [o] + rest) == Run(Builder(b.stack + [RenderNode(o.tag, [])], b.root), rest)
  {
    assert ([o] + rest)[0] == o && ([o] + rest)[1..] == rest;
    OpenIsNotClose(o);
  }

  /** The close token of a block hangs the filled node under the node below it. */
  lemma CloseRun(b: Builder, tag: string, inner: seq<Content>, c: Token, rest: seq<Token>)
    requires |b.stack| > 0 && IsClose(c)
    ensures Run(AppendAll(Builder(b.stack + [RenderNode(tag, [])], b.root), inner), [c] + rest) ==
      Run(AppendAll(b, [Subtree(RenderNode(tag, inner))]), rest)
  {
    var n := |b.stack|;
    var b1 := Builder(b.stack + [RenderNode(tag, [])], b.root);
    var b2 := AppendAll(b1, inner);
    var node := RenderNode(tag, inner);
    assert b1.stack[..n] == b.stack;
    assert b1.stack[n].content + inner == inner;
    assert b2.stack == b.stack + [node];
    assert ([c] + rest)[0] == c && ([c] + rest)[1..] == rest;
    OpenIsNotClose(c);
    assert Step(b2, c) == Success(Pop(b2));
    assert (b.stack + [node])[..n - 1] == b.stack[..n - 1];
    assert Pop(b2) == AppendAll(b, [Subtree(node)]);
  }

  lemma {:induction false} RunDocs(b: Builder, ds: seq<Doc>, rest: seq<Token>)
    requires |b.stack| > 0 && WellFormedDocs(ds)
    ensures Run(b, DocTokens(ds) + rest) ==
      (var items :- DocTree(ds); Run(AppendAll(b, items), rest))
    decreases ds, 1
  {
    if |ds| == 0 {
      assert DocTokens(ds) + rest == rest;
      AppendNothing(b);
    } else {
      assert DocTokens(ds) + rest == DocTokensOf(ds[0]) + (DocTokens(ds[1..]) + rest);
      RunDoc(b, ds[0], DocTokens(ds[1..]) + rest);
      match DocTreeOf(ds[0])
      case Failure(_) =>
      case Success(x) =>
        WellFormedTail(ds);
        RunDocs(AppendAll(b, [x]), ds[1..], rest);
        match DocTree(ds[1..])
        case Failure(_) =>
        case Success(xs) =>
          AppendTwice(b, x, xs);
    }
  }

  lemma AppendNothing(b: Builder)
    requires |b.stack| > 0
    ensures AppendAll(b, []) == b
  {
    var n := |b.stack|;
    assert b.stack[n - 1].content + [] == b.stack[n - 1].content;
    assert b.stack[..n - 1] + [b.stack[n - 1]] == b.stack;
  }

  lemma AppendTwice(b: Builder, x: Content, xs: seq<Content>)
    requires |b.stack| > 0
    ensures AppendAll(AppendAll(b, [x]), xs) == AppendAll(b, [x] + xs)
  {
    var n := |b.stack|;
    var b1 := AppendAll(b, [x]);
    assert b1.stack[..n - 1] == b.stack[..n - 1];
    assert b.stack[n - 1].content + [x] + xs == b.stack[n - 1].content + ([x] + xs);
  }

  lemma WellFormedTail(ds: seq<Doc>)
    requires |ds| > 0 && WellFormedDocs(ds)
    ensures WellFormedDocs(ds[1..])
  {
    forall i | 0 <= i < |ds[1..]| ensures WellFormedDoc(ds[1..][i]) {
      assert ds[1..][i] == ds[i + 1];
    }
  }


  /**
   * On a well-formed stream the explicit-stack loop builds exactly the tree
   * the pairing of open and close tokens describes.
   */
  lemma WellFormedRenderTree(ds: seq<Doc>)
    requires WellFormedDocs(ds)
    ensures RenderTree(DocTokens(ds)) == DocTree(ds)
  {
    RunDocs(Initial(), ds, []);
    assert DocTokens(ds) + [] == DocTokens(ds);
    match DocTree(ds)
    case Failure(_) =>
    case Success(items) =>
      assert [] + items == items;
      assert AppendAll(Initial(), items).stack == [RenderNode("", items)];
  }

  // ---------------------------------------------------------------------
  // getHeadingList

  /** `getHeadingList`: the top-level nodes whose tag is `h` and digits, in order. */
  function GetHeadingList(tree: seq<Content>): (r: seq<RenderNode>)
    ensures |r| <= |tree|
    ensures forall i :: 0 <= i < |r| ==> IsHeadingTag(r[i].tag)
    ensures forall n :: n in r <==> Subtree(n) in tree && IsHeadingTag(n.tag)
  {
    if |tree| == 0 then []
    else
      var head := match tree[0]
        case Subtree(n) => if IsHeadingTag(n.tag) then [n] else []
        case TextRun(_) => [];
      head + GetHeadingList(tree[1..])
  }

  /** Filtering distributes over concatenation, so the input's order is kept. */
  lemma {:induction false} GetHeadingListAppend(a: seq<Content>, b: seq<Content>)
    ensures GetHeadingList(a + b) == GetHeadingList(a) + GetHeadingList(b)
  {
    if |a| == 0 {
      assert a + b == b;
    } else {
      assert (a + b)[0] == a[0] && (a + b)[1..] == a[1..] + b;
      GetHeadingListAppend(a[1..], b);
    }
  }

  /** One entry is kept exactly when it is a heading node; a text run never is. */
  lemma GetHeadingListSingle(c: Content)
    ensures GetHeadingList([c]) == if c.Subtree? && IsHeadingTag(c.node.tag) then [c.node] else []
  {
    assert [c][1..] == [];
  }

  // ---------------------------------------------------------------------
  // createHeadingNode

  /** `String(c)` for one content entry: a node prints as `[object Object]`. */
  function ContentString(c: Content): string {
    match c
    case TextRun(s) => s
    case Subtree(_) => "[object Object]"
  }

  /** `content.join('')`. */
  function JoinContent(cs: seq<Content>): string {
    if |cs| == 0 then "" else ContentString(cs[0]) + JoinContent(cs[1..])
  }

  lemma {:induction false} JoinContentAppend(a: seq<Content>, b: seq<Content>)
    ensures JoinContent(a + b) == JoinContent(a) + JoinContent(b)
  {
    if |a| == 0 {
      assert a + b == b;
    } else {
      assert (a + b)[1..] == a[1..] + b;
      JoinContentAppend(a[1..], b);
    }
  }

  /** `Number(tag.replace('h', ''))` for a heading tag: the value of the digits after the `h`. */
  function HeadingLevel(tag: string): (r: nat)
    requires IsHeadingTag(tag)
    ensures r == DigitsValue(tag[1..])
  {
    assert OccursAt(tag, "h", 0);
    var digits := ReplaceFirst(tag, "h", "");
    assert digits == tag[1..];
    DigitsValue(digits)
  }

  /**
   * `createHeadingNode`: the level is the tag's number, the text the node's
   * content joined, and there are no children yet.
   */
  function CreateHeadingNode(heading: RenderNode): (r: HeadingNode)
    requires IsHeadingTag(heading.tag)
    ensures r.level == DigitsValue(heading.tag[1..]) && r.children == []
    ensures |heading.content| == 1 && heading.content[0].TextRun? ==> r.text == heading.content[0].text
    ensures heading.content == [] ==> r.text == ""
  {
    assert |heading.content| == 1 ==>
      JoinContent(heading.content) == ContentString(heading.content[0]) + JoinContent(heading.content[1..]) &&
      heading.content[1..] == [];
    HeadingNode(JoinContent(heading.content), HeadingLevel(heading.tag), [])
  }

  /** The headings of a heading list, in order, before nesting. */
  function FlatHeadings(headingList: seq<RenderNode>): (r: seq<HeadingNode>)
    requires forall i :: 0 <= i < |headingList| ==> IsHeadingTag(headingList[i].tag)
    ensures |r| == |headingList|
    ensures forall i :: 0 <= i < |r| ==> r[i] == CreateHeadingNode(headingList[i])
  {
    seq(|headingList|, i requires 0 <= i < |headingList| => CreateHeadingNode(headingList[i]))
  }

  // ---------------------------------------------------------------------
  // encodeHeadingTree
  //
  // The source appends each heading object to the children of an earlier
  // heading object that is still reachable from the root. The model numbers
  // the objects: slot 0 is the root (level 0, empty text) and slot k is the
  // k-th heading; each slot keeps the slot numbers of its children, in the
  // order they were appended. `Node` reads the object graph back as a tree.

  datatype Arena = Arena(levels: seq<nat>, texts: seq<string>, kids: seq<seq<nat>>)

  /** Every child slot comes after its parent slot, so reading the tree back terminates. */
  predicate ValidArena(a: Arena) {
    && |a.levels| == |a.texts| == |a.kids|
    && forall j, i :: 0 <= j < |a.kids| && 0 <= i < |a.kids[j]| ==> j < a.kids[j][i] < |a.kids|
  }

  /** The heading object in slot `j`, with everything appended below it. */
  function Node(a: Arena, j: nat): HeadingNode
    requires ValidArena(a) && j < |a.kids|
    decreases |a.kids| - j
  {
    HeadingNode(a.texts[j], a.levels[j],
      seq(|a.kids[j]|, i requires 0 <= i < |a.kids[j]| => Node(a, a.kids[j][i])))
  }

  /** The levels of the slots: 0 for the root, then each heading's level. */
  function Levels(flat: seq<HeadingNode>): (r: seq<nat>)
    ensures |r| == |flat| + 1 && r[0] == 0
    ensures forall k :: 1 <= k < |r| ==> r[k] == flat[k - 1].level
  {
    [0] + seq(|flat|, i requires 0 <= i < |flat| => flat[i].level)
  }

  function Texts(flat: seq<HeadingNode>): (r: seq<string>)
    ensures |r| == |flat| + 1 && r[0] == ""
    ensures forall k :: 1 <= k < |r| ==> r[k] == flat[k - 1].text
  {
    [""] + seq(|flat|, i requires 0 <= i < |flat| => flat[i].text)
  }

  /**
   * `stack.filter(n => n.level < level).pop()` when the stack holds slots
   * `0 .. k-1`: the last slot before `k` whose level is smaller.
   */
  function LastBelow(levels: seq<nat>, level: nat, k: nat): (r: Option<nat>)
    requires k <= |levels|
    ensures r.Some? ==> r.value < k && levels[r.value] < level
    ensures r.Some? ==> forall m :: r.value < m < k ==> levels[m] >= level
    ensures r.None? ==> forall m :: 0 <= m < k ==> levels[m] >= level
  {
    if k == 0 then None
    else if levels[k - 1] < level then Some(k - 1)
    else LastBelow(levels, level, k - 1)
  }

  /** The slot heading `k` is appended to, if any. */
  function ParentSlot(levels: seq<nat>, k: nat): (r: Option<nat>)
    requires 0 < k < |levels|
    ensures r.Some? ==> r.value < k && levels[r.value] < levels[k]
  {
    LastBelow(levels, levels[k], k)
  }

  /** The slots in `[lo, hi)` whose parent is slot `j`, in increasing order. */
  function ChildSlots(levels: seq<nat>, j: nat, lo: nat, hi: nat): (r: seq<nat>)
    requires 1 <= lo && hi <= |levels|
    ensures forall i :: 0 <= i < |r| ==> lo <= r[i] < hi && ParentSlot(levels, r[i]) == Some(j)
    decreases hi - lo
  {
    if hi <= lo then []
    else (if ParentSlot(levels, lo) == Some(j) then [lo] else []) + ChildSlots(levels, j, lo + 1, hi)
  }

  /** One step of `ChildSlots`: the first slot of the range, then the rest. */
  lemma ChildSlotsStep(levels: seq<nat>, j: nat, lo: nat, hi: nat)
    requires 1 <= lo < hi <= |levels|
    ensures ChildSlots(levels, j, lo, hi) ==
      (if ParentSlot(levels, lo) == Some(j) then [lo] else []) + ChildSlots(levels, j, lo + 1, hi)
  {
  }

  /** Every child of `j` in the range is listed. */
  lemma {:induction false} ChildSlotsComplete(levels: seq<nat>, j: nat, lo: nat, hi: nat, c: nat)
    requires 1 <= lo <= c < hi <= |levels| && ParentSlot(levels, c) == Some(j)
    ensures c in ChildSlots(levels, j, lo, hi)
    decreases c - lo
  {
    var head := if ParentSlot(levels, lo) == Some(j) then [lo] else [];
    var rest := ChildSlots(levels, j, lo + 1, hi);
    assert ChildSlots(levels, j, lo, hi) == head + rest;
    if c == lo {
      assert head == [lo];
    } else {
      ChildSlotsComplete(levels, j, lo + 1, hi, c);
    }
  }

  /** Each element is smaller than every later one. */
  predicate Increasing(r: seq<nat>) {
    forall i, i' :: 0 <= i < i' < |r| ==> r[i] < r[i']
  }

  /** The listed children are strictly increasing. */
  lemma {:induction false} ChildSlotsIncreasing(levels: seq<nat>, j: nat, lo: nat, hi: nat)
    requires 1 <= lo && hi <= |levels|
    ensures Increasing(ChildSlots(levels, j, lo, hi))
    decreases hi - lo
  {
    if lo < hi {
      ChildSlotsIncreasing(levels, j, lo + 1, hi);
      var rest := ChildSlots(levels, j, lo + 1, hi);
      if ParentSlot(levels, lo) == Some(j) {
        ConsIncreasing(lo, rest);
      } else {
        assert ChildSlots(levels, j, lo, hi) == rest;
      }
    }
  }

  lemma ConsIncreasing(x: nat, rest: seq<nat>)
    requires Increasing(rest) && forall i :: 0 <= i < |rest| ==> x < rest[i]
    ensures Increasing([x] + rest)
  {
    var r := [x] + rest;
    forall i, i' | 0 <= i < i' < |r|
      ensures r[i] < r[i']
    {
      assert r[i'] == rest[i' - 1];
      if i > 0 {
        assert r[i] == rest[i - 1];
      }
    }
  }

  /** The arena the loop of `encodeHeadingTree` leaves behind. */
  function SpecArena(flat: seq<HeadingNode>): (a: Arena)
    ensures ValidArena(a)
  {
    var levels := Levels(flat);
    Arena(levels, Texts(flat), seq(|levels|, j requires 0 <= j < |levels| => ChildSlots(levels, j, 1, |levels|)))
  }

  /** What `encodeHeadingTree` returns for the headings `flat`: the root's children. */
  function HeadingForest(flat: seq<HeadingNode>): seq<HeadingNode> {
    Node(SpecArena(flat), 0).children
  }

  /** The stack's slots whose level is below `level`, in stack order. */
  function FilterBelow(levels: seq<nat>, stack: seq<nat>, level: nat): (r: seq<nat>)
    requires forall i :: 0 <= i < |stack| ==> stack[i] < |levels|
    ensures forall i :: 0 <= i < |r| ==> r[i] in stack && levels[r[i]] < level
  {
    if |stack| == 0 then []
    else
      var last := stack[|stack| - 1];
      FilterBelow(levels, stack[..|stack| - 1], level) + (if levels[last] < level then [last] else [])
  }

  /** On the never-popped stack `0 .. k-1` the filter's last element is `LastBelow`. */
  lemma {:induction false} FilterBelowLast(levels: seq<nat>, k: nat, level: nat)
    requires k <= |levels|
    ensures var r := FilterBelow(levels, seq(k, m => m), level);
      (|r| > 0 <==> LastBelow(levels, level, k).Some?) &&
      (|r| > 0 ==> r[|r| - 1] == LastBelow(levels, level, k).value)
  {
    if k > 0 {
      assert seq(k, m => m)[..k - 1] == seq(k - 1, m => m);
      FilterBelowLast(levels, k - 1, level);
    }
  }

  /** `LastBelow` only looks at the slots before `k`. */
  lemma {:induction false} LastBelowPrefix(l1: seq<nat>, l2: seq<nat>, level: nat, k: nat)
    requires k <= |l1| && k <= |l2| && l1[..k] == l2[..k]
    ensures LastBelow(l1, level, k) == LastBelow(l2, level, k)
  {
    if k > 0 {
      assert l1[k - 1] == l1[..k][k - 1];
      assert l2[k - 1] == l2[..k][k - 1];
      assert l1[..k - 1] == l1[..k][..k - 1];
      assert l2[..k - 1] == l2[..k][..k - 1];
      LastBelowPrefix(l1, l2, level, k - 1);
    }
  }

  /** Extending the range by one slot appends that slot when it is a child. */
  lemma {:induction false} ChildSlotsSnoc(levels: seq<nat>, j: nat, lo: nat, hi: nat)
    requires 1 <= lo <= hi < |levels|
    ensures ChildSlots(levels, j, lo, hi + 1) ==
      ChildSlots(levels, j, lo, hi) + (if ParentSlot(levels, hi) == Some(j) then [hi] else [])
    decreases hi - lo
  {
    if lo < hi {
      ChildSlotsSnoc(levels, j, lo + 1, hi);
    }
  }

  lemma RangeSnoc(k: nat)
    ensures seq(k, m => m) + [k] == seq(k + 1, m => m)
  {
  }

  /** A slot has no children before it. */
  lemma {:induction false} ChildSlotsBeforeParent(levels: seq<nat>, j: nat, lo: nat, hi: nat)
    requires 1 <= lo && hi <= |levels| && hi <= j + 1
    ensures ChildSlots(levels, j, lo, hi) == []
    decreases hi - lo
  {
    if lo < hi {
      ChildSlotsBeforeParent(levels, j, lo + 1, hi);
    }
  }

  /** The candidate the source picks from the stack `0 .. k-1` is `ParentSlot`. */
  lemma CandidateIsParent(all: seq<nat>, levels: seq<nat>, k: nat)
    requires 1 <= k < |all| && levels == all[..k]
    ensures var r := FilterBelow(levels, seq(k, m => m), all[k]);
      (|r| > 0 <==> ParentSlot(all, k).Some?) &&
      (|r| > 0 ==> r[|r| - 1] == ParentSlot(all, k).value)
  {
    FilterBelowLast(levels, k, all[k]);
    LastBelowPrefix(levels, all, all[k], k);
  }

  /** Slots `0 .. n-1` hold as children exactly their child slots among `1 .. n-1`. */
  predicate KidsUpTo(all: seq<nat>, kids: seq<seq<nat>>, n: nat)
    requires n <= |all|
  {
    |kids| == n && forall j :: 0 <= j < n ==> kids[j] == ChildSlots(all, j, 1, n)
  }

  /** Appending slot `k` to its parent's children keeps every slot's children equal to `ChildSlots`. */
  lemma AttachStep(all: seq<nat>, kids: seq<seq<nat>>, kids': seq<seq<nat>>, k: nat)
    requires 1 <= k < |all| && KidsUpTo(all, kids, k)
    requires kids' == (match ParentSlot(all, k)
      case Some(p) => kids[p := kids[p] + [k]]
      case None => kids) + [[]]
    ensures KidsUpTo(all, kids', k + 1)
  {
    forall j | 0 <= j <= k
      ensures kids'[j] == ChildSlots(all, j, 1, k + 1)
    {
      if j < k {
        ChildSlotsSnoc(all, j, 1, k);
      } else {
        ChildSlotsSnoc(all, j, 1, k);
        ChildSlotsBeforeParent(all, k, 1, k);
      }
    }
  }

  lemma FinalArena(flat: seq<HeadingNode>, levels: seq<nat>, texts: seq<string>, kids: seq<seq<nat>>)
    requires levels == Levels(flat) && texts == Texts(flat) && KidsUpTo(levels, kids, |levels|)
    ensures Arena(levels, texts, kids) == SpecArena(flat)
  {
  }

  /**
   * `encodeHeadingTree` as the source writes it: every heading is pushed on
   * a stack that is never popped, and appended to the last earlier stack
   * entry whose level is smaller.
   */
  method EncodeHeadingTree(headingList: seq<RenderNode>) returns (r: seq<HeadingNode>)
    requires forall i :: 0 <= i < |headingList| ==> IsHeadingTag(headingList[i].tag)
    ensures r == HeadingForest(FlatHeadings(headingList))
  {
    ghost var flat := FlatHeadings(headingList);
    ghost var all := Levels(flat);
    var levels: seq<nat> := [0];
    var texts := [""];
    var kids: seq<seq<nat>> := [[]];
    var stack: seq<nat> := [0];
    for i := 0 to |headingList|
      invariant levels == all[..i + 1] && texts == Texts(flat)[..i + 1]
      invariant stack == seq(i + 1, m => m)
      invariant KidsUpTo(all, kids, i + 1)
    {
      var headingNode := CreateHeadingNode(headingList[i]);
      var k := i + 1;
      assert headingNode == flat[i] && all[k] == headingNode.level;
      var candidates := FilterBelow(levels, stack, headingNode.level);
      CandidateIsParent(all, levels, k);
      ghost var before := kids;
      if |candidates| > 0 {
        var parent := candidates[|candidates| - 1];
        kids := kids[parent := kids[parent] + [k]];
      }
      kids := kids + [[]];
      AttachStep(all, before, kids, k);
      levels := levels + [headingNode.level];
      texts := texts + [headingNode.text];
      stack := stack + [k];
      RangeSnoc(k);
      TakeNext(all, k);
      TakeNext(Texts(flat), k);
    }
    assert levels == all && texts == Texts(flat);
    assert |headingList| + 1 == |levels|;
    FinalArena(flat, levels, texts, kids);
    r := Node(Arena(levels, texts, kids), 0).children;
  }

  /**
   * `getMdOutline` from the token list on: the render tree, its top-level
   * headings, and their nesting.
   */
  method GetMdOutline(tokens: seq<Token>) returns (r: Result<seq<HeadingNode>>)
    ensures r == (var tree :- RenderTree(tokens); Success(HeadingForest(FlatHeadings(GetHeadingList(tree)))))
  {
    var renderTree := EncodeRenderTree(tokens);
    if renderTree.Failure? {
      return Failure(renderTree.error);
    }
    var headingList := GetHeadingList(renderTree.value);
    var headingTree := EncodeHeadingTree(headingList);
    r := Success(headingTree);
  }
}
