/** What walkFunc credits does not depend on the order of statements, provided no identifier
    the function calls through is bound to two different modules. */
module StatementOrder {
  import opened GoSyntax
  import opened ClientCoverage
  import opened CoverageWalk
  import opened CoverageEvidence
  import opened ScopedWalk

  /** Two nodes agree on everything but their children and their place in the file. */
  predicate SameHead(a: Node, b: Node) {
    |Children(a)| == |Children(b)| &&
    match a
    case Ident(name) => b == a
    case BasicLit(_, _) => b == a
    case Selector(_, sel, _) => b.Selector? && b.sel == sel
    case Call(_, _, _) => b.Call?
    case Unary(uop, _) => b.Unary? && b.uop == uop
    case Binary(op, _, _) => b.Binary? && b.op == op
    case Star(_) => b.Star?
    case Assign(define, lhs, _) => b.Assign? && b.define == define && |b.lhs| == |lhs|
    case ValueSpec(names, typ, _) => b.ValueSpec? && b.names == names && |b.typ| == |typ|
    case GenDecl(isVar, _) => b.GenDecl? && b.isVar == isVar
    case If(init, _, _, els) => b.If? && |b.init| == |init| && |b.els| == |els|
    case Switch(sinit, tag, _) => b.Switch? && |b.sinit| == |sinit| && |b.tag| == |tag|
    case Case(labels, _) => b.Case? && |b.labels| == |labels|
    case FuncLit(params, results, _) => b.FuncLit? && SameNames(params, b.params) && SameNames(results, b.results)
    case Block(_) => b.Block?
    case Scope(_) => b.Scope?
    case RangeClause(rdefine, _, _) => b.RangeClause? && b.rdefine == rdefine
    case Other(_) => b.Other?
  }

  predicate SameNames(a: seq<Field>, b: seq<Field>) {
    |a| == |b| && forall k :: 0 <= k < |a| ==> a[k].names == b[k].names
  }

  /** `kids` lists the children `cs` of a node headed like `a` with the statements of a block
      or of a case clause in any order, and nothing else moved. */
  ghost predicate Arranged(a: Node, kids: seq<Node>, cs: seq<Node>) {
    |kids| == |cs| == |Children(a)| &&
    match a
    case Block(_) => multiset(kids) == multiset(cs)
    case Case(labels, _) => kids[..|labels|] == cs[..|labels|] && multiset(kids[|labels|..]) == multiset(cs[|labels|..])
    case _ => kids == cs
  }

  /** `b` is `a` with the statements of any of its blocks and cases permuted, at any depth. */
  ghost predicate Reordered(a: Node, b: Node)
    decreases a
  {
    SameHead(a, b) &&
    exists kids: seq<Node> :: Arranged(a, kids, Children(b)) && |kids| == |Children(a)| &&
      forall k :: 0 <= k < |Children(a)| ==> (ChildSmaller(a, k); Reordered(Children(a)[k], kids[k]))
  }

  lemma ArrangedSame(a: Node, kids: seq<Node>, cs: seq<Node>)
    requires Arranged(a, kids, cs)
    ensures forall x :: x in kids <==> x in cs
  {
    if a.Block? {
      SameMembers(kids, cs);
    } else if a.Case? {
      var n := |a.labels|;
      SameMembers(kids[n..], cs[n..]);
      assert kids == kids[..n] + kids[n..] && cs == cs[..n] + cs[n..];
    }
  }

  lemma SameMembers(xs: seq<Node>, ys: seq<Node>)
    requires multiset(xs) == multiset(ys)
    ensures forall x :: x in xs <==> x in ys
  {
    forall x ensures x in xs <==> x in ys {
      assert x in multiset(xs) <==> x in multiset(ys);
    }
  }

  // The relation holds of what it should.

  lemma {:induction false} ReorderedItself(a: Node)
    ensures Reordered(a, a)
  {
    hide Children, Reordered;
    forall k | 0 <= k < |Children(a)| ensures (ChildSmaller(a, k); Reordered(Children(a)[k], Children(a)[k])) {
      ChildSmaller(a, k);
      ReorderedItself(Children(a)[k]);
    }
    HeadItself(a);
    ReorderedIntro(a, a, Children(a));
  }

  lemma HeadItself(a: Node)
    ensures SameHead(a, a) && Arranged(a, Children(a), Children(a))
  {
  }

  lemma ReorderedIntro(a: Node, b: Node, kids: seq<Node>)
    requires SameHead(a, b) && Arranged(a, kids, Children(b))
    requires forall k :: 0 <= k < |Children(a)| ==> Reordered(Children(a)[k], kids[k])
    ensures Reordered(a, b)
  {
    hide Children, SameHead, Arranged;
    ArrangedSizes(a, kids, Children(b));
  }

  /** Permuting the statements of one block is a reordering. */
  lemma PermutedBlock(a: seq<Node>, b: seq<Node>)
    requires multiset(a) == multiset(b)
    ensures Reordered(Block(a), Block(b))
  {
    assert |multiset(a)| == |multiset(b)|;
    forall k | 0 <= k < |a| ensures Reordered(a[k], a[k]) {
      ReorderedItself(a[k]);
    }
    ReorderedIntro(Block(a), Block(b), a);
  }

  // Reordered trees have corresponding nodes.

  lemma {:induction false} ReorderedHas(a: Node, b: Node, x: Node)
    requires Reordered(a, b) && Within(x, a)
    ensures exists y :: Within(y, b) && Reordered(x, y)
    decreases a
  {
    hide Children, SameHead, Arranged;
    if x == a {
      assert Within(b, b);
    } else {
      var kids :| Arranged(a, kids, Children(b)) && |kids| == |Children(a)| &&
                  forall k :: 0 <= k < |Children(a)| ==> (ChildSmaller(a, k); Reordered(Children(a)[k], kids[k]));
      var k :| 0 <= k < |Children(a)| && (ChildSmaller(a, k); Within(x, Children(a)[k]));
      ChildSmaller(a, k);
      ArrangedSizes(a, kids, Children(b));
      ReorderedHas(Children(a)[k], kids[k], x);
      var y :| Within(y, kids[k]) && Reordered(x, y);
      ArrangedSame(a, kids, Children(b));
      assert kids[k] in Children(b);
      WithinChild(y, kids[k], b);
    }
  }

  lemma {:induction false} ReorderedFrom(a: Node, b: Node, y: Node)
    requires Reordered(a, b) && Within(y, b)
    ensures exists x :: Within(x, a) && Reordered(x, y)
    decreases a
  {
    hide Children, SameHead, Arranged;
    if y == b {
      assert Within(a, a);
    } else {
      var kids :| Arranged(a, kids, Children(b)) && |kids| == |Children(a)| &&
                  forall k :: 0 <= k < |Children(a)| ==> (ChildSmaller(a, k); Reordered(Children(a)[k], kids[k]));
      var j :| 0 <= j < |Children(b)| && (ChildSmaller(b, j); Within(y, Children(b)[j]));
      ArrangedSizes(a, kids, Children(b));
      ArrangedSame(a, kids, Children(b));
      assert Children(b)[j] in kids;
      var k :| 0 <= k < |kids| && kids[k] == Children(b)[j];
      ChildSmaller(a, k);
      ReorderedFrom(Children(a)[k], kids[k], y);
      var x :| Within(x, Children(a)[k]) && Reordered(x, y);
      WithinChild(x, Children(a)[k], a);
    }
  }

  lemma ArrangedSizes(a: Node, kids: seq<Node>, cs: seq<Node>)
    requires Arranged(a, kids, cs)
    ensures |kids| == |cs| == |Children(a)|
  {
  }

  lemma WithinChild(y: Node, c: Node, b: Node)
    requires c in Children(b) && Within(y, c)
    ensures Within(y, b)
  {
    hide Children;
    var j :| 0 <= j < |Children(b)| && Children(b)[j] == c;
    ChildSmaller(b, j);
  }

  // Corresponding nodes have the same effects, but for line numbers.

  function Bare(e: Effect): Effect {
    match e
    case Bind(_, _) => e
    case Page(m, op, _) => Page(m, op, 0)
  }

  function Bares(es: seq<Effect>): seq<Effect> {
    if es == [] then [] else Bares(es[..|es| - 1]) + [Bare(es[|es| - 1])]
  }

  lemma {:induction false} BaresAppend(x: seq<Effect>, y: seq<Effect>)
    ensures Bares(x + y) == Bares(x) + Bares(y)
  {
    if y == [] {
      assert x + y == x;
    } else {
      assert (x + y)[..|x + y| - 1] == x + y[..|y| - 1];
      BaresAppend(x, y[..|y| - 1]);
    }
  }

  lemma HeadsAgree(a: Node, b: Node)
    requires Reordered(a, b)
    ensures SameHead(a, b)
  {
    hide Children, SameHead, Arranged;
  }

  lemma OthersFixed(a: Node, kids: seq<Node>, cs: seq<Node>)
    requires Arranged(a, kids, cs) && !a.Block? && !a.Case?
    ensures kids == cs
  {
    hide Children;
  }

  /** The children of a node that holds no statement list correspond in place. */
  lemma ChildrenCorrespond(a: Node, b: Node)
    requires Reordered(a, b) && !a.Block? && !a.Case?
    ensures SameHead(a, b) && Corresponding(Children(a), Children(b))
  {
    hide Children, SameHead, Arranged;
    var kids :| Arranged(a, kids, Children(b)) && |kids| == |Children(a)| &&
                forall k :: 0 <= k < |Children(a)| ==> (ChildSmaller(a, k); Reordered(Children(a)[k], kids[k]));
    OthersFixed(a, kids, Children(b));
  }

  ghost predicate Corresponding(xs: seq<Node>, ys: seq<Node>) {
    |xs| == |ys| && forall k :: 0 <= k < |xs| ==> Reordered(xs[k], ys[k])
  }

  lemma SameIdent(a: Node, b: Node)
    requires Reordered(a, b)
    ensures a.Ident? <==> b.Ident?
    ensures a.Ident? ==> a.name == b.name
  {
    hide Reordered, Children, SameNames;
    HeadsAgree(a, b);
  }

  /** The first child of these nodes is their operand. */
  lemma FirstChild(a: Node, b: Node)
    requires Reordered(a, b) && (a.Selector? || a.Call? || a.Star?)
    ensures Children(a) != [] && Children(b) != [] && Reordered(Children(a)[0], Children(b)[0])
  {
    hide Reordered, SameHead;
    ChildrenCorrespond(a, b);
  }

  lemma SelectorHead(a: Node, b: Node)
    requires SameHead(a, b)
    ensures (a.Selector? <==> b.Selector?) && (a.Selector? ==> a.sel == b.sel)
    ensures (a.Call? <==> b.Call?) && (a.Star? <==> b.Star?)
  {
    hide Children, SameNames;
  }

  /** A callee or receiver of the form `x.sel` corresponds to one of the same names. */
  lemma SameSelector(a: Node, b: Node)
    requires Reordered(a, b)
    ensures a.Selector? <==> b.Selector?
    ensures a.Selector? ==> a.sel == b.sel && (a.x.Ident? <==> b.x.Ident?) && (a.x.Ident? ==> a.x.name == b.x.name)
  {
    hide Reordered, SameHead;
    HeadsAgree(a, b);
    SelectorHead(a, b);
    if a.Selector? {
      FirstChild(a, b);
      SameIdent(a.x, b.x);
    }
  }

  lemma SameCallee(a: Node, b: Node)
    requires Reordered(a, b)
    ensures a.Call? <==> b.Call?
    ensures a.Call? ==> Reordered(a.fun, b.fun)
  {
    hide Reordered, SameHead;
    HeadsAgree(a, b);
    SelectorHead(a, b);
    if a.Call? {
      FirstChild(a, b);
    }
  }

  lemma SameProduce(ctx: Context, a: Node, b: Node)
    requires Reordered(a, b)
    ensures var p, q := Classify(ctx, a), Classify(ctx, b);
            p.modules == q.modules && p.pageModule == q.pageModule && p.pageOp == q.pageOp
  {
    hide Reordered, PaginatorOp;
    SameCallee(a, b);
    if a.Call? {
      SameSelector(a.fun, b.fun);
      SameIdent(a.fun, b.fun);
    }
  }

  lemma {:induction false} SameBinds(xs: seq<Node>, ys: seq<Node>, modules: seq<string>)
    requires Corresponding(xs, ys)
    ensures Binds(xs, modules) == Binds(ys, modules)
  {
    hide Reordered;
    if xs != [] {
      var i := |xs| - 1;
      SameIdent(xs[i], ys[i]);
      SameBinds(xs[..i], ys[..i], modules);
    }
  }

  lemma SameSingle(ctx: Context, l: Node, r: Node, m: Node, s: Node)
    requires Reordered(l, m) && Reordered(r, s)
    ensures Bares(Single(ctx, l, r)) == Bares(Single(ctx, m, s))
  {
    hide Reordered, Classify, Binds;
    SameProduce(ctx, r, s);
    SameBinds([l], [m], Classify(ctx, r).modules[..if |Classify(ctx, r).modules| == 0 then 0 else 1]);
    BaresOfPage(Classify(ctx, r));
    BaresOfPage(Classify(ctx, s));
  }

  lemma BaresOfPage(p: Produce)
    ensures Bares([Page(p.pageModule, p.pageOp, p.line)]) == [Page(p.pageModule, p.pageOp, 0)]
  {
    assert [Page(p.pageModule, p.pageOp, p.line)][..0] == [];
  }

  lemma {:induction false} SamePairwise(ctx: Context, lhs: seq<Node>, rhs: seq<Node>, lhs2: seq<Node>, rhs2: seq<Node>)
    requires |lhs| == |rhs| && Corresponding(lhs, lhs2) && Corresponding(rhs, rhs2)
    ensures Bares(Pairwise(ctx, lhs, rhs)) == Bares(Pairwise(ctx, lhs2, rhs2))
  {
    hide Reordered, Single;
    if lhs != [] {
      var i := |lhs| - 1;
      SamePairwise(ctx, lhs[..i], rhs[..i], lhs2[..i], rhs2[..i]);
      SameSingle(ctx, lhs[i], rhs[i], lhs2[i], rhs2[i]);
      BaresAppend(Pairwise(ctx, lhs[..i], rhs[..i]), Single(ctx, lhs[i], rhs[i]));
      BaresAppend(Pairwise(ctx, lhs2[..i], rhs2[..i]), Single(ctx, lhs2[i], rhs2[i]));
    }
  }

  lemma SameAssign(ctx: Context, lhs: seq<Node>, rhs: seq<Node>, lhs2: seq<Node>, rhs2: seq<Node>)
    requires Corresponding(lhs, lhs2) && Corresponding(rhs, rhs2)
    ensures Bares(AssignEffects(ctx, lhs, rhs)) == Bares(AssignEffects(ctx, lhs2, rhs2))
  {
    hide Reordered, Classify, Binds, Pairwise;
    if |rhs| == 1 && |lhs| > 1 {
      SameProduce(ctx, rhs[0], rhs2[0]);
      BaresOfPage(Classify(ctx, rhs[0]));
      BaresOfPage(Classify(ctx, rhs2[0]));
      SameBinds(lhs, lhs2, Classify(ctx, rhs[0]).modules);
    } else if |lhs| == |rhs| {
      SamePairwise(ctx, lhs, rhs, lhs2, rhs2);
    }
  }

  lemma SameClientModule(a: Node, b: Node, imports: map<string, string>)
    requires Reordered(a, b)
    ensures ClientModule(a, imports) == ClientModule(b, imports)
  {
    hide Reordered, SameHead, Lookup;
    HeadsAgree(a, b);
    SelectorHead(a, b);
    if a.Star? {
      FirstChild(a, b);
      SameSelector(a.inner, b.inner);
    }
  }

  lemma {:induction false} SameParamBinds(a: seq<Field>, b: seq<Field>, imports: map<string, string>)
    requires SameNames(a, b) && Corresponding(Types(a), Types(b))
    ensures ParamBinds(a, imports) == ParamBinds(b, imports)
  {
    hide Reordered, ClientModule, NameBinds;
    if a != [] {
      var i := |a| - 1;
      assert Types(a[..i]) == Types(a)[..i] && Types(b[..i]) == Types(b)[..i];
      SameParamBinds(a[..i], b[..i], imports);
      SameClientModule(Types(a)[i], Types(b)[i], imports);
    }
  }

  lemma SameEffects(ctx: Context, a: Node, b: Node)
    requires Reordered(a, b)
    ensures Bares(Effects(ctx, a)) == Bares(Effects(ctx, b))
  {
    hide Reordered, AssignEffects, ParamBinds, Bares;
    SameKind(a, b);
    if a.Assign? {
      AssignParts(a, b);
      SameAssign(ctx, a.lhs, a.rhs, b.lhs, b.rhs);
    } else if a.ValueSpec? {
      SpecParts(a, b);
      SameAssign(ctx, Idents(a.names), a.values, Idents(b.names), b.values);
    } else if a.FuncLit? {
      ParamParts(a, b);
      SameParamBinds(a.params, b.params, ctx.imports);
    }
  }

  lemma SameKind(a: Node, b: Node)
    requires Reordered(a, b)
    ensures (a.Assign? <==> b.Assign?) && (a.ValueSpec? <==> b.ValueSpec?) && (a.FuncLit? <==> b.FuncLit?)
  {
    hide Reordered, SameHead;
    HeadsAgree(a, b);
    KindOf(a, b);
  }

  lemma KindOf(a: Node, b: Node)
    requires SameHead(a, b)
    ensures (a.Assign? <==> b.Assign?) && (a.ValueSpec? <==> b.ValueSpec?) && (a.FuncLit? <==> b.FuncLit?)
    ensures a.Assign? ==> |a.lhs| == |b.lhs|
    ensures a.ValueSpec? ==> a.names == b.names && |a.typ| == |b.typ|
  {
    hide Children, SameNames;
  }

  lemma AssignParts(a: Node, b: Node)
    requires Reordered(a, b) && a.Assign?
    ensures b.Assign? && Corresponding(a.lhs, b.lhs) && Corresponding(a.rhs, b.rhs)
  {
    hide Reordered, SameHead, Corresponding;
    ChildrenCorrespond(a, b);
    KindOf(a, b);
    Parts(a.lhs, a.rhs, b.lhs, b.rhs);
  }

  lemma SpecParts(a: Node, b: Node)
    requires Reordered(a, b) && a.ValueSpec?
    ensures b.ValueSpec? && Corresponding(Idents(a.names), Idents(b.names)) && Corresponding(a.values, b.values)
  {
    hide Reordered, SameHead;
    ChildrenCorrespond(a, b);
    KindOf(a, b);
    Parts(a.typ, a.values, b.typ, b.values);
    forall k | 0 <= k < |a.names| ensures Reordered(Idents(a.names)[k], Idents(b.names)[k]) {
      ReorderedItself(Ident(a.names[k]));
    }
  }

  lemma ParamParts(a: Node, b: Node)
    requires Reordered(a, b) && a.FuncLit?
    ensures b.FuncLit? && SameNames(a.params, b.params) && Corresponding(Types(a.params), Types(b.params))
  {
    hide Reordered, Children, Types, SameNames, SameHead, Corresponding;
    ChildrenCorrespond(a, b);
    KindOf(a, b);
    LitParts(a, b);
  }

  lemma LitChildren(a: Node)
    requires a.FuncLit?
    ensures Children(a) == Types(a.params) + (Types(a.results) + [a.fbody])
  {
  }

  lemma LitParts(a: Node, b: Node)
    requires a.FuncLit? && b.FuncLit? && SameHead(a, b) && Corresponding(Children(a), Children(b))
    ensures SameNames(a.params, b.params) && Corresponding(Types(a.params), Types(b.params))
  {
    hide Reordered, Children, Types, Corresponding, SameNames;
    LitChildren(a);
    LitChildren(b);
    assert SameNames(a.params, b.params);
    assert |a.params| == |b.params| by { SameSizes(a.params, b.params); }
    Parts(Types(a.params), Types(a.results) + [a.fbody], Types(b.params), Types(b.results) + [b.fbody]);
  }

  lemma SameSizes(a: seq<Field>, b: seq<Field>)
    requires SameNames(a, b)
    ensures |a| == |b|
  {
  }

  lemma Parts(x: seq<Node>, y: seq<Node>, x2: seq<Node>, y2: seq<Node>)
    requires |x| == |x2| && Corresponding(x + y, x2 + y2)
    ensures Corresponding(x, x2) && Corresponding(y, y2)
  {
    hide Reordered;
    forall k | 0 <= k < |x| ensures Reordered(x[k], x2[k]) {
      assert (x + y)[k] == x[k] && (x2 + y2)[k] == x2[k];
    }
    forall k | 0 <= k < |y| ensures Reordered(y[k], y2[k]) {
      assert (x + y)[|x| + k] == y[k] && (x2 + y2)[|x| + k] == y2[k];
    }
  }

  // The credited operations.

  lemma {:induction false} BaresHas(es: seq<Effect>)
    ensures forall e :: e in es ==> Bare(e) in Bares(es)
    ensures forall x :: x in Bares(es) ==> exists e :: e in es && Bare(e) == x
  {
    if es != [] {
      BaresHas(es[..|es| - 1]);
      assert es == es[..|es| - 1] + [es[|es| - 1]];
    }
  }

  /** Every effect found in `a` is found, but for its line, in `b`. */
  ghost predicate Covers(xs: seq<Effect>, ys: seq<Effect>) {
    forall e :: e in xs ==> exists d :: d in ys && Bare(d) == Bare(e)
  }

  lemma NodeCovered(ctx: Context, x: Node, y: Node, e: Effect)
    requires Bares(Effects(ctx, x)) == Bares(Effects(ctx, y)) && e in Effects(ctx, x)
    ensures exists d :: d in Effects(ctx, y) && Bare(d) == Bare(e)
  {
    hide Bares, Effects, Bare;
    BaresHas(Effects(ctx, x));
    BaresHas(Effects(ctx, y));
  }

  lemma SameEffectsFound(ctx: Context, a: Node, b: Node)
    requires Reordered(a, b)
    ensures Covers(EffectsOf(ctx, Preorder(a)), EffectsOf(ctx, Preorder(b)))
    ensures Covers(EffectsOf(ctx, Preorder(b)), EffectsOf(ctx, Preorder(a)))
  {
    hide Effects, EffectsOf, Bares, Bare, Reordered, Preorder, Within;
    forall e | e in EffectsOf(ctx, Preorder(a)) ensures exists d :: d in EffectsOf(ctx, Preorder(b)) && Bare(d) == Bare(e) {
      EffectsOfHas(ctx, Preorder(a), e);
      var x :| x in Preorder(a) && e in Effects(ctx, x);
      PreorderHolds(x, a);
      ReorderedHas(a, b, x);
      var y :| Within(y, b) && Reordered(x, y);
      PreorderHolds(y, b);
      SameEffects(ctx, x, y);
      NodeCovered(ctx, x, y, e);
      var d :| d in Effects(ctx, y) && Bare(d) == Bare(e);
      EffectsOfHas(ctx, Preorder(b), d);
    }
    forall e | e in EffectsOf(ctx, Preorder(b)) ensures exists d :: d in EffectsOf(ctx, Preorder(a)) && Bare(d) == Bare(e) {
      EffectsOfHas(ctx, Preorder(b), e);
      var y :| y in Preorder(b) && e in Effects(ctx, y);
      PreorderHolds(y, b);
      ReorderedFrom(a, b, y);
      var x :| Within(x, a) && Reordered(x, y);
      PreorderHolds(x, a);
      SameEffects(ctx, x, y);
      NodeCovered(ctx, y, x, e);
      var d :| d in Effects(ctx, x) && Bare(d) == Bare(e);
      EffectsOfHas(ctx, Preorder(a), d);
    }
  }

  lemma SameBindingsFound(ctx: Context, params: seq<Field>, a: Node, b: Node)
    requires Reordered(a, b)
    ensures forall name, m :: Bind(name, m) in FunctionEffects(ctx, params, a) <==> Bind(name, m) in FunctionEffects(ctx, params, b)
  {
    hide EffectsOf, ParamBinds, Reordered, Preorder;
    SameEffectsFound(ctx, a, b);
    forall name, m ensures Bind(name, m) in EffectsOf(ctx, Preorder(a)) <==> Bind(name, m) in EffectsOf(ctx, Preorder(b)) {
      BareBind(name, m);
    }
  }

  lemma BareBind(name: string, m: string)
    ensures forall d :: Bare(d) == Bare(Bind(name, m)) <==> d == Bind(name, m)
  {
  }

  ghost predicate SameEntry(t: map<string, string>, u: map<string, string>, name: string) {
    (name in t <==> name in u) && (name in t ==> t[name] == u[name])
  }

  /** The tables agree on every identifier the tree calls through. */
  ghost predicate Agree(t: map<string, string>, u: map<string, string>, root: Node) {
    forall n :: Within(n, root) && CallsByName(n) ==> SameEntry(t, u, n.fun.x.name)
  }

  /** A reordered body yields the same entry for an identifier bound to one module. */
  lemma SameTableEntry(ctx: Context, params: seq<Field>, a: Node, b: Node, name: string)
    requires Reordered(a, b) && OneModule(FunctionEffects(ctx, params, a), name)
    ensures SameEntry(Table(ctx, EntryParams(ctx, params), a), Table(ctx, EntryParams(ctx, params), b), name)
  {
    hide Table, FunctionEffects, Reordered;
    SameBindingsFound(ctx, params, a, b);
    TableIsSomeBinding(ctx, params, a);
    TableIsSomeBinding(ctx, params, b);
    var t, u := Table(ctx, EntryParams(ctx, params), a), Table(ctx, EntryParams(ctx, params), b);
    if name in t { assert Bind(name, t[name]) in FunctionEffects(ctx, params, b); }
    if name in u { assert Bind(name, u[name]) in FunctionEffects(ctx, params, a); }
  }

  lemma SameTables(ctx: Context, params: seq<Field>, a: Node, b: Node)
    requires Reordered(a, b) && CalledConsistent(ctx, params, a)
    ensures Agree(Table(ctx, EntryParams(ctx, params), a), Table(ctx, EntryParams(ctx, params), b), a)
  {
    hide Table, FunctionEffects, Reordered, Within, IsAlnumName, SameEntry, OneModule;
    forall n | Within(n, a) && CallsByName(n)
      ensures SameEntry(Table(ctx, EntryParams(ctx, params), a), Table(ctx, EntryParams(ctx, params), b), n.fun.x.name)
    {
      SameTableEntry(ctx, params, a, b, n.fun.x.name);
    }
  }

  ghost predicate Credited(cs: seq<Credit>, m: string, op: string) {
    exists c :: c in cs && c.m == m && c.op == op
  }

  lemma SameCallCredit(ctx: Context, t: map<string, string>, u: map<string, string>, x: Node, y: Node)
    requires Reordered(x, y) && (CallsByName(x) ==> SameEntry(t, u, x.fun.x.name))
    ensures forall m, op :: Credited(CallCredit(ctx, t, x), m, op) <==> Credited(CallCredit(ctx, u, y), m, op)
  {
    hide Reordered, IsAlnumName;
    SameCallee(x, y);
    if x.Call? {
      SameSelector(x.fun, y.fun);
    }
    CallCreditIs(ctx, t, x);
    CallCreditIs(ctx, u, y);
  }

  lemma CallCreditIs(ctx: Context, t: map<string, string>, n: Node)
    ensures forall m, op :: Credited(CallCredit(ctx, t, n), m, op) <==>
      CallsByName(n) && n.fun.x.name in t && m == t[n.fun.x.name] && op == n.fun.sel
  {
    hide IsAlnumName, CallCredit;
    CallCreditExact(ctx, t, n);
    forall m, op ensures Credited(CallCredit(ctx, t, n), m, op) <==>
      CallsByName(n) && n.fun.x.name in t && m == t[n.fun.x.name] && op == n.fun.sel
    {
      if CallCredit(ctx, t, n) != [] {
        assert CallCredit(ctx, t, n)[0] in CallCredit(ctx, t, n);
      }
    }
  }

  lemma CallsCreditedAfter(ctx: Context, t: map<string, string>, u: map<string, string>, a: Node, b: Node, m: string, op: string)
    requires Reordered(a, b) && Agree(t, u, a) && Credited(CallCredits(ctx, t, Preorder(a)), m, op)
    ensures Credited(CallCredits(ctx, u, Preorder(b)), m, op)
  {
    hide CallCredit, CallCredits, Reordered, Preorder, Within, SameEntry, IsAlnumName;
    var c :| c in CallCredits(ctx, t, Preorder(a)) && c.m == m && c.op == op;
    CallCreditsHas(ctx, t, Preorder(a), c);
    var x :| x in Preorder(a) && c in CallCredit(ctx, t, x);
    PreorderHolds(x, a);
    ReorderedHas(a, b, x);
    var y :| Within(y, b) && Reordered(x, y);
    PreorderHolds(y, b);
    SameCallCredit(ctx, t, u, x, y);
    assert Credited(CallCredit(ctx, u, y), m, op);
    var d :| d in CallCredit(ctx, u, y) && d.m == m && d.op == op;
    CallCreditsHas(ctx, u, Preorder(b), d);
  }

  lemma CallsCreditedBefore(ctx: Context, t: map<string, string>, u: map<string, string>, a: Node, b: Node, m: string, op: string)
    requires Reordered(a, b) && Agree(t, u, a) && Credited(CallCredits(ctx, u, Preorder(b)), m, op)
    ensures Credited(CallCredits(ctx, t, Preorder(a)), m, op)
  {
    hide CallCredit, CallCredits, Reordered, Preorder, Within, SameEntry, IsAlnumName;
    var c :| c in CallCredits(ctx, u, Preorder(b)) && c.m == m && c.op == op;
    CallCreditsHas(ctx, u, Preorder(b), c);
    var y :| y in Preorder(b) && c in CallCredit(ctx, u, y);
    PreorderHolds(y, b);
    ReorderedFrom(a, b, y);
    var x :| Within(x, a) && Reordered(x, y);
    PreorderHolds(x, a);
    SameCallCredit(ctx, t, u, x, y);
    assert Credited(CallCredit(ctx, t, x), m, op);
    var d :| d in CallCredit(ctx, t, x) && d.m == m && d.op == op;
    CallCreditsHas(ctx, t, Preorder(a), d);
  }

  lemma SameCallsCredited(ctx: Context, t: map<string, string>, u: map<string, string>, a: Node, b: Node, m: string, op: string)
    requires Reordered(a, b) && Agree(t, u, a)
    ensures Credited(CallCredits(ctx, t, Preorder(a)), m, op) <==> Credited(CallCredits(ctx, u, Preorder(b)), m, op)
  {
    hide Credited, CallCredits, Reordered, Preorder, Agree;
    if Credited(CallCredits(ctx, t, Preorder(a)), m, op) {
      CallsCreditedAfter(ctx, t, u, a, b, m, op);
    }
    if Credited(CallCredits(ctx, u, Preorder(b)), m, op) {
      CallsCreditedBefore(ctx, t, u, a, b, m, op);
    }
  }

  lemma {:induction false} PagesCredit(ctx: Context, es: seq<Effect>, m: string, op: string)
    ensures Credited(Pages(ctx, es), m, op) <==> exists e :: e in es && Bare(e) == Page(m, op, 0)
  {
    if es != [] {
      var i := |es| - 1;
      PagesCredit(ctx, es[..i], m, op);
      assert es == es[..i] + [es[i]];
      var more: seq<Credit> := if es[i].Page? then [Credit(es[i].m, es[i].op, Evidence(ctx.file, es[i].line))] else [];
      assert Pages(ctx, es) == Pages(ctx, es[..i]) + more;
      CreditedParts(Pages(ctx, es[..i]), more, m, op);
      if es[i].Page? { assert more[0] in more; }
      assert Credited(more, m, op) <==> Bare(es[i]) == Page(m, op, 0);
    }
  }

  /** Which operations are credited, and so which are covered, does not depend on the order
      of the statements of any block or case. */
  lemma CreditsIgnoreStatementOrder(ctx: Context, params: seq<Field>, a: Node, b: Node, idx: Index)
    requires Reordered(a, b) && CalledConsistent(ctx, params, a)
    ensures var x, y := CreditsOf(ctx, EntryParams(ctx, params), a), CreditsOf(ctx, EntryParams(ctx, params), b);
            (forall m, op :: Credited(x, m, op) <==> Credited(y, m, op)) &&
            forall svc, op :: op in Ops(RecordAll(EMPTY, idx, x).covered, svc) <==> op in Ops(RecordAll(EMPTY, idx, y).covered, svc)
  {
    hide EffectsOf, Pages, Reordered, Preorder, CallCredits, Table, CalledConsistent, RecordAll, Ops, Agree, Bare;
    var x, y := CreditsOf(ctx, EntryParams(ctx, params), a), CreditsOf(ctx, EntryParams(ctx, params), b);
    var t, u := Table(ctx, EntryParams(ctx, params), a), Table(ctx, EntryParams(ctx, params), b);
    SameTables(ctx, params, a, b);
    SameEffectsFound(ctx, a, b);
    forall m, op ensures Credited(x, m, op) <==> Credited(y, m, op) {
      PagesCredit(ctx, EffectsOf(ctx, Preorder(a)), m, op);
      PagesCredit(ctx, EffectsOf(ctx, Preorder(b)), m, op);
      SameCallsCredited(ctx, t, u, a, b, m, op);
      CreditedParts(Pages(ctx, EffectsOf(ctx, Preorder(a))), CallCredits(ctx, t, Preorder(a)), m, op);
      CreditedParts(Pages(ctx, EffectsOf(ctx, Preorder(b))), CallCredits(ctx, u, Preorder(b)), m, op);
    }
    SameCoverage(idx, x, y);
  }

  lemma CreditedParts(x: seq<Credit>, y: seq<Credit>, m: string, op: string)
    ensures Credited(x + y, m, op) <==> Credited(x, m, op) || Credited(y, m, op)
  {
    if Credited(x, m, op) {
      var c :| c in x && c.m == m && c.op == op;
      assert c in x + y;
    }
    if Credited(y, m, op) {
      var c :| c in y && c.m == m && c.op == op;
      assert c in x + y;
    }
  }

  lemma SameCoverage(idx: Index, x: seq<Credit>, y: seq<Credit>)
    requires forall m, op :: Credited(x, m, op) <==> Credited(y, m, op)
    ensures forall svc, op :: op in Ops(RecordAll(EMPTY, idx, x).covered, svc) <==> op in Ops(RecordAll(EMPTY, idx, y).covered, svc)
  {
    hide RecordAll, Ops;
    forall c | c in x ensures exists d :: d in y && d.m == c.m && d.op == c.op { assert Credited(x, c.m, c.op); }
    forall c | c in y ensures exists d :: d in x && d.m == c.m && d.op == c.op { assert Credited(y, c.m, c.op); }
    forall svc, op | op in Ops(RecordAll(EMPTY, idx, x).covered, svc) ensures op in Ops(RecordAll(EMPTY, idx, y).covered, svc) {
      MoreCreditsCoverMore(idx, x, y, svc, op);
    }
    forall svc, op | op in Ops(RecordAll(EMPTY, idx, y).covered, svc) ensures op in Ops(RecordAll(EMPTY, idx, x).covered, svc) {
      MoreCreditsCoverMore(idx, y, x, svc, op);
    }
  }
}
