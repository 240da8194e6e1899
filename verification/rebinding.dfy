/** Why the walk's guarantee needs one module per identifier: a variable that first holds one
    client and later another loses its first client's calls. */
module Rebinding {
  import opened Wrappers
  import opened GoSyntax
  import opened ClientCoverage
  import opened CoverageWalk
  import opened CoverageEvidence
  import opened ScopedWalk

  function New(pkg: string): Node {
    Call(Selector(Ident(pkg), "NewFromConfig", 1), [], 1)
  }

  function Ask(v: string, op: string): Node {
    Call(Selector(Ident(v), op, 2), [], 2)
  }

  /** `v := p.NewFromConfig(); v.op(); v = q.NewFromConfig()` */
  function Body(v: string, p: string, q: string, op: string): Node {
    Block([Assign(true, [Ident(v)], [New(p)]), Ask(v, op), Assign(false, [Ident(v)], [New(q)])])
  }

  lemma PreorderOfCall(x: string, sel: string, line: int)
    ensures var c := Call(Selector(Ident(x), sel, line), [], line);
            Preorder(c) == [c, c.fun, Ident(x)]
  {
    var i := Ident(x);
    var s := Selector(i, sel, line);
    var c := Call(s, [], line);
    assert Children(i) == [] && Children(s) == [i] && Children(c) == [s];
    assert PreorderFrom(i, 0) == [] && Preorder(i) == [i];
    assert PreorderFrom(s, 1) == [] && PreorderFrom(s, 0) == [i] && Preorder(s) == [s, i];
    assert PreorderFrom(c, 1) == [] && PreorderFrom(c, 0) == [s, i];
  }

  lemma TwoChildren(n: Node, x: Node, y: Node)
    requires Children(n) == [x, y]
    ensures PreorderFrom(n, 0) == Preorder(x) + Preorder(y)
  {
    hide Preorder, Children;
    assert PreorderFrom(n, 2) == [];
    assert PreorderFrom(n, 1) == Preorder(y) + [] == Preorder(y);
  }

  lemma ThreeChildren(n: Node, x: Node, y: Node, z: Node)
    requires Children(n) == [x, y, z]
    ensures PreorderFrom(n, 0) == Preorder(x) + Preorder(y) + Preorder(z)
  {
    hide Preorder, Children;
    assert PreorderFrom(n, 3) == [];
    assert PreorderFrom(n, 2) == Preorder(z) + [] == Preorder(z);
    assert PreorderFrom(n, 1) == Preorder(y) + Preorder(z);
  }

  lemma HeadThenRest(n: Node)
    ensures Preorder(n) == [n] + PreorderFrom(n, 0)
  {
    hide PreorderFrom, Children;
  }

  lemma PreorderOfIdent(x: string)
    ensures Preorder(Ident(x)) == [Ident(x)]
  {
    assert PreorderFrom(Ident(x), 0) == [];
  }

  lemma PreorderOfAssign(define: bool, v: string, rhs: Node)
    ensures var a := Assign(define, [Ident(v)], [rhs]);
            Preorder(a) == [a, Ident(v)] + Preorder(rhs)
  {
    hide PreorderFrom, Preorder;
    var a := Assign(define, [Ident(v)], [rhs]);
    HeadThenRest(a);
    PreorderOfIdent(v);
    TwoChildren(a, Ident(v), rhs);
  }

  lemma PreorderOfThree(a: Node, b: Node, c: Node)
    ensures Preorder(Block([a, b, c])) == [Block([a, b, c])] + Preorder(a) + Preorder(b) + Preorder(c)
  {
    hide PreorderFrom, Preorder;
    var n := Block([a, b, c]);
    HeadThenRest(n);
    ThreeChildren(n, a, b, c);
  }

  // The flat walk.

  lemma {:induction false} PlainNodes(ctx: Context, ns: seq<Node>)
    requires forall k :: 0 <= k < |ns| ==> !ns[k].Assign? && !ns[k].ValueSpec? && !ns[k].FuncLit?
    ensures EffectsOf(ctx, ns) == []
  {
    if ns != [] {
      PlainNodes(ctx, ns[..|ns| - 1]);
    }
  }

  lemma AssignBinds(ctx: Context, define: bool, v: string, pkg: string)
    requires pkg in ctx.imports && ctx.imports[pkg] != "" && v != "_"
    ensures Effects(ctx, Assign(define, [Ident(v)], [New(pkg)])) == [Bind(v, ctx.imports[pkg])]
  {
    PairwiseOfOne(ctx, Ident(v), New(pkg));
    assert Classify(ctx, New(pkg)).modules == [ctx.imports[pkg]];
    var m := ctx.imports[pkg];
    assert [Ident(v)][..0] == [] && [m][..1] == [m];
    assert Binds([Ident(v)], [m]) == [] + [Bind(v, m)] == [Bind(v, m)];
  }

  lemma AssignEffectsFound(ctx: Context, define: bool, v: string, pkg: string)
    requires pkg in ctx.imports && ctx.imports[pkg] != "" && v != "_"
    ensures EffectsOf(ctx, Preorder(Assign(define, [Ident(v)], [New(pkg)]))) == [Bind(v, ctx.imports[pkg])]
  {
    hide Effects, Preorder, EffectsOf;
    var a := Assign(define, [Ident(v)], [New(pkg)]);
    PreorderOfAssign(define, v, New(pkg));
    PreorderOfCall(pkg, "NewFromConfig", 1);
    var rest := [Ident(v)] + Preorder(New(pkg));
    assert Preorder(a) == [a] + rest;
    EffectsAppend(ctx, [a], rest);
    EffectsOfOne(ctx, a);
    PlainNodes(ctx, rest);
    AssignBinds(ctx, define, v, pkg);
  }

  lemma BodyEffects(ctx: Context, v: string, p: string, q: string, op: string)
    requires p in ctx.imports && q in ctx.imports && ctx.imports[p] != "" && ctx.imports[q] != "" && v != "_"
    ensures EffectsOf(ctx, Preorder(Body(v, p, q, op))) == [Bind(v, ctx.imports[p]), Bind(v, ctx.imports[q])]
  {
    hide Preorder, EffectsOf;
    var a, b, c := Assign(true, [Ident(v)], [New(p)]), Ask(v, op), Assign(false, [Ident(v)], [New(q)]);
    var n := Body(v, p, q, op);
    PreorderOfThree(a, b, c);
    PreorderOfCall(v, op, 2);
    EffectsAppend(ctx, [n] + Preorder(a) + Preorder(b), Preorder(c));
    EffectsAppend(ctx, [n] + Preorder(a), Preorder(b));
    EffectsAppend(ctx, [n], Preorder(a));
    PlainNodes(ctx, [n]);
    PlainNodes(ctx, Preorder(b));
    AssignEffectsFound(ctx, true, v, p);
    AssignEffectsFound(ctx, false, v, q);
  }

  lemma FlatCreditsSecond(ctx: Context, v: string, p: string, q: string, op: string, c: Credit)
    requires p in ctx.imports && q in ctx.imports && ctx.imports[p] != "" && ctx.imports[q] != "" && v != "_"
    requires c in CreditsOf(ctx, EntryParams(ctx, []), Body(v, p, q, op))
    ensures c.m == ctx.imports[q]
  {
    hide Preorder, EffectsOf, CallCredits, Binds, AssignEffects, Effects, Body;
    var body := Body(v, p, q, op);
    var es := [Bind(v, ctx.imports[p]), Bind(v, ctx.imports[q])];
    BodyEffects(ctx, v, p, q, op);
    BindsCreditNothing(ctx, es);
    var t := Table(ctx, EntryParams(ctx, []), body);
    assert EntryParams(ctx, []) == map[];
    BoundSnoc(map[], [Bind(v, ctx.imports[p])], v, ctx.imports[q]);
    BoundSnoc(map[], [], v, ctx.imports[p]);
    assert [] + [Bind(v, ctx.imports[p])] == [Bind(v, ctx.imports[p])];
    assert [Bind(v, ctx.imports[p])] + [Bind(v, ctx.imports[q])] == es;
    assert t == map[v := ctx.imports[q]];
    CallCreditsHas(ctx, t, Preorder(body), c);
  }

  // The scoped walk.

  lemma WalkOfCall(ctx: Context, env: Scopes, x: string, sel: string, line: int)
    requires env != []
    ensures var c := Call(Selector(Ident(x), sel, line), [], line);
            Walk(ctx, env, c).env == env && (forall d :: d in NodeCall(ctx, env, c) ==> d in Walk(ctx, env, c).found)
  {
    hide NodeCall, NodePages;
    var i := Ident(x);
    var s := Selector(i, sel, line);
    var c := Call(s, [], line);
    assert Children(i) == [] && Children(s) == [i] && Children(c) == [s];
    assert WalkFrom(ctx, env, i, 0).env == env && Walk(ctx, env, i).env == env;
    assert WalkFrom(ctx, env, s, 1).env == env && WalkFrom(ctx, env, s, 0).env == env && Walk(ctx, env, s).env == env;
    assert WalkFrom(ctx, env, c, 1).env == env && WalkFrom(ctx, env, c, 0).env == env;
  }

  lemma WalkOfNew(ctx: Context, v: string, p: string)
    requires p in ctx.imports && v != "_"
    ensures Walk(ctx, [map[], map[]], Assign(true, [Ident(v)], [New(p)])).env == [map[], map[v := ctx.imports[p]]]
  {
    hide NodeCall, NodePages;
    var env: Scopes := [map[], map[]];
    var i := Ident(v);
    var a := Assign(true, [i], [New(p)]);
    assert Children(i) == [] && Children(a) == [i, New(p)];
    assert WalkFrom(ctx, env, i, 0).env == env && Walk(ctx, env, i).env == env;
    WalkOfCall(ctx, env, p, "NewFromConfig", 1);
    assert WalkFrom(ctx, env, a, 2).env == env && WalkFrom(ctx, env, a, 1).env == env && WalkFrom(ctx, env, a, 0).env == env;
    assert env[..1] == [map[]] && env[..1][..0] == [] && p !in env[1];
    assert Find(env[..1], p) == None;
    assert Find(env, p) == Find(env[..1], p);
    assert Yields(ctx, New(p), 1, 0, ctx.imports[p]) && forall m :: Yields(ctx, New(p), 1, 0, m) ==> m == ctx.imports[p];
    assert ResultModule(ctx, env, New(p), 1, 0) == ctx.imports[p];
    assert Assigned(ctx, env, [i], [New(p)]) == [ctx.imports[p]];
    var m := ctx.imports[p];
    assert Store(env, true, i, m) == [map[], map[v := m]];
    assert [i][1..] == [] && [m][1..] == [];
    assert StoreAll([map[], map[v := m]], true, [], []) == [map[], map[v := m]];
    assert StoreAll(env, true, [i], [m]) == [map[], map[v := m]];
    assert env[..|env|] == env;
    assert AfterNode(ctx, env, a) == StoreAll(env, true, [i], [m]);
  }

  /** The call goes to the client of package `p`, and the scoped walk says so; the flat walk
      credits nothing to that module. */
  lemma RebindingLosesACall(ctx: Context, v: string, p: string, q: string, op: string)
    requires p in ctx.imports && q in ctx.imports && ctx.imports[p] != "" && ctx.imports[q] != ""
    requires ctx.imports[p] != ctx.imports[q] && v != "_" && IsAlnumName(op) && 'A' <= op[0] <= 'Z'
    ensures var c := Credit(ctx.imports[p], op, Evidence(ctx.file, 2));
            c in ScopedCredits(ctx, [], Body(v, p, q, op)) &&
            c !in CreditsOf(ctx, EntryParams(ctx, []), Body(v, p, q, op))
  {
    hide NodePages, CreditsOf, IsAlnumName, Walk, WalkFrom;
    var m := ctx.imports[p];
    var c := Credit(m, op, Evidence(ctx.file, 2));
    var body := Body(v, p, q, op);
    if c in CreditsOf(ctx, EntryParams(ctx, []), body) {
      FlatCreditsSecond(ctx, v, p, q, op, c);
      assert false;
    }
    WalkOfNew(ctx, v, p);
    var env: Scopes := [map[], map[v := m]];
    assert Find(env, v) == Some(m);
    WalkOfCall(ctx, env, v, op, 2);
    SecondOfBlock(ctx, Assign(true, [Ident(v)], [New(p)]), Ask(v, op), Assign(false, [Ident(v)], [New(q)]), ByCall(Ask(v, op), c));
    var found := ScopedFound(ctx, [], body);
    var k :| 0 <= k < |found| && found[k] == ByCall(Ask(v, op), c);
    assert ScopedCredits(ctx, [], body)[k] == c;
  }

  lemma SecondOfBlock(ctx: Context, x: Node, y: Node, z: Node, c: Found)
    requires c in Walk(ctx, Walk(ctx, [map[], map[]], x).env, y).found
    ensures c in Walk(ctx, [map[]], Block([x, y, z])).found
  {
    hide NodePages, NodeCall, AfterNode;
    var n := Block([x, y, z]);
    var env: Scopes := [map[], map[]];
    assert Children(n) == [x, y, z] && [map[]] + [OpenScope(ctx, n)] == env;
    assert c in WalkFrom(ctx, Walk(ctx, env, x).env, n, 1).found;
    assert c in WalkFrom(ctx, env, n, 0).found;
  }
}
