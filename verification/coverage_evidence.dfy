/** What the walk of cmd/clientcoverage takes for evidence, said of the syntax alone: which
    right-hand sides and parameters give an identifier a client, and which construct a
    paginator. The walk finds exactly that. */
module CoverageEvidence {
  import opened Wrappers
  import opened GoSyntax
  import opened ClientCoverage
  import opened CoverageWalk

  // The evidence.

  /** `name.Op(...)`: an exported method called on a bare identifier. */
  predicate CallsByName(n: Node) {
    n.Call? && n.fun.Selector? && n.fun.x.Ident? && IsAlnumName(n.fun.sel) && 'A' <= n.fun.sel[0] <= 'Z'
  }

  /** The type is `*pkg.Client` for a package of SDK module `m`. */
  predicate IsClientType(t: Node, imports: map<string, string>, m: string) {
    t.Star? && t.inner.Selector? && t.inner.sel == "Client" && t.inner.x.Ident? && t.inner.x.name in imports &&
    imports[t.inner.x.name] == m
  }

  /** `pkg.sel(...)` for a package of SDK module `m`. */
  predicate CallsPackage(ctx: Context, rhs: Node, m: string, sel: string) {
    rhs.Call? && rhs.fun.Selector? && rhs.fun.sel == sel && rhs.fun.x.Ident? && rhs.fun.x.name in ctx.imports &&
    ctx.imports[rhs.fun.x.name] == m
  }

  /** A call of a package function whose signature has `n` results, the `k`-th a client of `m`. */
  predicate CallsHelper(ctx: Context, rhs: Node, n: nat, k: nat, m: string) {
    rhs.Call? && rhs.fun.Ident? && rhs.fun.name in ctx.sigs && |ctx.sigs[rhs.fun.name]| == n && k < n &&
    ctx.sigs[rhs.fun.name][k] == m
  }

  /** A call with `n` results, the `k`-th a client of `m`. */
  predicate Yields(ctx: Context, rhs: Node, n: nat, k: nat, m: string) {
    (n == 1 && k == 0 && CallsPackage(ctx, rhs, m, "NewFromConfig")) || CallsHelper(ctx, rhs, n, k, m)
  }

  predicate IsAlnumName(s: string) {
    s != "" && forall k :: 0 <= k < |s| ==> 'A' <= s[k] <= 'Z' || 'a' <= s[k] <= 'z' || '0' <= s[k] <= '9'
  }

  /** `pkg.New<op>Paginator(...)` */
  predicate Paginates(ctx: Context, rhs: Node, m: string, op: string) {
    m != "" && IsAlnumName(op) && CallsPackage(ctx, rhs, m, "New" + op + "Paginator")
  }

  /** An assignment that gives `name` a client of `m`: the sides correspond one to one, or a
      single call has a result for every left-hand side. Of a call set against one left-hand
      side the first result is taken. */
  ghost predicate AssignGives(ctx: Context, lhs: seq<Node>, rhs: seq<Node>, name: string, m: string) {
    name != "_" && m != "" && exists i ::
      0 <= i < |lhs| && lhs[i] == Ident(name) &&
      if |lhs| == |rhs| then exists n :: n >= 1 && Yields(ctx, rhs[i], n, 0, m)
      else |rhs| == 1 && Yields(ctx, rhs[0], |lhs|, i, m)
  }

  /** An assignment fits if its sides correspond, or a single value is spread. */
  predicate Fits(lhs: nat, rhs: nat) {
    lhs == rhs || (rhs == 1 && lhs >= 1)
  }

  ghost predicate AssignPaginates(ctx: Context, lhs: nat, rhs: seq<Node>, m: string, op: string, line: int) {
    Fits(lhs, |rhs|) && exists i :: 0 <= i < |rhs| && Paginates(ctx, rhs[i], m, op) && rhs[i].line == line
  }

  ghost predicate ParamGives(params: seq<Field>, imports: map<string, string>, name: string, m: string) {
    name != "_" && m != "" && exists p :: p in params && name in p.names && IsClientType(p.typ, imports, m)
  }

  ghost predicate NodeGives(ctx: Context, n: Node, name: string, m: string) {
    match n
    case FuncLit(params, _, _) => ParamGives(params, ctx.imports, name, m)
    case Assign(_, lhs, rhs) => AssignGives(ctx, lhs, rhs, name, m)
    case ValueSpec(names, _, values) => AssignGives(ctx, Idents(names), values, name, m)
    case _ => false
  }

  ghost predicate NodePaginates(ctx: Context, n: Node, m: string, op: string, line: int) {
    match n
    case Assign(_, lhs, rhs) => AssignPaginates(ctx, |lhs|, rhs, m, op, line)
    case ValueSpec(names, _, values) => AssignPaginates(ctx, |names|, values, m, op, line)
    case _ => false
  }

  // One call.

  /** What the second pass credits at a node. */
  lemma CallCreditExact(ctx: Context, b: map<string, string>, n: Node)
    ensures CallCredit(ctx, b, n) ==
            if CallsByName(n) && n.fun.x.name in b
            then [Credit(b[n.fun.x.name], n.fun.sel, Evidence(ctx.file, n.line))]
            else []
  {
  }

  // One right-hand side.

  lemma PaginatorOpExact(s: string, op: string)
    ensures PaginatorOp(s) == Some(op) <==> IsAlnumName(op) && s == "New" + op + "Paginator"
  {
    if s == "New" + op + "Paginator" {
      assert s[..|NEW|] == NEW && s[|s| - |PAGINATOR|..] == PAGINATOR && s[|NEW|..|s| - |PAGINATOR|] == op;
      assert forall k :: 0 <= k < |op| ==> s[|NEW| + k] == op[k];
      assert forall k :: |NEW| <= k < |s| - |PAGINATOR| ==> s[k] == op[k - |NEW|];
    }
    if PaginatorOp(s) == Some(op) {
      assert s == s[..|NEW|] + op + s[|s| - |PAGINATOR|..];
      assert forall k :: 0 <= k < |op| ==> op[k] == s[|NEW| + k];
    }
  }

  lemma NewFromConfigIsNoPaginator(op: string)
    ensures "NewFromConfig" != "New" + op + "Paginator"
  {
    var s := "New" + op + "Paginator";
    assert s[|s| - 1] == 'r' && "NewFromConfig"[12] == 'g';
  }

  lemma ClassifyExact(ctx: Context, rhs: Node)
    ensures var p := Classify(ctx, rhs);
            (forall k: nat, m :: Yields(ctx, rhs, |p.modules|, k, m) <==> k < |p.modules| && p.modules[k] == m) &&
            (forall n: nat, k: nat, m :: Yields(ctx, rhs, n, k, m) ==> n == |p.modules|) &&
            (p.pageModule != "" ==> p.modules == [] && Paginates(ctx, rhs, p.pageModule, p.pageOp) && p.line == rhs.line) &&
            (forall m, op :: Paginates(ctx, rhs, m, op) ==> p.pageModule == m && p.pageOp == op)
  {
    hide PaginatorOp;
    if rhs.Call? && rhs.fun.Selector? {
      forall op ensures PaginatorOp(rhs.fun.sel) == Some(op) <==> IsAlnumName(op) && rhs.fun.sel == "New" + op + "Paginator" {
        PaginatorOpExact(rhs.fun.sel, op);
        NewFromConfigIsNoPaginator(op);
      }
      assert forall op :: "NewFromConfig" != "New" + op + "Paginator" by {
        forall op ensures "NewFromConfig" != "New" + op + "Paginator" { NewFromConfigIsNoPaginator(op); }
      }
    }
  }

  // One node.

  lemma {:induction false} BindsExact(lhs: seq<Node>, modules: seq<string>, name: string, m: string)
    ensures Bind(name, m) in Binds(lhs, modules) <==>
            name != "_" && m != "" && exists i :: 0 <= i < |lhs| && i < |modules| && lhs[i] == Ident(name) && modules[i] == m
  {
    if lhs != [] {
      BindsExact(lhs[..|lhs| - 1], modules, name, m);
      assert lhs == lhs[..|lhs| - 1] + [lhs[|lhs| - 1]];
    }
  }

  lemma {:induction false} PairwiseExact(ctx: Context, lhs: seq<Node>, rhs: seq<Node>, e: Effect)
    requires |lhs| == |rhs|
    ensures e in Pairwise(ctx, lhs, rhs) <==> exists i :: 0 <= i < |lhs| && e in Single(ctx, lhs[i], rhs[i])
  {
    hide Single;
    if lhs != [] {
      var n := |lhs| - 1;
      PairwiseExact(ctx, lhs[..n], rhs[..n], e);
      assert forall i :: 0 <= i < n ==> lhs[..n][i] == lhs[i] && rhs[..n][i] == rhs[i];
    }
  }

  lemma BindsPagesNothing(lhs: seq<Node>, modules: seq<string>)
    ensures forall e :: e in Binds(lhs, modules) ==> e.Bind?
  {
  }

  lemma SingleExact(ctx: Context, l: Node, rhs: Node)
    ensures forall name, m :: Bind(name, m) in Single(ctx, l, rhs) <==>
              name != "_" && m != "" && l == Ident(name) && exists n: nat :: n >= 1 && Yields(ctx, rhs, n, 0, m)
    ensures forall m, op, line :: Page(m, op, line) in Single(ctx, l, rhs) <==> Paginates(ctx, rhs, m, op) && rhs.line == line
  {
    hide Classify, Binds, Yields, Paginates;
    ClassifyExact(ctx, rhs);
    PaginatesIsCall(ctx, rhs);
    var p := Classify(ctx, rhs);
    if p.pageModule == "" && |p.modules| >= 1 {
      BindsPagesNothing([l], p.modules[..1]);
      forall name, m ensures Bind(name, m) in Single(ctx, l, rhs) <==>
        name != "_" && m != "" && l == Ident(name) && exists n: nat :: n >= 1 && Yields(ctx, rhs, n, 0, m)
      {
        BindsExact([l], p.modules[..1], name, m);
        assert p.modules[..1][0] == p.modules[0] && [l][0] == l;
        assert Yields(ctx, rhs, |p.modules|, 0, m) <==> p.modules[0] == m;
        assert Bind(name, m) in Binds([l], p.modules[..1]) <==> name != "_" && m != "" && l == Ident(name) && p.modules[0] == m;
      }
    }
  }

  lemma PaginatesIsCall(ctx: Context, rhs: Node)
    ensures forall m, op :: Paginates(ctx, rhs, m, op) ==> rhs.Call? && m != ""
  {
  }

  lemma SpreadExact(ctx: Context, lhs: seq<Node>, rhs: Node)
    requires |lhs| > 1
    ensures forall name, m :: Bind(name, m) in AssignEffects(ctx, lhs, [rhs]) <==>
              name != "_" && m != "" && exists i: nat :: i < |lhs| && lhs[i] == Ident(name) && Yields(ctx, rhs, |lhs|, i, m)
    ensures forall m, op, line :: Page(m, op, line) in AssignEffects(ctx, lhs, [rhs]) <==>
              Paginates(ctx, rhs, m, op) && rhs.line == line
  {
    hide Classify, Binds, Yields, Paginates;
    ClassifyExact(ctx, rhs);
    PaginatesIsCall(ctx, rhs);
    var p := Classify(ctx, rhs);
    BindsPagesNothing(lhs, p.modules);
    forall name, m ensures Bind(name, m) in AssignEffects(ctx, lhs, [rhs]) <==>
      name != "_" && m != "" && exists i: nat :: i < |lhs| && lhs[i] == Ident(name) && Yields(ctx, rhs, |lhs|, i, m)
    {
      BindsExact(lhs, p.modules, name, m);
    }
  }

  lemma AssignBindExact(ctx: Context, lhs: seq<Node>, rhs: seq<Node>, name: string, m: string)
    ensures Bind(name, m) in AssignEffects(ctx, lhs, rhs) <==> AssignGives(ctx, lhs, rhs, name, m)
  {
    hide Single, Yields, Binds, Classify;
    if |rhs| == 1 && |lhs| > 1 {
      hide AssignEffects;
      assert rhs == [rhs[0]];
      SpreadExact(ctx, lhs, rhs[0]);
    } else if |lhs| == |rhs| {
      PairwiseExact(ctx, lhs, rhs, Bind(name, m));
      forall i | 0 <= i < |lhs|
        ensures Bind(name, m) in Single(ctx, lhs[i], rhs[i]) <==>
                name != "_" && m != "" && lhs[i] == Ident(name) && exists n: nat :: n >= 1 && Yields(ctx, rhs[i], n, 0, m)
      {
        SingleExact(ctx, lhs[i], rhs[i]);
      }
    }
  }

  lemma AssignPageExact(ctx: Context, lhs: seq<Node>, rhs: seq<Node>, m: string, op: string, line: int)
    ensures Page(m, op, line) in AssignEffects(ctx, lhs, rhs) <==> AssignPaginates(ctx, |lhs|, rhs, m, op, line)
  {
    hide Single, Paginates, Binds, Classify;
    PaginatesAllCalls(ctx, rhs);
    if |rhs| == 1 && |lhs| > 1 {
      hide AssignEffects;
      assert rhs == [rhs[0]];
      SpreadExact(ctx, lhs, rhs[0]);
    } else if |lhs| == |rhs| {
      PairwiseExact(ctx, lhs, rhs, Page(m, op, line));
      forall i | 0 <= i < |lhs|
        ensures Page(m, op, line) in Single(ctx, lhs[i], rhs[i]) <==> Paginates(ctx, rhs[i], m, op) && rhs[i].line == line
      {
        SingleExact(ctx, lhs[i], rhs[i]);
      }
    }
  }

  lemma PaginatesAllCalls(ctx: Context, rhs: seq<Node>)
    ensures forall i, m, op :: 0 <= i < |rhs| && Paginates(ctx, rhs[i], m, op) ==> rhs[i].Call?
  {
    hide Paginates;
    forall i | 0 <= i < |rhs| ensures forall m, op :: Paginates(ctx, rhs[i], m, op) ==> rhs[i].Call? {
      PaginatesIsCall(ctx, rhs[i]);
    }
  }

  lemma ClientModuleExact(t: Node, imports: map<string, string>, m: string)
    requires m != ""
    ensures ClientModule(t, imports) == m <==> IsClientType(t, imports, m)
  {
  }

  lemma {:induction false} NameBindsExact(names: seq<string>, mod: string, name: string, m: string)
    ensures Bind(name, m) in NameBinds(names, mod) <==> name != "_" && m != "" && m == mod && name in names
  {
    if names != [] && mod != "" {
      NameBindsExact(names[..|names| - 1], mod, name, m);
      assert names == names[..|names| - 1] + [names[|names| - 1]];
    }
  }

  lemma {:induction false} ParamBindsExact(params: seq<Field>, imports: map<string, string>, name: string, m: string)
    ensures Bind(name, m) in ParamBinds(params, imports) <==> ParamGives(params, imports, name, m)
  {
    hide NameBinds, ClientModule, IsClientType;
    if params != [] {
      var i := |params| - 1;
      ParamBindsExact(params[..i], imports, name, m);
      NameBindsExact(params[i].names, ClientModule(params[i].typ, imports), name, m);
      if m != "" { ClientModuleExact(params[i].typ, imports, m); }
      assert params == params[..i] + [params[i]];
    }
  }

  lemma NodeExact(ctx: Context, n: Node)
    ensures forall name, m :: Bind(name, m) in Effects(ctx, n) <==> NodeGives(ctx, n, name, m)
    ensures forall m, op, line :: Page(m, op, line) in Effects(ctx, n) <==> NodePaginates(ctx, n, m, op, line)
  {
    hide AssignEffects, ParamBinds, AssignGives, AssignPaginates, ParamGives;
    forall name, m ensures Bind(name, m) in Effects(ctx, n) <==> NodeGives(ctx, n, name, m) {
      match n
      case FuncLit(params, _, _) => ParamBindsExact(params, ctx.imports, name, m);
      case Assign(_, lhs, rhs) => AssignBindExact(ctx, lhs, rhs, name, m);
      case ValueSpec(names, _, values) => AssignBindExact(ctx, Idents(names), values, name, m);
      case _ =>
    }
    forall m, op, line ensures Page(m, op, line) in Effects(ctx, n) <==> NodePaginates(ctx, n, m, op, line) {
      match n
      case FuncLit(params, _, _) => ParamsOnlyBind(params, ctx.imports);
      case Assign(_, lhs, rhs) => AssignPageExact(ctx, lhs, rhs, m, op, line);
      case ValueSpec(names, _, values) => AssignPageExact(ctx, Idents(names), values, m, op, line);
      case _ =>
    }
  }

  // A whole function.

  /** Everything the first pass finds in a function with these parameters. */
  function FunctionEffects(ctx: Context, params: seq<Field>, body: Node): seq<Effect> {
    ParamBinds(params, ctx.imports) + EffectsOf(ctx, Preorder(body))
  }

  /** The walk binds an identifier to a module exactly when a parameter of the function or of a
      closure in it, or an assignment or declaration anywhere in its body, gives it a client of
      that module. */
  lemma BindingsExact(ctx: Context, params: seq<Field>, body: Node, name: string, m: string)
    ensures Bind(name, m) in FunctionEffects(ctx, params, body) <==>
            ParamGives(params, ctx.imports, name, m) || exists n :: Within(n, body) && NodeGives(ctx, n, name, m)
  {
    hide ParamBinds, EffectsOf, Preorder, Effects, Within, ParamGives, NodeGives;
    ParamBindsExact(params, ctx.imports, name, m);
    EffectsOfHas(ctx, Preorder(body), Bind(name, m));
    forall n ensures (n in Preorder(body) <==> Within(n, body)) && (Bind(name, m) in Effects(ctx, n) <==> NodeGives(ctx, n, name, m)) {
      PreorderHolds(n, body);
      NodeExact(ctx, n);
    }
  }

  /** It credits a paginator exactly when an assignment or declaration that fits constructs it. */
  lemma PaginatorsExact(ctx: Context, params: seq<Field>, body: Node, m: string, op: string, line: int)
    ensures Page(m, op, line) in FunctionEffects(ctx, params, body) <==>
            exists n :: Within(n, body) && NodePaginates(ctx, n, m, op, line)
  {
    hide ParamBinds, EffectsOf, Preorder, Effects, Within, NodePaginates;
    ParamsOnlyBind(params, ctx.imports);
    EffectsOfHas(ctx, Preorder(body), Page(m, op, line));
    forall n ensures (n in Preorder(body) <==> Within(n, body)) &&
                     (Page(m, op, line) in Effects(ctx, n) <==> NodePaginates(ctx, n, m, op, line)) {
      PreorderHolds(n, body);
      NodeExact(ctx, n);
    }
  }
}
