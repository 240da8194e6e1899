/** cmd/clientcoverage/main.go, walkFunc: the two passes over one top-level function, with
    one flat table from identifiers to SDK modules. */
module CoverageWalk {
  import opened Wrappers
  import opened GoSyntax
  import opened ClientCoverage

  /** What a file and its package contribute: imported SDK modules by local name, and for
      each function returning clients the module of every result ("" for a non-client). */
  datatype Context = Context(imports: map<string, string>, sigs: map<string, seq<string>>, file: string)

  predicate IsUpper(c: char) { 'A' <= c <= 'Z' }

  predicate IsAlnum(c: char) { 'A' <= c <= 'Z' || 'a' <= c <= 'z' || '0' <= c <= '9' }

  /** `^[A-Z][A-Za-z0-9]*$` */
  predicate IsOpName(s: string) {
    s != [] && IsUpper(s[0]) && forall k :: 0 <= k < |s| ==> IsAlnum(s[k])
  }

  const NEW: string := "New"
  const PAGINATOR: string := "Paginator"

  /** The captured group of `^New([A-Za-z0-9]+)Paginator$`. */
  function PaginatorOp(s: string): Option<string> {
    if |s| > |NEW| + |PAGINATOR| && s[..|NEW|] == NEW && s[|s| - |PAGINATOR|..] == PAGINATOR &&
       forall k :: |NEW| <= k < |s| - |PAGINATOR| ==> IsAlnum(s[k])
    then Some(s[|NEW|..|s| - |PAGINATOR|])
    else None
  }

  function Lookup(m: map<string, string>, k: string): string {
    if k in m then m[k] else ""
  }

  /** The module of a type `*pkg.Client`, else "". */
  function ClientModule(t: Node, imports: map<string, string>): string {
    if t.Star? && t.inner.Selector? && t.inner.sel == "Client" && t.inner.x.Ident?
    then Lookup(imports, t.inner.x.name)
    else ""
  }

  /** What the right-hand side of an assignment produces: the module of each result, or the
      module and operation of a paginator constructor. */
  datatype Produce = Produce(modules: seq<string>, pageModule: string, pageOp: string, line: int)

  const NOTHING := Produce([], "", "", 0)

  function Classify(ctx: Context, rhs: Node): Produce {
    if !rhs.Call? then NOTHING
    else if rhs.fun.Selector? && rhs.fun.x.Ident? then
      var pkg := rhs.fun.x.name;
      if pkg !in ctx.imports then NOTHING
      else if rhs.fun.sel == "NewFromConfig" then Produce([ctx.imports[pkg]], "", "", rhs.line)
      else if PaginatorOp(rhs.fun.sel).Some? then
        Produce([], ctx.imports[pkg], PaginatorOp(rhs.fun.sel).value, rhs.line)
      else NOTHING
    else if rhs.fun.Ident? && rhs.fun.name in ctx.sigs then Produce(ctx.sigs[rhs.fun.name], "", "", rhs.line)
    else NOTHING
  }

  /** What the first pass does at a node: bind an identifier to a module, or credit a
      paginator's operation. */
  datatype Effect = Bind(name: string, m: string) | Page(m: string, op: string, line: int)

  function Binds(lhs: seq<Node>, modules: seq<string>): seq<Effect> {
    if lhs == [] then []
    else
      var i := |lhs| - 1;
      Binds(lhs[..i], modules) +
      if i < |modules| && modules[i] != "" && lhs[i].Ident? && lhs[i].name != "_"
      then [Bind(lhs[i].name, modules[i])] else []
  }

  /** The effect of assigning `rhs` alone to `l`. */
  function Single(ctx: Context, l: Node, rhs: Node): seq<Effect> {
    var p := Classify(ctx, rhs);
    if p.pageModule != "" then [Page(p.pageModule, p.pageOp, p.line)]
    else if |p.modules| >= 1 then Binds([l], p.modules[..1])
    else []
  }

  function Pairwise(ctx: Context, lhs: seq<Node>, rhs: seq<Node>): seq<Effect>
    requires |lhs| == |rhs|
  {
    if lhs == [] then []
    else
      var i := |lhs| - 1;
      Pairwise(ctx, lhs[..i], rhs[..i]) + Single(ctx, lhs[i], rhs[i])
  }

  function AssignEffects(ctx: Context, lhs: seq<Node>, rhs: seq<Node>): seq<Effect> {
    if |rhs| == 1 && |lhs| > 1 then
      var p := Classify(ctx, rhs[0]);
      if p.pageModule != "" then [Page(p.pageModule, p.pageOp, p.line)]
      else if |p.modules| == |lhs| then Binds(lhs, p.modules)
      else []
    else if |lhs| == |rhs| then Pairwise(ctx, lhs, rhs)
    else []
  }

  function NameBinds(names: seq<string>, m: string): seq<Effect> {
    if names == [] || m == "" then []
    else
      var i := |names| - 1;
      NameBinds(names[..i], m) + if names[i] != "_" then [Bind(names[i], m)] else []
  }

  function ParamBinds(params: seq<Field>, imports: map<string, string>): seq<Effect> {
    if params == [] then []
    else
      var i := |params| - 1;
      ParamBinds(params[..i], imports) + NameBinds(params[i].names, ClientModule(params[i].typ, imports))
  }

  function Idents(names: seq<string>): (r: seq<Node>)
    ensures |r| == |names| && forall k :: 0 <= k < |names| ==> r[k] == Ident(names[k])
  {
    seq(|names|, k requires 0 <= k < |names| => Ident(names[k]))
  }

  function Effects(ctx: Context, n: Node): seq<Effect> {
    match n
    case FuncLit(params, _, _) => ParamBinds(params, ctx.imports)
    case Assign(_, lhs, rhs) => AssignEffects(ctx, lhs, rhs)
    case ValueSpec(names, _, values) => AssignEffects(ctx, Idents(names), values)
    case _ => []
  }

  function EffectsOf(ctx: Context, ns: seq<Node>): seq<Effect> {
    if ns == [] then [] else EffectsOf(ctx, ns[..|ns| - 1]) + Effects(ctx, ns[|ns| - 1])
  }

  function Bound(b: map<string, string>, es: seq<Effect>): map<string, string> {
    if es == [] then b
    else
      var before := Bound(b, es[..|es| - 1]);
      var e := es[|es| - 1];
      if e.Bind? then before[e.name := e.m] else before
  }

  function Pages(ctx: Context, es: seq<Effect>): seq<Credit> {
    if es == [] then []
    else
      var e := es[|es| - 1];
      Pages(ctx, es[..|es| - 1]) + if e.Page? then [Credit(e.m, e.op, Evidence(ctx.file, e.line))] else []
  }

  /** What the second pass credits at a node. */
  function CallCredit(ctx: Context, b: map<string, string>, n: Node): seq<Credit> {
    if n.Call? && n.fun.Selector? && n.fun.x.Ident? && n.fun.x.name in b && IsOpName(n.fun.sel)
    then [Credit(b[n.fun.x.name], n.fun.sel, Evidence(ctx.file, n.line))]
    else []
  }

  function CallCredits(ctx: Context, b: map<string, string>, ns: seq<Node>): seq<Credit> {
    if ns == [] then [] else CallCredits(ctx, b, ns[..|ns| - 1]) + CallCredit(ctx, b, ns[|ns| - 1])
  }

  function Table(ctx: Context, entry: map<string, string>, body: Node): map<string, string> {
    Bound(entry, EffectsOf(ctx, Preorder(body)))
  }

  /** Everything walkFunc records for a function, in order. */
  function CreditsOf(ctx: Context, entry: map<string, string>, body: Node): seq<Credit> {
    Pages(ctx, EffectsOf(ctx, Preorder(body))) + CallCredits(ctx, Table(ctx, entry, body), Preorder(body))
  }

  // Concatenation laws.

  lemma {:induction false} BoundAppend(b: map<string, string>, x: seq<Effect>, y: seq<Effect>)
    ensures Bound(b, x + y) == Bound(Bound(b, x), y)
  {
    if y == [] {
      assert x + y == x;
    } else {
      assert (x + y)[..|x + y| - 1] == x + y[..|y| - 1];
      BoundAppend(b, x, y[..|y| - 1]);
    }
  }

  lemma {:induction false} PagesAppend(ctx: Context, x: seq<Effect>, y: seq<Effect>)
    ensures Pages(ctx, x + y) == Pages(ctx, x) + Pages(ctx, y)
  {
    if y == [] {
      assert x + y == x;
    } else {
      assert (x + y)[..|x + y| - 1] == x + y[..|y| - 1];
      PagesAppend(ctx, x, y[..|y| - 1]);
    }
  }

  lemma {:induction false} EffectsAppend(ctx: Context, x: seq<Node>, y: seq<Node>)
    ensures EffectsOf(ctx, x + y) == EffectsOf(ctx, x) + EffectsOf(ctx, y)
  {
    hide Effects;
    if y == [] {
      assert x + y == x;
    } else {
      assert (x + y)[..|x + y| - 1] == x + y[..|y| - 1];
      EffectsAppend(ctx, x, y[..|y| - 1]);
    }
  }

  lemma {:induction false} CallsAppend(ctx: Context, b: map<string, string>, x: seq<Node>, y: seq<Node>)
    ensures CallCredits(ctx, b, x + y) == CallCredits(ctx, b, x) + CallCredits(ctx, b, y)
  {
    hide CallCredit;
    if y == [] {
      assert x + y == x;
    } else {
      assert (x + y)[..|x + y| - 1] == x + y[..|y| - 1];
      CallsAppend(ctx, b, x, y[..|y| - 1]);
    }
  }

  lemma {:induction false} RecordAppend(cov: Coverage, idx: Index, x: seq<Credit>, y: seq<Credit>)
    ensures RecordAll(cov, idx, x + y) == RecordAll(RecordAll(cov, idx, x), idx, y)
  {
    hide Recorded;
    if y == [] {
      assert x + y == x;
    } else {
      assert (x + y)[..|x + y| - 1] == x + y[..|y| - 1];
      RecordAppend(cov, idx, x, y[..|y| - 1]);
    }
  }

  // The imperative walk.

  class FunctionWalk {
    const ctx: Context
    const idx: Index
    const result: CoverageResult
    var bindings: map<string, string>

    constructor (ctx: Context, entry: map<string, string>, idx: Index, result: CoverageResult)
      ensures this.ctx == ctx && this.idx == idx && this.result == result && bindings == entry
    {
      this.ctx, this.idx, this.result, bindings := ctx, idx, result, entry;
    }

    /** The walk is where `es` take it from the given table and coverage. */
    ghost predicate After(b: map<string, string>, cov: Coverage, es: seq<Effect>)
      reads this, result
    {
      bindings == Bound(b, es) && result.State() == RecordAll(cov, idx, Pages(ctx, es))
    }

    lemma AfterMore(b: map<string, string>, cov: Coverage, x: seq<Effect>, y: seq<Effect>)
      requires After(Bound(b, x), RecordAll(cov, idx, Pages(ctx, x)), y)
      ensures After(b, cov, x + y)
    {
      hide Bound, Pages, RecordAll;
      BoundAppend(b, x, y);
      PagesAppend(ctx, x, y);
      RecordAppend(cov, idx, Pages(ctx, x), Pages(ctx, y));
    }

    method ApplyBindings(lhs: seq<Node>, modules: seq<string>)
      modifies this
      ensures bindings == Bound(old(bindings), Binds(lhs, modules))
    {
      hide Binds, Bound;
      BindsNothing(bindings, modules);
      for i := 0 to |lhs|
        invariant bindings == Bound(old(bindings), Binds(lhs[..i], modules))
      {
        BindsSnoc(old(bindings), lhs, i, modules);
        if i >= |modules| || modules[i] == "" {
          continue;
        }
        if !lhs[i].Ident? || lhs[i].name == "_" {
          continue;
        }
        bindings := bindings[lhs[i].name := modules[i]];
      }
      assert lhs[..|lhs|] == lhs;
    }

    method RecordPage(p: Produce)
      modifies result
      ensures result.State() == RecordAll(old(result.State()), idx, Pages(ctx, [Page(p.pageModule, p.pageOp, p.line)]))
    {
      hide Recorded;
      result.Record(idx, p.pageModule, p.pageOp, Evidence(ctx.file, p.line));
      OnePage(ctx, Page(p.pageModule, p.pageOp, p.line));
      OneRecord(old(result.State()), idx, Credit(p.pageModule, p.pageOp, Evidence(ctx.file, p.line)));
    }

    method BindAssign(lhs: seq<Node>, rhs: seq<Node>)
      modifies this, result
      ensures After(old(bindings), old(result.State()), AssignEffects(ctx, lhs, rhs))
    {
      hide Classify, Binds;
      if |rhs| == 1 && |lhs| >= 1 {
        PairwiseOfOne(ctx, lhs[0], rhs[0]);
        assert rhs == [rhs[0]] && (|lhs| == 1 ==> lhs == [lhs[0]]);
        var p := Classify(ctx, rhs[0]);
        if p.pageModule != "" {
          RecordPage(p);
          NoBinding(old(bindings), Page(p.pageModule, p.pageOp, p.line));
          return;
        }
        if |lhs| == |p.modules| || (|lhs| == 1 && |p.modules| >= 1) {
          if |lhs| == 1 { BindsAtMost(lhs, p.modules); }
          NoPages(ctx, lhs, p.modules);
          ApplyBindings(lhs, p.modules);
          return;
        }
      }
      if |lhs| == |rhs| {
        for i := 0 to |rhs|
          invariant After(old(bindings), old(result.State()), Pairwise(ctx, lhs[..i], rhs[..i]))
        {
          assert lhs[..i + 1][..i] == lhs[..i] && rhs[..i + 1][..i] == rhs[..i];
          ghost var before := Pairwise(ctx, lhs[..i], rhs[..i]);
          var p := Classify(ctx, rhs[i]);
          if p.pageModule != "" {
            label P:
            RecordPage(p);
            NoBinding(old@P(bindings), Page(p.pageModule, p.pageOp, p.line));
          } else if |p.modules| >= 1 {
            NoPages(ctx, [lhs[i]], p.modules[..1]);
            ApplyBindings([lhs[i]], p.modules[..1]);
          }
          AfterMore(old(bindings), old(result.State()), before, Single(ctx, lhs[i], rhs[i]));
        }
        assert lhs[..|lhs|] == lhs && rhs[..|rhs|] == rhs;
      }
    }

    /** The callback of the first traversal. */
    method Visit(n: Node)
      modifies this, result
      ensures After(old(bindings), old(result.State()), Effects(ctx, n))
    {
      hide AssignEffects, ParamBinds;
      match n
      case FuncLit(params, _, _) =>
        NoParamPages(ctx, params);
        ParamsBound(bindings, params, ctx.imports);
        var more := ExtractClientParams(params, ctx.imports);
        bindings := bindings + more;
      case Assign(_, lhs, rhs) =>
        BindAssign(lhs, rhs);
      case ValueSpec(names, _, values) =>
        BindAssign(Idents(names), values);
      case _ =>
    }

    method FirstPass(n: Node)
      modifies this, result
      ensures After(old(bindings), old(result.State()), EffectsOf(ctx, Preorder(n)))
      decreases n
    {
      hide Children, Effects, EffectsOf, After;
      Visit(n);
      EffectsOfNode(ctx, n);
      ghost var done := Effects(ctx, n);
      for k := 0 to |Children(n)|
        invariant After(old(bindings), old(result.State()), done)
        invariant done + EffectsOf(ctx, PreorderFrom(n, k)) == EffectsOf(ctx, Preorder(n))
      {
        ChildSmaller(n, k);
        ghost var es := EffectsOf(ctx, Preorder(Children(n)[k]));
        EffectsAppend(ctx, Preorder(Children(n)[k]), PreorderFrom(n, k + 1));
        AfterIs(old(bindings), old(result.State()), done);
        FirstPass(Children(n)[k]);
        AfterMore(old(bindings), old(result.State()), done, es);
        done := done + es;
      }
      NoEffects(ctx);
      assert done + [] == done;
    }

    lemma AfterIs(b: map<string, string>, cov: Coverage, es: seq<Effect>)
      requires After(b, cov, es)
      ensures bindings == Bound(b, es) && result.State() == RecordAll(cov, idx, Pages(ctx, es))
    {
    }

    method SecondPass(n: Node)
      modifies result
      ensures result.State() == RecordAll(old(result.State()), idx, CallCredits(ctx, bindings, Preorder(n)))
      decreases n
    {
      hide Children, CallCredit, CallCredits, Recorded, RecordAll;
      VisitCall(n);
      CallsOfNode(ctx, bindings, n);
      ghost var done := CallCredit(ctx, bindings, n);
      for k := 0 to |Children(n)|
        invariant result.State() == RecordAll(old(result.State()), idx, done)
        invariant done + CallCredits(ctx, bindings, PreorderFrom(n, k)) == CallCredits(ctx, bindings, Preorder(n))
      {
        ChildSmaller(n, k);
        ghost var cs := CallCredits(ctx, bindings, Preorder(Children(n)[k]));
        CallsAppend(ctx, bindings, Preorder(Children(n)[k]), PreorderFrom(n, k + 1));
        SecondPass(Children(n)[k]);
        RecordAppend(old(result.State()), idx, done, cs);
        done := done + cs;
      }
      NoCalls(ctx, bindings);
      assert done + [] == done;
    }

    /** The callback of the second traversal. */
    method VisitCall(n: Node)
      modifies result
      ensures result.State() == RecordAll(old(result.State()), idx, CallCredit(ctx, bindings, n))
    {
      hide Recorded;
      if !n.Call? || !n.fun.Selector? || !n.fun.x.Ident? {
        return;
      }
      var name := n.fun.x.name;
      if name !in bindings || !IsOpName(n.fun.sel) {
        return;
      }
      result.Record(idx, bindings[name], n.fun.sel, Evidence(ctx.file, n.line));
      OneRecord(old(result.State()), idx, Credit(bindings[name], n.fun.sel, Evidence(ctx.file, n.line)));
    }
  }

  /** Records exactly the credits of the function, on top of what was recorded before. */
  method WalkFunc(body: Node, entry: map<string, string>, ctx: Context, idx: Index, result: CoverageResult)
    modifies result
    ensures result.State() == RecordAll(old(result.State()), idx, CreditsOf(ctx, entry, body))
  {
    hide EffectsOf, CallCredits, Pages, RecordAll, Bound;
    var w := new FunctionWalk(ctx, entry, idx, result);
    w.FirstPass(body);
    w.SecondPass(body);
    RecordAppend(old(result.State()), idx, Pages(ctx, EffectsOf(ctx, Preorder(body))),
                 CallCredits(ctx, w.bindings, Preorder(body)));
  }

  /** The client parameters of a function type. */
  method ExtractClientParams(params: seq<Field>, imports: map<string, string>) returns (out: map<string, string>)
    ensures out == Bound(map[], ParamBinds(params, imports))
  {
    hide Bound, NameBinds, ClientModule;
    out := map[];
    NoneBound(map[]);
    for i := 0 to |params|
      invariant out == Bound(map[], ParamBinds(params[..i], imports))
    {
      assert params[..i + 1][..i] == params[..i];
      var m := ClientModule(params[i].typ, imports);
      BoundAppend(map[], ParamBinds(params[..i], imports), NameBinds(params[i].names, m));
      out := BindNames(out, params[i].names, m);
    }
    assert params[..|params|] == params;
  }

  method BindNames(b: map<string, string>, names: seq<string>, m: string) returns (out: map<string, string>)
    ensures out == Bound(b, NameBinds(names, m))
  {
    hide NameBinds, Bound;
    out := b;
    NothingToBind(b, names, m);
    if m == "" {
      return;
    }
    for j := 0 to |names|
      invariant out == Bound(b, NameBinds(names[..j], m))
    {
      NameBindsSnoc(b, names, j, m);
      if names[j] != "_" {
        out := out[names[j] := m];
      }
    }
    assert names[..|names|] == names;
  }

  // What the methods above need.

  lemma OnePage(ctx: Context, e: Effect)
    requires e.Page?
    ensures Pages(ctx, [e]) == [Credit(e.m, e.op, Evidence(ctx.file, e.line))]
  {
    assert [e][..0] == [];
  }

  lemma OneRecord(cov: Coverage, idx: Index, c: Credit)
    ensures RecordAll(cov, idx, [c]) == Recorded(cov, idx, c)
  {
    assert [c][..0] == [];
  }

  lemma NoBinding(b: map<string, string>, e: Effect)
    requires e.Page?
    ensures Bound(b, [e]) == b
  {
    assert [e][..0] == [];
  }

  lemma NoneBound(b: map<string, string>)
    ensures Bound(b, []) == b
  {
  }

  lemma NoEffects(ctx: Context)
    ensures EffectsOf(ctx, []) == []
  {
  }

  lemma NoCalls(ctx: Context, b: map<string, string>)
    ensures CallCredits(ctx, b, []) == []
  {
  }

  lemma PairwiseOfOne(ctx: Context, l: Node, r: Node)
    ensures Pairwise(ctx, [l], [r]) == Single(ctx, l, r)
  {
    assert [l][..0] == [] && [r][..0] == [];
  }

  lemma BindsAtMost(lhs: seq<Node>, modules: seq<string>)
    requires |lhs| == 1 <= |modules|
    ensures Binds(lhs, modules) == Binds(lhs, modules[..1])
  {
    assert lhs[..0] == [];
  }

  lemma {:induction false} NoPages(ctx: Context, lhs: seq<Node>, modules: seq<string>)
    ensures Pages(ctx, Binds(lhs, modules)) == []
  {
    if lhs != [] {
      var i := |lhs| - 1;
      NoPages(ctx, lhs[..i], modules);
      PagesAppend(ctx, Binds(lhs[..i], modules), Binds(lhs, modules)[|Binds(lhs[..i], modules)|..]);
    }
  }

  lemma NothingToBind(b: map<string, string>, names: seq<string>, m: string)
    ensures Bound(b, NameBinds([], m)) == b
    ensures m == "" ==> Bound(b, NameBinds(names, m)) == b
  {
  }

  lemma BindsNothing(b: map<string, string>, modules: seq<string>)
    ensures Bound(b, Binds([], modules)) == b
  {
  }

  lemma BindsSnoc(b: map<string, string>, lhs: seq<Node>, i: nat, modules: seq<string>)
    requires i < |lhs|
    ensures var before := Bound(b, Binds(lhs[..i], modules));
            Bound(b, Binds(lhs[..i + 1], modules)) ==
            if i < |modules| && modules[i] != "" && lhs[i].Ident? && lhs[i].name != "_"
            then before[lhs[i].name := modules[i]] else before
  {
    hide Bound;
    assert lhs[..i + 1][..i] == lhs[..i];
    var before := Binds(lhs[..i], modules);
    assert before + [] == before;
    if i < |modules| && lhs[i].Ident? {
      BoundSnoc(b, before, lhs[i].name, modules[i]);
    }
  }

  lemma BoundSnoc(b: map<string, string>, es: seq<Effect>, name: string, m: string)
    ensures Bound(b, es + [Bind(name, m)]) == Bound(b, es)[name := m]
  {
    assert (es + [Bind(name, m)])[..|es|] == es;
  }

  lemma NameBindsSnoc(b: map<string, string>, names: seq<string>, j: nat, m: string)
    requires j < |names| && m != ""
    ensures var before := Bound(b, NameBinds(names[..j], m));
            Bound(b, NameBinds(names[..j + 1], m)) == if names[j] != "_" then before[names[j] := m] else before
  {
    hide Bound;
    assert names[..j + 1][..j] == names[..j];
    var before := NameBinds(names[..j], m);
    if names[j] != "_" {
      BoundSnoc(b, before, names[j], m);
    } else {
      assert before + [] == before;
    }
  }

  lemma EffectsOfOne(ctx: Context, n: Node)
    ensures EffectsOf(ctx, [n]) == Effects(ctx, n)
  {
    hide Effects;
    assert [n][..0] == [] && [] + Effects(ctx, n) == Effects(ctx, n);
  }

  lemma CallsOfOne(ctx: Context, b: map<string, string>, n: Node)
    ensures CallCredits(ctx, b, [n]) == CallCredit(ctx, b, n)
  {
    hide CallCredit;
    assert [n][..0] == [] && [] + CallCredit(ctx, b, n) == CallCredit(ctx, b, n);
  }

  lemma EffectsOfNode(ctx: Context, n: Node)
    ensures EffectsOf(ctx, Preorder(n)) == Effects(ctx, n) + EffectsOf(ctx, PreorderFrom(n, 0))
  {
    hide Effects, PreorderFrom, EffectsOf;
    EffectsAppend(ctx, [n], PreorderFrom(n, 0));
    EffectsOfOne(ctx, n);
  }

  lemma CallsOfNode(ctx: Context, b: map<string, string>, n: Node)
    ensures CallCredits(ctx, b, Preorder(n)) == CallCredit(ctx, b, n) + CallCredits(ctx, b, PreorderFrom(n, 0))
  {
    hide CallCredit, PreorderFrom, CallCredits;
    CallsAppend(ctx, b, [n], PreorderFrom(n, 0));
    CallsOfOne(ctx, b, n);
  }

  ghost predicate OnlyBinds(es: seq<Effect>) {
    forall k :: 0 <= k < |es| ==> es[k].Bind?
  }

  lemma NamesOnlyBind(names: seq<string>, m: string)
    ensures OnlyBinds(NameBinds(names, m))
  {
  }

  lemma {:induction false} ParamsOnlyBind(params: seq<Field>, imports: map<string, string>)
    ensures OnlyBinds(ParamBinds(params, imports))
  {
    hide NameBinds, ClientModule;
    if params != [] {
      var i := |params| - 1;
      ParamsOnlyBind(params[..i], imports);
      NamesOnlyBind(params[i].names, ClientModule(params[i].typ, imports));
    }
  }

  lemma {:induction false} BindsCreditNothing(ctx: Context, es: seq<Effect>)
    requires OnlyBinds(es)
    ensures Pages(ctx, es) == []
  {
    if es != [] {
      BindsCreditNothing(ctx, es[..|es| - 1]);
    }
  }

  lemma NoParamPages(ctx: Context, params: seq<Field>)
    ensures Pages(ctx, ParamBinds(params, ctx.imports)) == []
  {
    hide Pages, ParamBinds;
    ParamsOnlyBind(params, ctx.imports);
    BindsCreditNothing(ctx, ParamBinds(params, ctx.imports));
  }

  /** Copying a table over another one is the same as repeating its bindings. */
  lemma {:induction false} BoundIsCopied(b: map<string, string>, es: seq<Effect>)
    ensures Bound(b, es) == b + Bound(map[], es)
  {
    if es == [] {
      assert b + map[] == b;
    } else {
      BoundIsCopied(b, es[..|es| - 1]);
    }
  }

  lemma ParamsBound(b: map<string, string>, params: seq<Field>, imports: map<string, string>)
    ensures Bound(b, ParamBinds(params, imports)) == b + Bound(map[], ParamBinds(params, imports))
  {
    BoundIsCopied(b, ParamBinds(params, imports));
  }

  // Members of the folds.

  lemma {:induction false} EffectsOfHas(ctx: Context, ns: seq<Node>, e: Effect)
    ensures e in EffectsOf(ctx, ns) <==> exists n :: n in ns && e in Effects(ctx, n)
  {
    hide Effects;
    if ns != [] {
      EffectsOfHas(ctx, ns[..|ns| - 1], e);
      assert ns == ns[..|ns| - 1] + [ns[|ns| - 1]];
    }
  }

  lemma {:induction false} CallCreditsHas(ctx: Context, t: map<string, string>, ns: seq<Node>, c: Credit)
    ensures c in CallCredits(ctx, t, ns) <==> exists n :: n in ns && c in CallCredit(ctx, t, n)
  {
    hide CallCredit;
    if ns != [] {
      CallCreditsHas(ctx, t, ns[..|ns| - 1], c);
      assert ns == ns[..|ns| - 1] + [ns[|ns| - 1]];
    }
  }
}
