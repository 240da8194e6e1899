/** The flat walk of walkFunc against Go's own scoping: whatever a walk that follows blocks
    and statement order would credit, the flat walk credits too, provided no identifier the
    function calls through is bound to two different modules. */
module ScopedWalk {
  import opened Wrappers
  import opened GoSyntax
  import opened ClientCoverage
  import opened CoverageWalk
  import opened CoverageEvidence

  // The reference walk. A scope maps each identifier it declares to the module of the client
  // the identifier holds, "" if it holds something else. The innermost scope is last.

  type Scopes = seq<map<string, string>>

  function Find(env: Scopes, name: string): Option<string> {
    if env == [] then None
    else if name in env[|env| - 1] then Some(env[|env| - 1][name])
    else Find(env[..|env| - 1], name)
  }

  function Declare(env: Scopes, name: string, m: string): (r: Scopes)
    requires env != []
    ensures |r| == |env|
  {
    env[|env| - 1 := env[|env| - 1][name := m]]
  }

  /** Assigns to the innermost declaration; a name without one belongs to the outermost scope. */
  function Update(env: Scopes, name: string, m: string): (r: Scopes)
    requires env != []
    ensures |r| == |env|
  {
    if |env| == 1 || name in env[|env| - 1] then Declare(env, name, m)
    else Update(env[..|env| - 1], name, m) + [env[|env| - 1]]
  }

  function Store(env: Scopes, define: bool, l: Node, m: string): (r: Scopes)
    requires env != []
    ensures |r| == |env|
  {
    if !l.Ident? || l.name == "_" then env
    else if define then Declare(env, l.name, m)
    else Update(env, l.name, m)
  }

  function StoreAll(env: Scopes, define: bool, lhs: seq<Node>, modules: seq<string>): (r: Scopes)
    requires env != [] && |lhs| == |modules|
    ensures |r| == |env|
    decreases |lhs|
  {
    if lhs == [] then env
    else StoreAll(Store(env, define, lhs[0], modules[0]), define, lhs[1..], modules[1..])
  }

  /** A variable in scope hides the package or the function that is called. */
  predicate Hidden(env: Scopes, rhs: Node) {
    rhs.Call? &&
    ((rhs.fun.Selector? && rhs.fun.x.Ident? && Find(env, rhs.fun.x.name).Some?) ||
     (rhs.fun.Ident? && Find(env, rhs.fun.name).Some?))
  }

  /** The client module of the `k`-th of `n` results, "" if it is none. */
  ghost function ResultModule(ctx: Context, env: Scopes, rhs: Node, n: nat, k: nat): string {
    if !Hidden(env, rhs) && exists m :: Yields(ctx, rhs, n, k, m) then
      var m :| Yields(ctx, rhs, n, k, m); m
    else ""
  }

  function Blank(n: nat): (r: seq<string>)
    ensures |r| == n && forall k :: 0 <= k < n ==> r[k] == ""
  {
    seq(n, k => "")
  }

  /** The client module of each left-hand side. */
  ghost function Assigned(ctx: Context, env: Scopes, lhs: seq<Node>, rhs: seq<Node>): (r: seq<string>)
    ensures |r| == |lhs|
  {
    if |lhs| == |rhs| then seq(|lhs|, k requires 0 <= k < |rhs| => ResultModule(ctx, env, rhs[k], 1, 0))
    else if |rhs| == 1 then seq(|lhs|, k requires 0 <= k => ResultModule(ctx, env, rhs[0], |lhs|, k))
    else Blank(|lhs|)
  }

  ghost function AfterNode(ctx: Context, env: Scopes, n: Node): (r: Scopes)
    requires env != []
    ensures |r| == |env|
  {
    match n
    case Assign(define, lhs, rhs) => StoreAll(env, define, lhs, Assigned(ctx, env, lhs, rhs))
    case ValueSpec(names, _, values) => StoreAll(env, true, Idents(names), Assigned(ctx, env, Idents(names), values))
    case RangeClause(rdefine, vars, _) => StoreAll(env, rdefine, vars, Blank(|vars|))
    case _ => env
  }

  /** A credit of the reference walk, and for a call the node that earns it. */
  datatype Found = ByCall(node: Node, credit: Credit) | ByPage(credit: Credit)

  /** The operations of the paginators that `rhs` constructs. */
  ghost function PagesIn(ctx: Context, env: Scopes, rhs: seq<Node>): seq<Found> {
    if rhs == [] then []
    else
      var i := |rhs| - 1;
      PagesIn(ctx, env, rhs[..i]) +
      if !Hidden(env, rhs[i]) && exists m, op :: Paginates(ctx, rhs[i], m, op) then
        var m, op :| Paginates(ctx, rhs[i], m, op); [ByPage(Credit(m, op, Evidence(ctx.file, rhs[i].line)))]
      else []
  }

  ghost function NodePages(ctx: Context, env: Scopes, n: Node): seq<Found> {
    match n
    case Assign(_, lhs, rhs) => if Fits(|lhs|, |rhs|) then PagesIn(ctx, env, rhs) else []
    case ValueSpec(names, _, values) => if Fits(|names|, |values|) then PagesIn(ctx, env, values) else []
    case _ => []
  }

  function CreditAt(ctx: Context, n: Node, m: string): Credit
    requires CallsByName(n)
  {
    Credit(m, n.fun.sel, Evidence(ctx.file, n.line))
  }

  function NodeCall(ctx: Context, env: Scopes, n: Node): seq<Found> {
    if CallsByName(n) then
      var held := Find(env, n.fun.x.name);
      if held.Some? && held.value != "" then [ByCall(n, CreditAt(ctx, n, held.value))] else []
    else []
  }

  function NameScope(names: seq<string>, m: string, scope: map<string, string>): map<string, string> {
    if names == [] then scope
    else NameScope(names[1..], m, if names[0] == "_" then scope else scope[names[0] := m])
  }

  /** The module of a client type, "" for any other type. */
  ghost function TypeModule(t: Node, imports: map<string, string>): string {
    if exists m :: IsClientType(t, imports, m) then var m :| IsClientType(t, imports, m); m else ""
  }

  ghost function ParamScope(params: seq<Field>, imports: map<string, string>): map<string, string> {
    if params == [] then map[]
    else
      var i := |params| - 1;
      NameScope(params[i].names, TypeModule(params[i].typ, imports), ParamScope(params[..i], imports))
  }

  predicate Opens(n: Node) {
    n.Block? || n.If? || n.Switch? || n.Case? || n.FuncLit? || n.Scope?
  }

  /** Results are declared, but are no evidence of a client. */
  ghost function OpenScope(ctx: Context, n: Node): map<string, string> {
    if n.FuncLit? then ParamScope(n.results, map[]) + ParamScope(n.params, ctx.imports) else map[]
  }

  datatype Walked = Walked(env: Scopes, found: seq<Found>)

  /** Children in source order, each in the scopes its predecessors left behind; an
      assignment takes effect after its operands. */
  ghost function Walk(ctx: Context, env: Scopes, n: Node): (r: Walked)
    requires env != []
    ensures |r.env| == |env|
    decreases n, |Children(n)| + 1
  {
    var inner := if Opens(n) then env + [OpenScope(ctx, n)] else env;
    var w := WalkFrom(ctx, inner, n, 0);
    Walked(AfterNode(ctx, w.env[..|env|], n), NodeCall(ctx, env, n) + w.found + NodePages(ctx, w.env, n))
  }

  ghost function WalkFrom(ctx: Context, env: Scopes, n: Node, k: nat): (r: Walked)
    requires env != [] && k <= |Children(n)|
    ensures |r.env| == |env|
    decreases n, |Children(n)| - k
  {
    if k == |Children(n)| then Walked(env, [])
    else
      ChildSmaller(n, k);
      var first := Walk(ctx, env, Children(n)[k]);
      var rest := WalkFrom(ctx, first.env, n, k + 1);
      Walked(rest.env, first.found + rest.found)
  }

  /** What a scoped, in-order walk of the function credits. */
  ghost function ScopedFound(ctx: Context, params: seq<Field>, body: Node): seq<Found> {
    Walk(ctx, [ParamScope(params, ctx.imports)], body).found
  }

  ghost function ScopedCredits(ctx: Context, params: seq<Field>, body: Node): (r: seq<Credit>) {
    var found := ScopedFound(ctx, params, body);
    seq(|found|, k requires 0 <= k < |found| => found[k].credit)
  }

  // Evidence in the flat table.

  function EntryParams(ctx: Context, params: seq<Field>): map<string, string> {
    Bound(map[], ParamBinds(params, ctx.imports))
  }

  /** No identifier is bound to two different modules. */
  ghost predicate Consistent(es: seq<Effect>) {
    forall name, m, other :: Bind(name, m) in es && Bind(name, other) in es ==> m == other
  }

  ghost predicate TableIs(t: map<string, string>, es: seq<Effect>) {
    forall name, m :: (name in t && t[name] == m) <==> Bind(name, m) in es
  }

  /** In general a table entry is one of the bindings, and every bound name has an entry. */
  lemma {:induction false} BoundIsSomeBinding(es: seq<Effect>)
    ensures forall name :: name in Bound(map[], es) ==> Bind(name, Bound(map[], es)[name]) in es
    ensures forall name, m :: Bind(name, m) in es ==> name in Bound(map[], es)
  {
    if es != [] {
      BoundIsSomeBinding(es[..|es| - 1]);
      assert es == es[..|es| - 1] + [es[|es| - 1]];
    }
  }

  lemma TableIsSomeBinding(ctx: Context, params: seq<Field>, body: Node)
    ensures var t, es := Table(ctx, EntryParams(ctx, params), body), FunctionEffects(ctx, params, body);
            (forall name :: name in t ==> Bind(name, t[name]) in es) && forall name, m :: Bind(name, m) in es ==> name in t
  {
    hide Bound, EffectsOf, ParamBinds, Preorder;
    BoundAppend(map[], ParamBinds(params, ctx.imports), EffectsOf(ctx, Preorder(body)));
    BoundIsSomeBinding(FunctionEffects(ctx, params, body));
  }

  /** The table holds exactly the function's bindings, whatever their order, if and only if
      no identifier is bound to two modules. */
  lemma TableIsExact(ctx: Context, params: seq<Field>, body: Node)
    ensures TableIs(Table(ctx, EntryParams(ctx, params), body), FunctionEffects(ctx, params, body)) <==>
            Consistent(FunctionEffects(ctx, params, body))
  {
    hide Table, FunctionEffects;
    TableIsSomeBinding(ctx, params, body);
  }

  // What the scopes hold is among the bindings the first pass finds.

  ghost predicate Among(es: seq<Effect>, all: seq<Effect>) {
    forall e :: e in es ==> e in all
  }

  ghost predicate Held(all: seq<Effect>, name: string, m: string) {
    m == "" || Bind(name, m) in all
  }

  ghost predicate ScopeSound(s: map<string, string>, all: seq<Effect>) {
    forall name :: name in s ==> Held(all, name, s[name])
  }

  ghost predicate Sound(env: Scopes, all: seq<Effect>) {
    forall i :: 0 <= i < |env| ==> ScopeSound(env[i], all)
  }

  lemma {:induction false} FindSound(env: Scopes, name: string, all: seq<Effect>)
    requires Sound(env, all)
    ensures Find(env, name).Some? ==> Held(all, name, Find(env, name).value)
  {
    if env != [] {
      assert ScopeSound(env[|env| - 1], all);
      FindSound(env[..|env| - 1], name, all);
    }
  }

  lemma {:induction false} UpdateSound(env: Scopes, name: string, m: string, all: seq<Effect>)
    requires env != [] && Sound(env, all) && Held(all, name, m)
    ensures Sound(Update(env, name, m), all) && Sound(Declare(env, name, m), all)
  {
    assert ScopeSound(env[|env| - 1], all);
    if |env| > 1 {
      UpdateSound(env[..|env| - 1], name, m, all);
    }
  }

  ghost predicate AllHeld(lhs: seq<Node>, modules: seq<string>, all: seq<Effect>)
    requires |lhs| == |modules|
  {
    forall k :: 0 <= k < |lhs| && lhs[k].Ident? && lhs[k].name != "_" ==> Held(all, lhs[k].name, modules[k])
  }

  lemma {:induction false} StoreAllSound(env: Scopes, define: bool, lhs: seq<Node>, modules: seq<string>, all: seq<Effect>)
    requires env != [] && |lhs| == |modules| && Sound(env, all) && AllHeld(lhs, modules, all)
    ensures Sound(StoreAll(env, define, lhs, modules), all)
    decreases |lhs|
  {
    hide Sound, Held, Update, Declare;
    if lhs != [] {
      if lhs[0].Ident? && lhs[0].name != "_" {
        UpdateSound(env, lhs[0].name, modules[0], all);
      }
      StoreAllSound(Store(env, define, lhs[0], modules[0]), define, lhs[1..], modules[1..], all);
    }
  }

  lemma AssignedHeld(ctx: Context, env: Scopes, lhs: seq<Node>, rhs: seq<Node>, all: seq<Effect>)
    requires Among(AssignEffects(ctx, lhs, rhs), all)
    ensures AllHeld(lhs, Assigned(ctx, env, lhs, rhs), all)
  {
    hide AssignEffects, Yields, Find;
    var modules := Assigned(ctx, env, lhs, rhs);
    forall k | 0 <= k < |lhs| && lhs[k].Ident? && lhs[k].name != "_" && modules[k] != ""
      ensures Held(all, lhs[k].name, modules[k])
    {
      AssignBindExact(ctx, lhs, rhs, lhs[k].name, modules[k]);
      if |lhs| == |rhs| {
        assert Yields(ctx, rhs[k], 1, 0, modules[k]);
      }
      assert AssignGives(ctx, lhs, rhs, lhs[k].name, modules[k]);
    }
  }

  lemma {:induction false} PagesHas(ctx: Context, es: seq<Effect>, e: Effect)
    requires e in es && e.Page?
    ensures Credit(e.m, e.op, Evidence(ctx.file, e.line)) in Pages(ctx, es)
  {
    var i := |es| - 1;
    if es[i] != e {
      assert es == es[..i] + [es[i]];
      PagesHas(ctx, es[..i], e);
    }
  }

  lemma {:induction false} PagesInHas(ctx: Context, env: Scopes, rhs: seq<Node>, f: Found)
    requires f in PagesIn(ctx, env, rhs)
    ensures f.ByPage? && exists i, m, op :: 0 <= i < |rhs| && Paginates(ctx, rhs[i], m, op) &&
                                            f.credit == Credit(m, op, Evidence(ctx.file, rhs[i].line))
  {
    hide Paginates, Hidden;
    PaginatesAllCalls(ctx, rhs);
    var n := |rhs| - 1;
    if f in PagesIn(ctx, env, rhs[..n]) {
      PagesInHas(ctx, env, rhs[..n], f);
      PaginatesAllCalls(ctx, rhs[..n]);
      var i, m, op :| 0 <= i < n && Paginates(ctx, rhs[..n][i], m, op) &&
                      f.credit == Credit(m, op, Evidence(ctx.file, rhs[..n][i].line));
      assert rhs[..n][i] == rhs[i];
    } else {
      var m, op :| Paginates(ctx, rhs[n], m, op) && f == ByPage(Credit(m, op, Evidence(ctx.file, rhs[n].line)));
    }
  }

  lemma PagesHeld(ctx: Context, env: Scopes, lhs: seq<Node>, rhs: seq<Node>, f: Found)
    requires Fits(|lhs|, |rhs|) && f in PagesIn(ctx, env, rhs)
    ensures f.ByPage? && f.credit in Pages(ctx, AssignEffects(ctx, lhs, rhs))
  {
    hide Paginates, PagesIn, AssignEffects;
    PagesInHas(ctx, env, rhs, f);
    PaginatesAllCalls(ctx, rhs);
    var i, m, op :| 0 <= i < |rhs| && Paginates(ctx, rhs[i], m, op) && f.credit == Credit(m, op, Evidence(ctx.file, rhs[i].line));
    AssignPageExact(ctx, lhs, rhs, m, op, rhs[i].line);
    PagesHas(ctx, AssignEffects(ctx, lhs, rhs), Page(m, op, rhs[i].line));
  }

  lemma AfterNodeSound(ctx: Context, env: Scopes, n: Node, all: seq<Effect>)
    requires env != [] && Sound(env, all) && Among(Effects(ctx, n), all)
    ensures Sound(AfterNode(ctx, env, n), all)
  {
    hide Sound, Among, AssignEffects, Assigned, StoreAll, ParamBinds;
    match n
    case Assign(define, lhs, rhs) =>
      AssignedHeld(ctx, env, lhs, rhs, all);
      StoreAllSound(env, define, lhs, Assigned(ctx, env, lhs, rhs), all);
    case ValueSpec(names, _, values) =>
      AssignedHeld(ctx, env, Idents(names), values, all);
      StoreAllSound(env, true, Idents(names), Assigned(ctx, env, Idents(names), values), all);
    case RangeClause(rdefine, vars, _) =>
      StoreAllSound(env, rdefine, vars, Blank(|vars|), all);
    case _ =>
  }

  lemma NodePagesHeld(ctx: Context, env: Scopes, n: Node, c: Found)
    requires c in NodePages(ctx, env, n)
    ensures c.ByPage? && c.credit in Pages(ctx, Effects(ctx, n))
  {
    hide Fits, PagesIn, Pages, AssignEffects;
    match n
    case Assign(_, lhs, rhs) => PagesHeld(ctx, env, lhs, rhs, c);
    case ValueSpec(names, _, values) => PagesHeld(ctx, env, Idents(names), values, c);
    case _ =>
  }

  /** A call found in the tree, on an identifier that is somewhere bound to that module. */
  ghost predicate BoundCall(ctx: Context, all: seq<Effect>, f: Found) {
    f.ByCall? && CallsByName(f.node) && Bind(f.node.fun.x.name, f.credit.m) in all &&
    f.credit == CreditAt(ctx, f.node, f.credit.m)
  }

  lemma NodeCallHeld(ctx: Context, env: Scopes, n: Node, all: seq<Effect>, f: Found)
    requires Sound(env, all) && f in NodeCall(ctx, env, n)
    ensures BoundCall(ctx, all, f) && f.node == n
  {
    hide IsAlnumName, Find;
    FindSound(env, n.fun.x.name, all);
  }

  lemma {:induction false} NameScopeSound(names: seq<string>, m: string, s: map<string, string>, all: seq<Effect>)
    requires ScopeSound(s, all) && forall k :: 0 <= k < |names| && names[k] != "_" ==> Held(all, names[k], m)
    ensures ScopeSound(NameScope(names, m, s), all)
  {
    if names != [] {
      NameScopeSound(names[1..], m, if names[0] == "_" then s else s[names[0] := m], all);
    }
  }

  lemma {:induction false} ParamScopeSound(params: seq<Field>, imports: map<string, string>, all: seq<Effect>)
    requires Among(ParamBinds(params, imports), all)
    ensures ScopeSound(ParamScope(params, imports), all)
  {
    hide ParamBinds, IsClientType, NameScope;
    if params != [] {
      var i := |params| - 1;
      var names, m := params[i].names, TypeModule(params[i].typ, imports);
      assert ParamBinds(params, imports) == ParamBinds(params[..i], imports) + LastParam(params, imports) by { ParamsSplit(params, imports); }
      ParamScopeSound(params[..i], imports, all);
      forall k | 0 <= k < |names| && names[k] != "_" ensures Held(all, names[k], m) {
        if m != "" {
          ParamBindsExact(params, imports, names[k], m);
          assert params[i] in params && names[k] in params[i].names;
        }
      }
      NameScopeSound(names, m, ParamScope(params[..i], imports), all);
    }
  }

  function LastParam(params: seq<Field>, imports: map<string, string>): seq<Effect>
    requires params != []
  {
    var p := params[|params| - 1];
    NameBinds(p.names, ClientModule(p.typ, imports))
  }

  lemma ParamsSplit(params: seq<Field>, imports: map<string, string>)
    requires params != []
    ensures ParamBinds(params, imports) == ParamBinds(params[..|params| - 1], imports) + LastParam(params, imports)
  {
  }

  lemma NoClientWithoutImports(params: seq<Field>)
    ensures ParamBinds(params, map[]) == []
  {
  }

  lemma OpenScopeSound(ctx: Context, n: Node, all: seq<Effect>)
    requires Among(Effects(ctx, n), all)
    ensures ScopeSound(OpenScope(ctx, n), all)
  {
    hide ParamScope, ParamBinds, AssignEffects;
    if n.FuncLit? {
      NoClientWithoutImports(n.results);
      ParamScopeSound(n.results, map[], all);
      ParamScopeSound(n.params, ctx.imports, all);
    }
  }

  /** What is found within some nodes. */
  ghost predicate FoundIn(ctx: Context, all: seq<Effect>, ns: seq<Node>, f: Found) {
    if f.ByPage? then f.credit in Pages(ctx, EffectsOf(ctx, ns)) else f.node in ns && BoundCall(ctx, all, f)
  }

  lemma FoundParts(ctx: Context, all: seq<Effect>, x: seq<Node>, y: seq<Node>)
    ensures forall f :: FoundIn(ctx, all, x + y, f) <==> FoundIn(ctx, all, x, f) || FoundIn(ctx, all, y, f)
    ensures Among(EffectsOf(ctx, x + y), all) <==> Among(EffectsOf(ctx, x), all) && Among(EffectsOf(ctx, y), all)
  {
    hide EffectsOf, Pages, BoundCall;
    EffectsAppend(ctx, x, y);
    PagesAppend(ctx, EffectsOf(ctx, x), EffectsOf(ctx, y));
  }

  lemma FoundInOne(ctx: Context, all: seq<Effect>, n: Node)
    ensures forall f :: FoundIn(ctx, all, [n], f) <==>
              if f.ByPage? then f.credit in Pages(ctx, Effects(ctx, n)) else f.node == n && BoundCall(ctx, all, f)
    ensures Among(EffectsOf(ctx, [n]), all) <==> Among(Effects(ctx, n), all)
  {
    hide EffectsOf, Pages, Effects, BoundCall;
    EffectsOfOne(ctx, n);
  }

  lemma {:induction false} WalkSound(ctx: Context, env: Scopes, n: Node, all: seq<Effect>)
    requires env != [] && Sound(env, all) && Among(EffectsOf(ctx, Preorder(n)), all)
    ensures Sound(Walk(ctx, env, n).env, all)
    ensures forall f :: f in Walk(ctx, env, n).found ==> FoundIn(ctx, all, Preorder(n), f)
    decreases n, |Children(n)| + 1
  {
    hide Children, Among, FoundIn, EffectsOf, Effects, NodeCall, NodePages, AfterNode, OpenScope, ScopeSound, Opens, BoundCall;
    FoundParts(ctx, all, [n], PreorderFrom(n, 0));
    FoundInOne(ctx, all, n);
    OpenScopeSound(ctx, n, all);
    var inner := if Opens(n) then env + [OpenScope(ctx, n)] else env;
    WalkFromSound(ctx, inner, n, 0, all);
    var w := WalkFrom(ctx, inner, n, 0);
    AfterNodeSound(ctx, w.env[..|env|], n, all);
    forall f | f in NodePages(ctx, w.env, n) ensures FoundIn(ctx, all, [n], f) {
      NodePagesHeld(ctx, w.env, n, f);
    }
    forall f | f in NodeCall(ctx, env, n) ensures FoundIn(ctx, all, [n], f) {
      NodeCallHeld(ctx, env, n, all, f);
      assert f.ByCall? by { BoundCallIsCall(ctx, all, f); }
    }
  }

  lemma BoundCallIsCall(ctx: Context, all: seq<Effect>, f: Found)
    requires BoundCall(ctx, all, f)
    ensures f.ByCall?
  {
  }

  lemma {:induction false} WalkFromSound(ctx: Context, env: Scopes, n: Node, k: nat, all: seq<Effect>)
    requires env != [] && k <= |Children(n)| && Sound(env, all) && Among(EffectsOf(ctx, PreorderFrom(n, k)), all)
    ensures Sound(WalkFrom(ctx, env, n, k).env, all)
    ensures forall f :: f in WalkFrom(ctx, env, n, k).found ==> FoundIn(ctx, all, PreorderFrom(n, k), f)
    decreases n, |Children(n)| - k
  {
    hide Children, Among, FoundIn, EffectsOf, Sound, Walk;
    if k < |Children(n)| {
      ChildSmaller(n, k);
      FoundParts(ctx, all, Preorder(Children(n)[k]), PreorderFrom(n, k + 1));
      WalkSound(ctx, env, Children(n)[k], all);
      WalkFromSound(ctx, Walk(ctx, env, Children(n)[k]).env, n, k + 1, all);
    }
  }

  lemma ScopedFoundIn(ctx: Context, params: seq<Field>, body: Node, f: Found)
    requires f in ScopedFound(ctx, params, body)
    ensures FoundIn(ctx, FunctionEffects(ctx, params, body), Preorder(body), f)
  {
    hide EffectsOf, ParamBinds, Preorder, Walk, FoundIn, ParamScope, ScopeSound;
    var all := FunctionEffects(ctx, params, body);
    ParamScopeSound(params, ctx.imports, all);
    WalkSound(ctx, [ParamScope(params, ctx.imports)], body, all);
  }

  // Credit for credit.

  /** The module of the last binding of `name` in source order. */
  function LastBound(es: seq<Effect>, name: string): Option<string> {
    if es == [] then None
    else
      var e := es[|es| - 1];
      if e.Bind? && e.name == name then Some(e.m) else LastBound(es[..|es| - 1], name)
  }

  lemma {:induction false} LastBoundExact(es: seq<Effect>, name: string, m: string)
    ensures LastBound(es, name) == Some(m) <==>
            exists k :: 0 <= k < |es| && es[k] == Bind(name, m) && forall j :: k < j < |es| ==> !(es[j].Bind? && es[j].name == name)
  {
    if es != [] {
      var n := |es| - 1;
      LastBoundExact(es[..n], name, m);
      if LastBound(es, name) == Some(m) {
        if !(es[n].Bind? && es[n].name == name) {
          var k :| 0 <= k < n && es[..n][k] == Bind(name, m) && forall j :: k < j < n ==> !(es[..n][j].Bind? && es[..n][j].name == name);
          assert es[k] == Bind(name, m);
          assert forall j :: k < j < |es| ==> j == n || es[..n][j] == es[j];
        } else {
          assert es[n] == Bind(name, m);
        }
      }
      if k :| 0 <= k < |es| && es[k] == Bind(name, m) && forall j :: k < j < |es| ==> !(es[j].Bind? && es[j].name == name) {
        if k < n {
          assert es[..n][k] == Bind(name, m);
          assert forall j :: k < j < n ==> es[..n][j] == es[j];
        }
      }
    }
  }

  lemma {:induction false} TableHoldsLast(es: seq<Effect>, name: string)
    ensures var t := Bound(map[], es);
            LastBound(es, name) == if name in t then Some(t[name]) else None
  {
    if es != [] {
      TableHoldsLast(es[..|es| - 1], name);
    }
  }

  lemma LastBoundInFunction(ctx: Context, params: seq<Field>, body: Node, name: string)
    ensures var t := Table(ctx, EntryParams(ctx, params), body);
            LastBound(FunctionEffects(ctx, params, body), name) == if name in t then Some(t[name]) else None
  {
    hide Bound, EffectsOf, ParamBinds, Preorder, LastBound;
    BoundAppend(map[], ParamBinds(params, ctx.imports), EffectsOf(ctx, Preorder(body)));
    TableHoldsLast(FunctionEffects(ctx, params, body), name);
  }

  /** At a call the scoped walk credits, the flat walk gives the same credit if and only if the
      last binding of the called identifier in source order names the module the identifier
      holds there. */
  lemma CallCreditedIffLastBinding(ctx: Context, params: seq<Field>, body: Node, f: Found)
    requires f in ScopedFound(ctx, params, body) && f.ByCall?
    ensures Within(f.node, body) && CallsByName(f.node)
    ensures CallCredit(ctx, Table(ctx, EntryParams(ctx, params), body), f.node) == [f.credit] <==>
            LastBound(FunctionEffects(ctx, params, body), f.node.fun.x.name) == Some(f.credit.m)
    ensures forall c :: c in CallCredit(ctx, Table(ctx, EntryParams(ctx, params), body), f.node) ==>
                        c in CreditsOf(ctx, EntryParams(ctx, params), body)
  {
    hide ScopedFound, Preorder, Within, EffectsOf, CallCredits, CallCredit, Table, IsAlnumName, LastBound, Pages;
    ScopedFoundIn(ctx, params, body, f);
    PreorderHolds(f.node, body);
    LastBoundInFunction(ctx, params, body, f.node.fun.x.name);
    var t := Table(ctx, EntryParams(ctx, params), body);
    CallCreditExact(ctx, t, f.node);
    forall c | c in CallCredit(ctx, t, f.node) ensures c in CallCredits(ctx, t, Preorder(body)) {
      CallCreditsHas(ctx, t, Preorder(body), c);
    }
  }

  /** All bindings of `name` are to one module. */
  ghost predicate OneModule(es: seq<Effect>, name: string) {
    forall m, other :: Bind(name, m) in es && Bind(name, other) in es ==> m == other
  }

  lemma {:induction false} OnlyBindingIsLast(es: seq<Effect>, name: string, m: string)
    requires OneModule(es, name) && Bind(name, m) in es
    ensures LastBound(es, name) == Some(m)
  {
    var e := es[|es| - 1];
    assert es == es[..|es| - 1] + [e];
    if !(e.Bind? && e.name == name) {
      OnlyBindingIsLast(es[..|es| - 1], name, m);
    }
  }

  /** Every paginator the scoped walk credits is credited, and every call on an identifier whose
      bindings all name one module, whatever other identifiers do. */
  lemma SingleModuleCallsAreCredited(ctx: Context, params: seq<Field>, body: Node, f: Found)
    requires f in ScopedFound(ctx, params, body)
    requires f.ByCall? && CallsByName(f.node) ==> OneModule(FunctionEffects(ctx, params, body), f.node.fun.x.name)
    ensures f.credit in CreditsOf(ctx, EntryParams(ctx, params), body)
  {
    hide ScopedFound, Preorder, EffectsOf, CallCredits, CallCredit, Table, IsAlnumName, OneModule, LastBound, Pages;
    ScopedFoundIn(ctx, params, body, f);
    if f.ByCall? {
      CallCreditedIffLastBinding(ctx, params, body, f);
      OnlyBindingIsLast(FunctionEffects(ctx, params, body), f.node.fun.x.name, f.credit.m);
      var t := Table(ctx, EntryParams(ctx, params), body);
      assert f.credit in CallCredit(ctx, t, f.node);
    }
  }

  /** Of the identifiers the function calls through, none is bound to two modules. */
  ghost predicate CalledConsistent(ctx: Context, params: seq<Field>, body: Node) {
    forall n :: Within(n, body) && CallsByName(n) ==> OneModule(FunctionEffects(ctx, params, body), n.fun.x.name)
  }

  /** If no identifier the function calls through is bound to two modules, the flat walk
      credits every call, with its place, that a walk obeying scopes and statement order
      credits. */
  lemma ScopedCreditsAreCredited(ctx: Context, params: seq<Field>, body: Node)
    requires CalledConsistent(ctx, params, body)
    ensures forall c :: c in ScopedCredits(ctx, params, body) ==> c in CreditsOf(ctx, EntryParams(ctx, params), body)
  {
    hide ScopedFound, FunctionEffects, CreditsOf, OneModule, CallsByName, Within;
    var found := ScopedFound(ctx, params, body);
    forall c | c in ScopedCredits(ctx, params, body) ensures c in CreditsOf(ctx, EntryParams(ctx, params), body) {
      var k :| 0 <= k < |found| && found[k].credit == c;
      if found[k].ByCall? {
        CallCreditedIffLastBinding(ctx, params, body, found[k]);
      }
      SingleModuleCallsAreCredited(ctx, params, body, found[k]);
    }
  }

  /** The evidence for a credit, in the syntax of the function: an assignment or declaration
      that constructs the paginator, or a call by name on an identifier whose last binding in
      source order is to that module. */
  ghost predicate Evidenced(ctx: Context, params: seq<Field>, body: Node, c: Credit) {
    (c.at.file == ctx.file && exists n :: Within(n, body) && NodePaginates(ctx, n, c.m, c.op, c.at.line)) ||
    exists n :: Within(n, body) && CreditsCall(ctx, params, body, n, c)
  }

  ghost predicate CreditsCall(ctx: Context, params: seq<Field>, body: Node, n: Node, c: Credit) {
    CallsByName(n) && c == CreditAt(ctx, n, c.m) &&
    LastBound(FunctionEffects(ctx, params, body), n.fun.x.name) == Some(c.m)
  }

  lemma {:induction false} PagesOnly(ctx: Context, es: seq<Effect>, c: Credit)
    ensures c in Pages(ctx, es) <==> c.at.file == ctx.file && Page(c.m, c.op, c.at.line) in es
  {
    if es != [] {
      var i := |es| - 1;
      assert es == es[..i] + [es[i]];
      PagesOnly(ctx, es[..i], c);
    }
  }

  /** The walk credits exactly what there is evidence for. */
  lemma CreditsExact(ctx: Context, params: seq<Field>, body: Node, c: Credit)
    ensures c in CreditsOf(ctx, EntryParams(ctx, params), body) <==> Evidenced(ctx, params, body, c)
  {
    hide EffectsOf, Pages, CallCredits, CallCredit, Preorder, CreditsCall, Within, Table, NodePaginates, ParamBinds;
    var es := EffectsOf(ctx, Preorder(body));
    PagesOnly(ctx, es, c);
    ParamsOnlyBind(params, ctx.imports);
    PaginatorsExact(ctx, params, body, c.m, c.op, c.at.line);
    assert Page(c.m, c.op, c.at.line) in es <==> Page(c.m, c.op, c.at.line) in FunctionEffects(ctx, params, body);
    var t := Table(ctx, EntryParams(ctx, params), body);
    CallCreditsHas(ctx, t, Preorder(body), c);
    forall n ensures (n in Preorder(body) <==> Within(n, body)) &&
                     (c in CallCredit(ctx, t, n) <==> CreditsCall(ctx, params, body, n, c))
    {
      PreorderHolds(n, body);
      CallAtNode(ctx, params, body, n, c);
    }
  }

  lemma CallAtNode(ctx: Context, params: seq<Field>, body: Node, n: Node, c: Credit)
    ensures c in CallCredit(ctx, Table(ctx, EntryParams(ctx, params), body), n) <==> CreditsCall(ctx, params, body, n, c)
  {
    hide Table, LastBound, FunctionEffects, IsAlnumName, CallCredit;
    CallCreditExact(ctx, Table(ctx, EntryParams(ctx, params), body), n);
    if CallsByName(n) {
      LastBoundInFunction(ctx, params, body, n.fun.x.name);
    }
  }

  lemma MoreCreditsCoverMore(idx: Index, fewer: seq<Credit>, more: seq<Credit>, svc: string, op: string)
    requires forall c :: c in fewer ==> exists d :: d in more && d.m == c.m && d.op == c.op
    requires op in Ops(RecordAll(EMPTY, idx, fewer).covered, svc)
    ensures op in Ops(RecordAll(EMPTY, idx, more).covered, svc)
  {
    hide RecordAll, FirstGoing, Ops, Owner;
    FirstEvidenceIsKept(idx, fewer, svc, op);
    FirstEvidenceIsKept(idx, more, svc, op);
    var c :| c in fewer && GoesTo(idx, c, svc, op);
    var d :| d in more && d.m == c.m && d.op == c.op;
    assert GoesTo(idx, d, svc, op);
  }

  /** Hence the flat walk reports no operation as uncovered that the scoped walk finds covered. */
  lemma ScopedCoverageIsCovered(ctx: Context, params: seq<Field>, body: Node, idx: Index, svc: string, op: string)
    requires CalledConsistent(ctx, params, body)
    requires op in Ops(RecordAll(EMPTY, idx, ScopedCredits(ctx, params, body)).covered, svc)
    ensures op in Ops(RecordAll(EMPTY, idx, CreditsOf(ctx, EntryParams(ctx, params), body)).covered, svc)
  {
    hide *;
    ScopedCreditsAreCredited(ctx, params, body);
    MoreCreditsCoverMore(idx, ScopedCredits(ctx, params, body), CreditsOf(ctx, EntryParams(ctx, params), body), svc, op);
  }
}
