/** Go syntax trees, as much of them as the audit tools look at, and the preorder traversal
    of `ast.Inspect`. */
module GoSyntax {
  import opened Wrappers

  datatype Op = Eql | Neq | LAnd | Amp | OtherOp

  /** One parameter or result group: its names and its type. */
  datatype Field = Field(names: seq<string>, typ: Node)

  /** Optional parts are sequences of length zero or one. A selector's and a declared
      name's own identifier is kept as a string: no traversal here reacts to it. `Scope` is
      a for, range, select or type-switch statement, which opens a scope of its own; the
      variables and operand of a range statement are its `RangeClause`. `Other` is any
      remaining node. Both have their children in source order. */
  datatype Node =
    | Ident(name: string)
    | BasicLit(isString: bool, value: string)
    | Selector(x: Node, sel: string, line: int)
    | Call(fun: Node, args: seq<Node>, line: int)
    | Unary(uop: Op, operand: Node)
    | Binary(op: Op, left: Node, right: Node)
    | Star(inner: Node)
    | Assign(define: bool, lhs: seq<Node>, rhs: seq<Node>)
    | ValueSpec(names: seq<string>, typ: seq<Node>, values: seq<Node>)
    | GenDecl(isVar: bool, specs: seq<Node>)
    | If(init: seq<Node>, cond: Node, body: Node, els: seq<Node>)
    | Switch(sinit: seq<Node>, tag: seq<Node>, clauses: seq<Node>)
    | Case(labels: seq<Node>, stmts: seq<Node>)
    | FuncLit(params: seq<Field>, results: seq<Field>, fbody: Node)
    | Block(list: seq<Node>)
    | Scope(stages: seq<Node>)
    | RangeClause(rdefine: bool, vars: seq<Node>, over: Node)
    | Other(parts: seq<Node>)

  datatype FuncDecl = FuncDecl(name: string, hasRecv: bool, params: seq<Field>, results: seq<Field>, body: Option<Node>)

  function Types(fields: seq<Field>): (r: seq<Node>)
    ensures |r| == |fields| && forall k :: 0 <= k < |fields| ==> r[k] == fields[k].typ
  {
    seq(|fields|, k requires 0 <= k < |fields| => fields[k].typ)
  }

  /** The children in the order `ast.Walk` visits them. */
  function Children(n: Node): seq<Node> {
    match n
    case Ident(_) => []
    case BasicLit(_, _) => []
    case Selector(x, _, _) => [x]
    case Call(fun, args, _) => [fun] + args
    case Unary(_, operand) => [operand]
    case Binary(_, left, right) => [left, right]
    case Star(inner) => [inner]
    case Assign(_, lhs, rhs) => lhs + rhs
    case ValueSpec(_, typ, values) => typ + values
    case GenDecl(_, specs) => specs
    case If(init, cond, body, els) => init + [cond, body] + els
    case Switch(sinit, tag, clauses) => sinit + tag + clauses
    case Case(labels, stmts) => labels + stmts
    case FuncLit(params, results, fbody) => Types(params) + Types(results) + [fbody]
    case Block(list) => list
    case Scope(stages) => stages
    case RangeClause(_, vars, over) => vars + [over]
    case Other(parts) => parts
  }

  ghost predicate ListsThen(cs: seq<Node>, at: nat, part: seq<Node>) {
    at + |part| <= |cs| && forall k :: 0 <= k < |part| ==> cs[at + k] == part[k]
  }

  /** No part of an expression is missed, and the parts come in the order of the source text:
      the function before its arguments; of a closure, parameters before results before the
      body (`ClosureChildrenExact`). */
  lemma ExprChildrenExact(n: Node)
    ensures n.Ident? || n.BasicLit? ==> Children(n) == []
    ensures n.Selector? ==> Children(n) == [n.x]
    ensures n.Unary? ==> Children(n) == [n.operand]
    ensures n.Star? ==> Children(n) == [n.inner]
    ensures n.Binary? ==> |Children(n)| == 2 && Children(n)[0] == n.left && Children(n)[1] == n.right
    ensures n.Call? ==> |Children(n)| == 1 + |n.args| && Children(n)[0] == n.fun && ListsThen(Children(n), 1, n.args)
    ensures n.Other? ==> Children(n) == n.parts
  {
    hide ListsThen;
    if n.Call? { TwoParts([n.fun], n.args); }
  }

  lemma TwoParts(a: seq<Node>, b: seq<Node>)
    ensures ListsThen(a + b, 0, a) && ListsThen(a + b, |a|, b)
  {
  }

  lemma ClosureChildrenExact(n: Node)
    requires n.FuncLit?
    ensures var p, r := |n.params|, |n.results|;
            |Children(n)| == p + r + 1 && Children(n)[p + r] == n.fbody &&
            ListsThen(Children(n), 0, Types(n.params)) && ListsThen(Children(n), p, Types(n.results))
  {
    var ps, rs := Types(n.params), Types(n.results);
    assert Children(n) == ps + rs + [n.fbody];
    hide *;
    ThreeParts(ps, rs, n.fbody);
  }

  lemma ThreeParts(a: seq<Node>, b: seq<Node>, last: Node)
    ensures var all := a + b + [last];
            |all| == |a| + |b| + 1 && all[|a| + |b|] == last && ListsThen(all, 0, a) && ListsThen(all, |a|, b)
  {
  }

  /** The same for statements and declarations: the left side before the right, the condition
      before the branches, the labels of a case before its statements. */
  lemma StmtChildrenExact(n: Node)
    ensures n.Assign? ==> |Children(n)| == |n.lhs| + |n.rhs| && ListsThen(Children(n), 0, n.lhs) && ListsThen(Children(n), |n.lhs|, n.rhs)
    ensures n.ValueSpec? ==> |Children(n)| == |n.typ| + |n.values| &&
                             ListsThen(Children(n), 0, n.typ) && ListsThen(Children(n), |n.typ|, n.values)
    ensures n.GenDecl? ==> Children(n) == n.specs
    ensures n.Case? ==> |Children(n)| == |n.labels| + |n.stmts| &&
                        ListsThen(Children(n), 0, n.labels) && ListsThen(Children(n), |n.labels|, n.stmts)
    ensures n.Block? ==> Children(n) == n.list
    ensures n.Scope? ==> Children(n) == n.stages
    ensures n.RangeClause? ==> |Children(n)| == |n.vars| + 1 && ListsThen(Children(n), 0, n.vars) && Children(n)[|n.vars|] == n.over
  {
  }

  lemma BranchChildrenExact(n: Node)
    ensures n.If? ==> var i := |n.init|;
                      |Children(n)| == i + 2 + |n.els| && ListsThen(Children(n), 0, n.init) &&
                      Children(n)[i] == n.cond && Children(n)[i + 1] == n.body && ListsThen(Children(n), i + 2, n.els)
    ensures n.Switch? ==> var i := |n.sinit| + |n.tag|;
                          |Children(n)| == i + |n.clauses| && ListsThen(Children(n), 0, n.sinit) &&
                          ListsThen(Children(n), |n.sinit|, n.tag) && ListsThen(Children(n), i, n.clauses)
  {
  }

  lemma ChildSmaller(n: Node, k: nat)
    requires k < |Children(n)|
    ensures Children(n)[k] < n
  {
  }

  /** The nodes `ast.Inspect` visits when every callback returns true, in order. */
  function Preorder(n: Node): seq<Node>
    decreases n, |Children(n)| + 1
  {
    [n] + PreorderFrom(n, 0)
  }

  /** The preorder of the children from index `k` on. */
  function PreorderFrom(n: Node, k: nat): seq<Node>
    requires k <= |Children(n)|
    decreases n, |Children(n)| - k
  {
    if k == |Children(n)| then []
    else
      ChildSmaller(n, k);
      Preorder(Children(n)[k]) + PreorderFrom(n, k + 1)
  }

  /** A node comes before all that is below it, and everything below a child before anything
      below a later child. */
  lemma PreorderInOrder(n: Node, i: nat, j: nat) returns (a: seq<Node>, b: seq<Node>, c: seq<Node>)
    requires i < j < |Children(n)|
    ensures Preorder(n) == [n] + a + Preorder(Children(n)[i]) + b + Preorder(Children(n)[j]) + c
  {
    hide *;
    a := SkipTo(n, 0, i);
    b := SkipTo(n, i + 1, j);
    c := PreorderFrom(n, j + 1);
    PreorderIs(n);
    NextSibling(n, i);
    NextSibling(n, j);
    Regroup([n], a, Preorder(Children(n)[i]), b, Preorder(Children(n)[j]), c);
  }

  lemma NextSibling(n: Node, k: nat)
    requires k < |Children(n)|
    ensures PreorderFrom(n, k) == Preorder(Children(n)[k]) + PreorderFrom(n, k + 1)
  {
    hide Children, Preorder;
  }

  lemma Regroup(n: seq<Node>, a: seq<Node>, x: seq<Node>, b: seq<Node>, y: seq<Node>, c: seq<Node>)
    ensures n + (a + (x + (b + (y + c)))) == n + a + x + b + y + c
  {
  }

  lemma PreorderIs(n: Node)
    ensures Preorder(n) == [n] + PreorderFrom(n, 0)
  {
  }

  lemma {:induction false} SkipTo(n: Node, k: nat, i: nat) returns (a: seq<Node>)
    requires k <= i <= |Children(n)|
    ensures PreorderFrom(n, k) == a + PreorderFrom(n, i)
    decreases i - k
  {
    hide Children, Preorder;
    if k == i {
      a := [];
    } else {
      a := SkipTo(n, k + 1, i);
      a := Preorder(Children(n)[k]) + a;
    }
  }

  /** `m` is `n` or lies somewhere below it. */
  ghost predicate Within(m: Node, n: Node)
    decreases n
  {
    m == n || exists k :: 0 <= k < |Children(n)| && (ChildSmaller(n, k); Within(m, Children(n)[k]))
  }

  lemma {:induction false} PreorderFromHolds(m: Node, n: Node, k: nat)
    requires k <= |Children(n)|
    ensures m in PreorderFrom(n, k) <==> exists j :: k <= j < |Children(n)| && Within(m, Children(n)[j])
    decreases n, |Children(n)| - k
  {
    hide Children;
    if k < |Children(n)| {
      ChildSmaller(n, k);
      PreorderHolds(m, Children(n)[k]);
      PreorderFromHolds(m, n, k + 1);
    }
  }

  /** The traversal reaches exactly the nodes of the tree. */
  lemma {:induction false} PreorderHolds(m: Node, n: Node)
    ensures m in Preorder(n) <==> Within(m, n)
    decreases n, |Children(n)| + 1
  {
    hide Children;
    PreorderFromHolds(m, n, 0);
  }

  /** The first element satisfying `p`. */
  function FirstMatch(ns: seq<Node>, p: Node -> bool): (r: Option<Node>)
    ensures r.Some? ==> r.value in ns && p(r.value)
    ensures r.None? ==> forall m :: m in ns ==> !p(m)
  {
    if ns == [] then None else if p(ns[0]) then Some(ns[0]) else FirstMatch(ns[1..], p)
  }

  lemma {:induction false} FirstMatchAppend(a: seq<Node>, b: seq<Node>, p: Node -> bool)
    ensures FirstMatch(a + b, p) == if FirstMatch(a, p).Some? then FirstMatch(a, p) else FirstMatch(b, p)
  {
    if a == [] {
      assert a + b == b;
    } else {
      assert (a + b)[1..] == a[1..] + b;
      FirstMatchAppend(a[1..], b, p);
    }
  }

  /** `ast.Inspect` with a callback that records the first node satisfying `p` and returns
      false from then on: siblings and descendants of a match are skipped. */
  class Finder {
    var found: Option<Node>

    constructor ()
      ensures found == None
    {
      found := None;
    }

    method Inspect(n: Node, p: Node -> bool)
      modifies this
      ensures found == if old(found).Some? then old(found) else FirstMatch(Preorder(n), p)
      decreases n
    {
      hide Children;
      if found.Some? {
        return;
      }
      if p(n) {
        found := Some(n);
        return;
      }
      assert FirstMatch(Preorder(n), p) == FirstMatch(PreorderFrom(n, 0), p) by {
        assert Preorder(n)[1..] == PreorderFrom(n, 0);
      }
      for k := 0 to |Children(n)|
        invariant found.None? ==> FirstMatch(Preorder(n), p) == FirstMatch(PreorderFrom(n, k), p)
        invariant found.Some? ==> found == FirstMatch(Preorder(n), p)
      {
        ChildSmaller(n, k);
        FirstMatchAppend(Preorder(Children(n)[k]), PreorderFrom(n, k + 1), p);
        Inspect(Children(n)[k], p);
      }
    }
  }

  method FindFirst(root: Node, p: Node -> bool) returns (r: Option<Node>)
    ensures r == FirstMatch(Preorder(root), p)
  {
    var f := new Finder();
    f.Inspect(root, p);
    r := f.found;
  }
}
