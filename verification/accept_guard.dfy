/** cmd/acceptguard/scan.go: finding where a request struct's field is read, and telling a
    tolerated fallback from an invented member. */
module AcceptGuard {
  import opened Text
  import opened Sequences
  import opened GoSyntax
  import SdkCache
  import opened Wrappers

  /** The case-folded input members of one SDK operation. */
  datatype OpFields = OpFields(folded: set<string>)

  predicate Has(f: OpFields, name: string) {
    Lower(name) in f.folded
  }

  /** The look-up ignores letter case. */
  lemma HasIgnoresCase(f: OpFields, a: string, b: string)
    requires SameLetters(a, b)
    ensures Has(f, a) <==> Has(f, b)
  {
    LowerIgnoresCase(a, b);
  }

  /** Looked up in the names the SDK gives for an operation: a name is found iff it is an input
      field in some spelling, or its lower case is a member or alternative of the type such a
      field is declared as. */
  lemma HasSdkName(facts: SdkCache.Facts, fields: seq<SdkCache.InputField>, f: OpFields, name: string)
    requires f.folded == SdkCache.Folded(facts, fields)
    ensures Has(f, name) <==>
            exists k :: 0 <= k < |fields| &&
              (SameLetters(name, fields[k].name) || SdkCache.InDeclaredType(facts, fields[k].typ, Lower(name)))
  {
    hide SameLetters, SdkCache.Folded, SdkCache.InDeclaredType, Lower;
    SdkCache.FoldedExact(facts, fields, Lower(name));
    forall k | 0 <= k < |fields| ensures Lower(name) == Lower(fields[k].name) <==> SameLetters(name, fields[k].name) {
      LowerIgnoresCase(name, fields[k].name);
    }
  }

  // Is a member only a fallback for a real one?

  /** `<ident> == ""` or `<ident> != ""`, or the leftmost operand of an `&&` chain. */
  function ZeroGuardedIdent(cond: Node): Option<string> {
    if !cond.Binary? then None
    else if cond.op == LAnd then ZeroGuardedIdent(cond.left)
    else if cond.op != Eql && cond.op != Neq then None
    else if !cond.left.Ident? then None
    else if !cond.right.BasicLit? || !cond.right.isString || cond.right.value != "\"\"" then None
    else Some(cond.left.name)
  }

  /** A single assignment `ident = <expr>.<sel>`. */
  predicate AssignsSelector(n: Node, ident: string) {
    n.Assign? && |n.lhs| == 1 && |n.rhs| == 1 && n.lhs[0] == Ident(ident) && n.rhs[0].Selector?
  }

  predicate AssignsField(n: Node, ident: string, field: string) {
    AssignsSelector(n, ident) && n.rhs[0].sel == field
  }

  predicate AssignsReal(n: Node, ident: string, opFields: OpFields) {
    AssignsSelector(n, ident) && Has(opFields, n.rhs[0].sel)
  }

  predicate AssignsIdentFromField(block: Node, ident: string, field: string) {
    FirstMatch(Preorder(block), n => AssignsField(n, ident, field)).Some?
  }

  predicate IdentAssignedFromRealField(body: Node, ident: string, opFields: OpFields) {
    FirstMatch(Preorder(body), n => AssignsReal(n, ident, opFields)).Some?
  }

  /** The test the outer traversal applies to one node. */
  predicate IsFallbackIf(n: Node, body: Node, field: string, opFields: OpFields) {
    n.If? &&
    var alias := ZeroGuardedIdent(n.cond);
    alias.Some? && AssignsIdentFromField(n.body, alias.value, field) &&
    IdentAssignedFromRealField(body, alias.value, opFields)
  }

  class FallbackSearch {
    var found: bool

    constructor ()
      ensures !found
    {
      found := false;
    }

    /** The outer traversal; its callback runs two traversals of its own. */
    method Inspect(n: Node, body: Node, field: string, opFields: OpFields)
      modifies this
      ensures found == (old(found) || FirstMatch(Preorder(n), m => IsFallbackIf(m, body, field, opFields)).Some?)
      decreases n
    {
      hide Children, IsFallbackIf;
      if found {
        return;
      }
      var hit := CheckNode(n, body, field, opFields);
      if hit {
        found := true;
        return;
      }
      var p := m => IsFallbackIf(m, body, field, opFields);
      assert FirstMatch(Preorder(n), p) == FirstMatch(PreorderFrom(n, 0), p) by {
        assert Preorder(n)[1..] == PreorderFrom(n, 0);
      }
      for k := 0 to |Children(n)|
        invariant !found ==> FirstMatch(Preorder(n), p) == FirstMatch(PreorderFrom(n, k), p)
        invariant found ==> FirstMatch(Preorder(n), p).Some?
      {
        ChildSmaller(n, k);
        FirstMatchAppend(Preorder(Children(n)[k]), PreorderFrom(n, k + 1), p);
        Inspect(Children(n)[k], body, field, opFields);
      }
    }

    method CheckNode(n: Node, body: Node, field: string, opFields: OpFields) returns (hit: bool)
      ensures hit == IsFallbackIf(n, body, field, opFields)
    {
      if !n.If? {
        return false;
      }
      var alias := ZeroGuardedIdent(n.cond);
      if alias.None? {
        return false;
      }
      var aliased := FindFirst(n.body, m => AssignsField(m, alias.value, field));
      if aliased.None? {
        return false;
      }
      var isReal := FindFirst(body, m => AssignsReal(m, alias.value, opFields));
      return isReal.Some?;
    }
  }

  method IsToleratedFallback(fd: Option<FuncDecl>, field: string, opFields: OpFields) returns (r: bool)
    requires fd.Some? ==> fd.value.body.Some?
    ensures r <==> fd.Some? && ToleratedFallback(fd.value.body.value, field, opFields)
  {
    if fd.None? {
      return false;
    }
    var search := new FallbackSearch();
    search.Inspect(fd.value.body.value, fd.value.body.value, field, opFields);
    FallbackExact(fd.value.body.value, field, opFields);
    r := search.found;
  }

  // The same question asked of the tree, without traversal order or early exits.

  /** `c0 && c1 && ... && cn`, as Go groups it. */
  function Conjunction(cs: seq<Node>): Node
    requires cs != []
  {
    var n := |cs| - 1;
    if n == 0 then cs[0] else Binary(LAnd, Conjunction(cs[..n]), cs[n])
  }

  predicate ComparesWithEmpty(c: Node, ident: string) {
    c.Binary? && (c.op == Eql || c.op == Neq) && c.left == Ident(ident) && c.right == BasicLit(true, "\"\"")
  }

  /** `cond` is an `&&` chain, possibly of one operand, whose first operand compares `ident`
      with the empty string. */
  ghost predicate GuardsOn(cond: Node, ident: string) {
    exists cs: seq<Node> :: cs != [] && cond == Conjunction(cs) && ComparesWithEmpty(cs[0], ident)
  }

  /** Somewhere below `root` stands `ident = <expr>.<sel>` or `ident := <expr>.<sel>`. */
  ghost predicate AssignedFrom(root: Node, ident: string, sel: string) {
    exists define, x, line :: Within(Assign(define, [Ident(ident)], [Selector(x, sel, line)]), root)
  }

  /** Some `if` in the body guards on an identifier being empty, assigns it from the field
      inside its own block, and the body assigns the same identifier from a member of the
      operation's input. */
  ghost predicate ToleratedFallback(body: Node, field: string, opFields: OpFields) {
    exists n, ident, known ::
      Within(n, body) && n.If? && GuardsOn(n.cond, ident) && AssignedFrom(n.body, ident, field) &&
      AssignedFrom(body, ident, known) && Lower(known) in opFields.folded
  }

  lemma {:induction false} GuardFound(cond: Node, ident: string)
    requires ZeroGuardedIdent(cond) == Some(ident)
    ensures GuardsOn(cond, ident)
  {
    if cond.op == LAnd {
      GuardFound(cond.left, ident);
      var cs: seq<Node> :| cs != [] && cond.left == Conjunction(cs) && ComparesWithEmpty(cs[0], ident);
      var more := cs + [cond.right];
      assert more[..|cs|] == cs && more[0] == cs[0];
      assert cond == Conjunction(more);
    } else {
      assert cond == Conjunction([cond]);
      assert [cond][0] == cond && ComparesWithEmpty([cond][0], ident);
    }
  }

  lemma {:induction false} GuardOfConjunction(cs: seq<Node>, ident: string)
    requires cs != [] && ComparesWithEmpty(cs[0], ident)
    ensures ZeroGuardedIdent(Conjunction(cs)) == Some(ident)
  {
    if |cs| > 1 {
      GuardOfConjunction(cs[..|cs| - 1], ident);
    }
  }

  /** The first operand of the chain decides, and nothing after it matters. */
  lemma GuardExact(cond: Node, ident: string)
    ensures ZeroGuardedIdent(cond) == Some(ident) <==> GuardsOn(cond, ident)
  {
    hide Conjunction, ComparesWithEmpty, ZeroGuardedIdent;
    if ZeroGuardedIdent(cond) == Some(ident) {
      GuardFound(cond, ident);
    }
    if GuardsOn(cond, ident) {
      var cs: seq<Node> :| cs != [] && cond == Conjunction(cs) && ComparesWithEmpty(cs[0], ident);
      GuardOfConjunction(cs, ident);
    }
  }

  lemma MatchIsWithin(root: Node, p: Node -> bool)
    ensures FirstMatch(Preorder(root), p).Some? <==> exists m :: Within(m, root) && p(m)
  {
    hide Preorder, Within;
    var r := FirstMatch(Preorder(root), p);
    if r.Some? {
      PreorderHolds(r.value, root);
    }
    forall m | Within(m, root) ensures m in Preorder(root) { PreorderHolds(m, root); }
  }

  lemma AssignsSelectorExact(n: Node, ident: string)
    ensures AssignsSelector(n, ident) <==> exists define, x, sel, line :: n == Assign(define, [Ident(ident)], [Selector(x, sel, line)])
    ensures AssignsSelector(n, ident) ==>
              n == Assign(n.define, [Ident(ident)], [Selector(n.rhs[0].x, n.rhs[0].sel, n.rhs[0].line)])
  {
  }

  lemma AssignsExact(block: Node, ident: string, field: string)
    ensures AssignsIdentFromField(block, ident, field) <==> AssignedFrom(block, ident, field)
  {
    hide FirstMatch, Preorder, Within;
    var p := m => AssignsField(m, ident, field);
    MatchIsWithin(block, p);
    if a :| Within(a, block) && AssignsField(a, ident, field) {
      AssignsSelectorExact(a, ident);
    }
    if define, x, line :| Within(Assign(define, [Ident(ident)], [Selector(x, field, line)]), block) {
      assert p(Assign(define, [Ident(ident)], [Selector(x, field, line)]));
    }
  }

  lemma RealFound(body: Node, b: Node, ident: string, opFields: OpFields)
    requires Within(b, body) && AssignsReal(b, ident, opFields)
    ensures exists known :: AssignedFrom(body, ident, known) && Lower(known) in opFields.folded
  {
    hide Within, Lower;
    AssignsSelectorExact(b, ident);
    assert AssignedFrom(body, ident, b.rhs[0].sel);
  }

  lemma RealOf(body: Node, ident: string, known: string, opFields: OpFields) returns (b: Node)
    requires AssignedFrom(body, ident, known) && Lower(known) in opFields.folded
    ensures Within(b, body) && AssignsReal(b, ident, opFields)
  {
    hide Within, Lower;
    var define, x, line :| Within(Assign(define, [Ident(ident)], [Selector(x, known, line)]), body);
    b := Assign(define, [Ident(ident)], [Selector(x, known, line)]);
  }

  lemma RealExact(body: Node, ident: string, opFields: OpFields)
    ensures IdentAssignedFromRealField(body, ident, opFields) <==>
            exists known :: AssignedFrom(body, ident, known) && Lower(known) in opFields.folded
  {
    hide FirstMatch, Preorder, Within, AssignsReal, AssignedFrom, Lower;
    var p := m => AssignsReal(m, ident, opFields);
    MatchIsWithin(body, p);
    if b :| Within(b, body) && AssignsReal(b, ident, opFields) {
      RealFound(body, b, ident, opFields);
    }
    if known :| AssignedFrom(body, ident, known) && Lower(known) in opFields.folded {
      var b := RealOf(body, ident, known, opFields);
      assert p(b);
    }
  }

  lemma FallbackIfExact(n: Node, body: Node, field: string, opFields: OpFields)
    ensures IsFallbackIf(n, body, field, opFields) <==>
            exists ident, known :: n.If? && GuardsOn(n.cond, ident) && AssignedFrom(n.body, ident, field) &&
                                  AssignedFrom(body, ident, known) && Lower(known) in opFields.folded
  {
    hide GuardsOn, ZeroGuardedIdent, AssignedFrom, AssignsIdentFromField, IdentAssignedFromRealField, Lower;
    if n.If? && ZeroGuardedIdent(n.cond).Some? {
      var alias := ZeroGuardedIdent(n.cond).value;
      GuardExact(n.cond, alias);
      AssignsExact(n.body, alias, field);
      RealExact(body, alias, opFields);
    }
    forall ident: string | n.If? && GuardsOn(n.cond, ident) ensures ZeroGuardedIdent(n.cond) == Some(ident) {
      GuardExact(n.cond, ident);
    }
  }

  lemma FallbackExact(body: Node, field: string, opFields: OpFields)
    ensures FirstMatch(Preorder(body), m => IsFallbackIf(m, body, field, opFields)).Some? <==>
            ToleratedFallback(body, field, opFields)
  {
    hide FirstMatch, Preorder, Within, GuardsOn, AssignedFrom, IsFallbackIf, Lower;
    var p := m => IsFallbackIf(m, body, field, opFields);
    MatchIsWithin(body, p);
    forall n ensures p(n) <==> exists ident, known ::
        n.If? && GuardsOn(n.cond, ident) && AssignedFrom(n.body, ident, field) &&
        AssignedFrom(body, ident, known) && Lower(known) in opFields.folded
    {
      FallbackIfExact(n, body, field, opFields);
    }
  }

  // Where a field is read.

  predicate ReadsField(n: Node, varName: string, field: string) {
    n.Selector? && n.sel == field && n.x == Ident(varName)
  }

  /** The line of the first `<varName>.<field>` in source order. */
  method SelectorLine(body: Node, varName: string, field: string) returns (line: Option<int>)
    ensures line == match FirstMatch(Preorder(body), n => ReadsField(n, varName, field))
                    case Some(n) => Some(n.line)
                    case None => None
  {
    var first := FindFirst(body, n => ReadsField(n, varName, field));
    line := if first.Some? then Some(first.value.line) else None;
  }

  predicate TypeIsNamed(t: Node, name: string) {
    (if t.Star? then t.inner else t) == Ident(name)
  }

  function ParamNamesOfType(params: seq<Field>, structName: string): seq<string> {
    if params == [] then []
    else
      var n := |params| - 1;
      ParamNamesOfType(params[..n], structName) + if TypeIsNamed(params[n].typ, structName) then params[n].names else []
  }

  function SpecNames(specs: seq<Node>, structName: string): seq<string> {
    if specs == [] then []
    else
      var n := |specs| - 1;
      SpecNames(specs[..n], structName) +
      if specs[n].ValueSpec? && specs[n].typ != [] && TypeIsNamed(specs[n].typ[0], structName) then specs[n].names else []
  }

  function DeclNames(ns: seq<Node>, structName: string): seq<string> {
    if ns == [] then []
    else
      (if ns[0].GenDecl? && ns[0].isVar then SpecNames(ns[0].specs, structName) else []) + DeclNames(ns[1..], structName)
  }

  /** Every local identifier the function binds to the struct, parameters first. */
  function BoundVarNames(fd: FuncDecl, structName: string): seq<string>
    requires fd.body.Some?
  {
    ParamNamesOfType(fd.params, structName) + DeclNames(Preorder(fd.body.value), structName)
  }

  predicate NamesStruct(t: Node, structName: string) {
    t == Ident(structName) || t == Star(Ident(structName))
  }

  /** A `var` declaration of the struct or of a pointer to it that lists `v`. */
  ghost predicate DeclaresVar(d: Node, structName: string, v: string) {
    d.GenDecl? && d.isVar && exists spec :: spec in d.specs && spec.ValueSpec? && spec.typ != [] &&
                                            NamesStruct(spec.typ[0], structName) && v in spec.names
  }

  /** `v` is a parameter of the function of the struct's type or a pointer to it, or is
      declared so by a `var` anywhere in its body. */
  ghost predicate BindsStruct(fd: FuncDecl, structName: string, v: string) {
    (exists p :: p in fd.params && NamesStruct(p.typ, structName) && v in p.names) ||
    (fd.body.Some? && exists d :: Within(d, fd.body.value) && DeclaresVar(d, structName, v))
  }

  lemma TypeExact(t: Node, structName: string)
    ensures TypeIsNamed(t, structName) <==> NamesStruct(t, structName)
  {
  }

  lemma {:induction false} ParamNamesExact(params: seq<Field>, structName: string, v: string)
    ensures v in ParamNamesOfType(params, structName) <==> exists p :: p in params && NamesStruct(p.typ, structName) && v in p.names
  {
    hide TypeIsNamed, NamesStruct;
    if params != [] {
      var n := |params| - 1;
      var last := params[n];
      ParamNamesExact(params[..n], structName, v);
      TypeExact(last.typ, structName);
      forall p ensures p in params <==> p in params[..n] || p == last { InSnoc(params, p); }
    }
  }

  lemma InSnoc<T>(xs: seq<T>, x: T)
    requires xs != []
    ensures x in xs <==> x in xs[..|xs| - 1] || x == xs[|xs| - 1]
  {
    assert xs == xs[..|xs| - 1] + [xs[|xs| - 1]];
  }

  /** A spec of a `var` declaration that gives the struct's type and lists `v`. */
  ghost predicate SpecDeclares(spec: Node, structName: string, v: string) {
    spec.ValueSpec? && spec.typ != [] && NamesStruct(spec.typ[0], structName) && v in spec.names
  }

  lemma {:induction false} SpecNamesExact(specs: seq<Node>, structName: string, v: string)
    ensures v in SpecNames(specs, structName) <==> exists spec :: spec in specs && SpecDeclares(spec, structName, v)
  {
    hide TypeIsNamed, NamesStruct;
    if specs != [] {
      var n := |specs| - 1;
      var last := specs[n];
      SpecNamesExact(specs[..n], structName, v);
      if last.ValueSpec? && last.typ != [] { TypeExact(last.typ[0], structName); }
      assert v in SpecNames(specs, structName) <==>
             v in SpecNames(specs[..n], structName) || SpecDeclares(last, structName, v);
      forall spec ensures spec in specs <==> spec in specs[..n] || spec == last { InSnoc(specs, spec); }
    }
  }

  lemma DeclExact(d: Node, structName: string, v: string)
    ensures DeclaresVar(d, structName, v) <==> d.GenDecl? && d.isVar && v in SpecNames(d.specs, structName)
  {
    hide SpecNames, NamesStruct;
    if d.GenDecl? {
      SpecNamesExact(d.specs, structName, v);
    }
  }

  lemma {:induction false} DeclNamesExact(ns: seq<Node>, structName: string, v: string)
    ensures v in DeclNames(ns, structName) <==> exists d :: d in ns && DeclaresVar(d, structName, v)
  {
    hide SpecNames, DeclaresVar;
    if ns != [] {
      DeclNamesExact(ns[1..], structName, v);
      DeclExact(ns[0], structName, v);
      assert ns == [ns[0]] + ns[1..];
    }
  }

  /** The names collected are exactly those the function binds to the struct. */
  lemma BoundVarNamesExact(fd: FuncDecl, structName: string, v: string)
    requires fd.body.Some?
    ensures v in BoundVarNames(fd, structName) <==> BindsStruct(fd, structName, v)
  {
    hide ParamNamesOfType, DeclNames, DeclaresVar, Preorder, Within, NamesStruct;
    ParamNamesExact(fd.params, structName, v);
    DeclNamesExact(Preorder(fd.body.value), structName, v);
    forall d ensures d in Preorder(fd.body.value) <==> Within(d, fd.body.value) { PreorderHolds(d, fd.body.value); }
  }

  /** The node `n` of the function reads the field of the struct. */
  ghost predicate ReadsStructField(fd: FuncDecl, structName: string, field: string, n: Node) {
    fd.body.Some? && Within(n, fd.body.value) && n.Selector? && n.sel == field && n.x.Ident? &&
    BindsStruct(fd, structName, n.x.name)
  }

  /** The line the scan reports for a function: that of the first read through the first
      bound name that has one. */
  function ReadLine(names: seq<string>, body: Node, field: string): Option<int> {
    if names == [] then None
    else
      match FirstMatch(Preorder(body), n => ReadsField(n, names[0], field))
      case Some(n) => Some(n.line)
      case None => ReadLine(names[1..], body, field)
  }

  method FuncReadsField(fd: FuncDecl, structName: string, field: string) returns (line: Option<int>)
    requires fd.body.Some?
    ensures line == ReadLine(BoundVarNames(fd, structName), fd.body.value, field)
  {
    hide FirstMatch, Preorder, BoundVarNames;
    var names := BoundVarNames(fd, structName);
    for k := 0 to |names|
      invariant ReadLine(names, fd.body.value, field) == ReadLine(names[k..], fd.body.value, field)
    {
      assert names[k..][1..] == names[k + 1..];
      line := SelectorLine(fd.body.value, names[k], field);
      if line.Some? {
        return;
      }
    }
    return None;
  }

  /** A function is reported iff it reads the field through some name bound to the struct,
      and the reported line is that of such a read. */
  lemma {:induction false} ReadLineExact(names: seq<string>, body: Node, field: string)
    ensures ReadLine(names, body, field).Some? <==>
            exists v, n :: v in names && Within(n, body) && ReadsField(n, v, field)
    ensures ReadLine(names, body, field).Some? ==>
            exists v, n :: v in names && Within(n, body) && ReadsField(n, v, field) &&
                           n.line == ReadLine(names, body, field).value
  {
    hide Within, Preorder, FirstMatch;
    if names != [] {
      MatchIsWithin(body, n => ReadsField(n, names[0], field));
      var first := FirstMatch(Preorder(body), n => ReadsField(n, names[0], field));
      if first.Some? {
        FirstIsWithin(body, n => ReadsField(n, names[0], field));
      }
      ReadLineExact(names[1..], body, field);
    }
  }

  lemma FirstIsWithin(root: Node, p: Node -> bool)
    requires FirstMatch(Preorder(root), p).Some?
    ensures Within(FirstMatch(Preorder(root), p).value, root) && p(FirstMatch(Preorder(root), p).value)
  {
    PreorderHolds(FirstMatch(Preorder(root), p).value, root);
  }

  // Findings.

  datatype Kind = Invented | Sibling | Fallback

  datatype Finding = Finding(file: string, kind: Kind, op: string, struct_: string, field: string, func: string,
                             line: int, confident: bool)

  /** One struct field: its Go name, its wire key, and whether it is decoded at all. */
  datatype StructField = StructField(name: string, wireKey: string, isWire: bool)

  /** The struct under scrutiny: where it is, the operation it is named for, and what the
      SDK says about that operation. `moduleFields` is None when reading the module fails. */
  datatype Subject = Subject(file: string, name: string, op: string, decoded: bool, opFields: OpFields,
                             moduleFields: Option<set<string>>)

  datatype Usage = Usage(fd: FuncDecl, line: int)

  /** The first function that binds the struct and reads the field. */
  function FieldUsage(decls: seq<FuncDecl>, structName: string, field: string): (u: Option<Usage>)
    ensures u.Some? ==> u.value.fd in decls && u.value.fd.body.Some?
  {
    if decls == [] then None
    else if decls[0].body.None? then FieldUsage(decls[1..], structName, field)
    else
      match ReadLine(BoundVarNames(decls[0], structName), decls[0].body.value, field)
      case Some(line) => Some(Usage(decls[0], line))
      case None => FieldUsage(decls[1..], structName, field)
  }

  method FindFieldUsage(decls: seq<FuncDecl>, structName: string, field: string) returns (u: Option<Usage>)
    ensures u == FieldUsage(decls, structName, field)
  {
    hide ReadLine, BoundVarNames;
    for k := 0 to |decls|
      invariant FieldUsage(decls, structName, field) == FieldUsage(decls[k..], structName, field)
    {
      assert decls[k..][1..] == decls[k + 1..];
      if decls[k].body.Some? {
        var line := FuncReadsField(decls[k], structName, field);
        if line.Some? {
          return Some(Usage(decls[k], line.value));
        }
      }
    }
    return None;
  }

  lemma ReadLineOfFunction(fd: FuncDecl, structName: string, field: string)
    requires fd.body.Some?
    ensures var line := ReadLine(BoundVarNames(fd, structName), fd.body.value, field);
            (line.Some? <==> exists n :: ReadsStructField(fd, structName, field, n)) &&
            (line.Some? ==> exists n :: ReadsStructField(fd, structName, field, n) && n.line == line.value)
  {
    hide ReadLine, BoundVarNames, Within, BindsStruct;
    var names := BoundVarNames(fd, structName);
    ReadLineExact(names, fd.body.value, field);
    forall v ensures v in names <==> BindsStruct(fd, structName, v) { BoundVarNamesExact(fd, structName, v); }
    forall v, n | v in names && Within(n, fd.body.value) && ReadsField(n, v, field)
      ensures ReadsStructField(fd, structName, field, n) && n.Selector? {}
    forall n | ReadsStructField(fd, structName, field, n) ensures n.x.name in names && ReadsField(n, n.x.name, field) {}
  }

  /** The function at `k` is the first one in the list that reads the field. */
  ghost predicate FirstReader(decls: seq<FuncDecl>, structName: string, field: string, k: nat) {
    k < |decls| && (exists n :: ReadsStructField(decls[k], structName, field, n)) &&
    forall j, n :: 0 <= j < k ==> !ReadsStructField(decls[j], structName, field, n)
  }

  /** The usage reported is that of the first function that reads the field, with the line of
      such a read; there is none iff no function reads it. */
  lemma {:induction false} FieldUsageExact(decls: seq<FuncDecl>, structName: string, field: string)
    ensures FieldUsage(decls, structName, field).Some? <==> exists k: nat :: FirstReader(decls, structName, field, k)
    ensures FieldUsage(decls, structName, field).None? <==>
            forall k, n :: 0 <= k < |decls| ==> !ReadsStructField(decls[k], structName, field, n)
    ensures FieldUsage(decls, structName, field).Some? ==>
              var u := FieldUsage(decls, structName, field).value;
              exists k: nat, n :: FirstReader(decls, structName, field, k) && decls[k] == u.fd &&
                             ReadsStructField(u.fd, structName, field, n) && n.line == u.line
  {
    hide ReadLine, BoundVarNames, ReadsStructField;
    if decls != [] {
      NoBodyNoRead(decls[0], structName, field);
      if decls[0].body.Some? { ReadLineOfFunction(decls[0], structName, field); }
      FieldUsageExact(decls[1..], structName, field);
      if n :| ReadsStructField(decls[0], structName, field, n) {
        assert FirstReader(decls, structName, field, 0);
      } else {
        forall k: nat | FirstReader(decls[1..], structName, field, k) ensures FirstReader(decls, structName, field, k + 1) {
          assert decls[1..][k] == decls[k + 1];
          forall j, n | 0 <= j < k + 1 ensures !ReadsStructField(decls[j], structName, field, n) {
            if j > 0 { assert decls[1..][j - 1] == decls[j]; }
          }
        }
        forall k, n | 0 <= k < |decls| && ReadsStructField(decls[k], structName, field, n)
          ensures k > 0 && ReadsStructField(decls[1..][k - 1], structName, field, n) {}
      }
    }
  }

  lemma NoBodyNoRead(fd: FuncDecl, structName: string, field: string)
    ensures fd.body.None? ==> forall n :: !ReadsStructField(fd, structName, field, n)
  {
  }

  /** A field worth reporting: decoded, unknown to the operation, and read somewhere. */
  predicate Suspect(subj: Subject, decls: seq<FuncDecl>, f: StructField) {
    f.isWire && !Has(subj.opFields, f.wireKey) && FieldUsage(decls, subj.name, f.name).Some?
  }

  ghost predicate FallbackField(subj: Subject, decls: seq<FuncDecl>, f: StructField)
    requires Suspect(subj, decls, f)
  {
    ToleratedFallback(FieldUsage(decls, subj.name, f.name).value.fd.body.value, f.name, subj.opFields)
  }

  ghost function Judge(subj: Subject, decls: seq<FuncDecl>, f: StructField): Finding
    requires Suspect(subj, decls, f) && subj.moduleFields.Some?
  {
    var u := FieldUsage(decls, subj.name, f.name).value;
    var kind := if FallbackField(subj, decls, f) then Fallback
                else if Lower(f.wireKey) in subj.moduleFields.value then Sibling
                else Invented;
    Finding(subj.file, kind, subj.op, subj.name, f.name, u.fd.name, u.line, kind == Invented)
  }

  ghost function Judged(subj: Subject, decls: seq<FuncDecl>, fields: seq<StructField>): seq<Finding>
    requires subj.moduleFields.Some?
  {
    if fields == [] then []
    else
      var n := |fields| - 1;
      Judged(subj, decls, fields[..n]) + if Suspect(subj, decls, fields[n]) then [Judge(subj, decls, fields[n])] else []
  }

  ghost predicate NoSuspects(subj: Subject, decls: seq<FuncDecl>, fields: seq<StructField>) {
    forall k :: 0 <= k < |fields| ==> !Suspect(subj, decls, fields[k])
  }

  /** checkRequestStruct, once the operation's own fields are resolved. None is its error. */
  method CheckRequestStruct(subj: Subject, decls: seq<FuncDecl>, fields: seq<StructField>) returns (r: Option<seq<Finding>>)
    ensures Has(subj.opFields, "PatchOperations") || !subj.decoded ==> r == Some([])
    ensures !Has(subj.opFields, "PatchOperations") && subj.decoded ==>
              if subj.moduleFields.Some? then r == Some(Judged(subj, decls, fields))
              else r == if NoSuspects(subj, decls, fields) then Some([]) else None
  {
    hide FieldUsage, ToleratedFallback, Has;
    if Has(subj.opFields, "PatchOperations") || !subj.decoded {
      return Some([]);
    }
    var out: seq<Finding> := [];
    for i := 0 to |fields|
      invariant subj.moduleFields.Some? ==> out == Judged(subj, decls, fields[..i])
      invariant subj.moduleFields.None? ==> out == [] && NoSuspects(subj, decls, fields[..i])
    {
      var f := fields[i];
      assert fields[..i + 1][..i] == fields[..i];
      if f.isWire && !Has(subj.opFields, f.wireKey) {
        var u := FindFieldUsage(decls, subj.name, f.name);
        if u.Some? {
          if subj.moduleFields.None? {
            return None;
          }
          var tolerated := IsToleratedFallback(Some(u.value.fd), f.name, subj.opFields);
          var kind := if tolerated then Fallback
                      else if Lower(f.wireKey) in subj.moduleFields.value then Sibling
                      else Invented;
          out := out + [Finding(subj.file, kind, subj.op, subj.name, f.name, u.value.fd.name, u.value.line, kind == Invented)];
        }
      }
    }
    assert fields[..|fields|] == fields;
    return Some(out);
  }

  /** The field is decoded from the wire, is no member of the operation in any letter case,
      and some function reads it. */
  ghost predicate Reported(subj: Subject, decls: seq<FuncDecl>, f: StructField) {
    f.isWire && Lower(f.wireKey) !in subj.opFields.folded &&
    exists k, n :: 0 <= k < |decls| && ReadsStructField(decls[k], subj.name, f.name, n)
  }

  /** What is found about a field: the first function that reads it and the line of such a
      read; a fallback if that function tolerates the field as one, a sibling if another
      operation of the module has the member, and otherwise invented, which is confident. */
  ghost predicate IsFindingOf(fd: Finding, subj: Subject, decls: seq<FuncDecl>, f: StructField)
    requires subj.moduleFields.Some?
  {
    exists k: nat, n ::
      FirstReader(decls, subj.name, f.name, k) && ReadsStructField(decls[k], subj.name, f.name, n) &&
      var kind := if ToleratedFallback(decls[k].body.value, f.name, subj.opFields) then Fallback
                  else if Lower(f.wireKey) in subj.moduleFields.value then Sibling
                  else Invented;
      fd == Finding(subj.file, kind, subj.op, subj.name, f.name, decls[k].name, n.line, kind == Invented)
  }

  lemma SuspectExact(subj: Subject, decls: seq<FuncDecl>, f: StructField)
    ensures Suspect(subj, decls, f) <==> Reported(subj, decls, f)
  {
    hide FieldUsage, ReadsStructField, Lower;
    FieldUsageExact(decls, subj.name, f.name);
  }

  lemma JudgeExact(subj: Subject, decls: seq<FuncDecl>, f: StructField)
    requires Suspect(subj, decls, f) && subj.moduleFields.Some?
    ensures IsFindingOf(Judge(subj, decls, f), subj, decls, f)
  {
    hide FieldUsage, Lower, ToleratedFallback, Within, BindsStruct;
    FieldUsageExact(decls, subj.name, f.name);
    var u := FieldUsage(decls, subj.name, f.name).value;
    var k: nat, n :| FirstReader(decls, subj.name, f.name, k) && decls[k] == u.fd &&
                     ReadsStructField(u.fd, subj.name, f.name, n) && n.line == u.line;
    assert FirstReader(decls, subj.name, f.name, k) && ReadsStructField(decls[k], subj.name, f.name, n);
  }

  /** The findings are those of the reported fields, one each, in the order of the fields;
      `from` says which field each one is about. */
  lemma {:induction false} FindingsExact(subj: Subject, decls: seq<FuncDecl>, fields: seq<StructField>) returns (from: seq<nat>)
    requires subj.moduleFields.Some?
    ensures |from| == |Judged(subj, decls, fields)|
    ensures forall i, j :: 0 <= i < j < |from| ==> from[i] < from[j]
    ensures forall k: nat :: k in from <==> k < |fields| && Reported(subj, decls, fields[k])
    ensures forall i :: 0 <= i < |from| ==>
              from[i] < |fields| && IsFindingOf(Judged(subj, decls, fields)[i], subj, decls, fields[from[i]])
  {
    hide Suspect, Judge, Reported, IsFindingOf;
    from := [];
    if fields != [] {
      var n := |fields| - 1;
      var before := FindingsExact(subj, decls, fields[..n]);
      SuspectExact(subj, decls, fields[n]);
      forall i | 0 <= i < |before| ensures before[i] < n { assert before[i] in before; }
      from := before;
      if Suspect(subj, decls, fields[n]) {
        JudgeExact(subj, decls, fields[n]);
        from := before + [n];
      }
      forall k: nat ensures k in from <==> k < |fields| && Reported(subj, decls, fields[k]) {
        assert k in before <==> k < n && Reported(subj, decls, fields[..n][k]);
      }
    }
  }

  /** A module look-up that fails is an error exactly when a field would be reported. */
  lemma NothingToReport(subj: Subject, decls: seq<FuncDecl>, fields: seq<StructField>)
    ensures NoSuspects(subj, decls, fields) <==> forall k :: 0 <= k < |fields| ==> !Reported(subj, decls, fields[k])
  {
    hide Suspect, Reported;
    forall k | 0 <= k < |fields| ensures Suspect(subj, decls, fields[k]) <==> Reported(subj, decls, fields[k]) {
      SuspectExact(subj, decls, fields[k]);
    }
  }

  datatype Key = Key(file: string, struct_: string, field: string, kind: Kind)

  function KeyOf(f: Finding): Key {
    Key(f.file, f.struct_, f.field, f.kind)
  }

  function Keys(fs: seq<Finding>): (r: seq<Key>)
    ensures |r| == |fs| && forall k :: 0 <= k < |fs| ==> r[k] == KeyOf(fs[k])
  {
    if fs == [] then [] else Keys(fs[..|fs| - 1]) + [KeyOf(fs[|fs| - 1])]
  }

  /** The findings whose key did not occur before, in order. */
  function FirstPerKey(fs: seq<Finding>): seq<Finding> {
    if fs == [] then []
    else
      var n := |fs| - 1;
      FirstPerKey(fs[..n]) + if KeyOf(fs[n]) in Keys(fs[..n]) then [] else [fs[n]]
  }

  method DedupeFindings(fs: seq<Finding>) returns (out: seq<Finding>)
    ensures out == FirstPerKey(fs)
  {
    var seen: set<Key> := {};
    out := [];
    for i := 0 to |fs|
      invariant seen == Elems(Keys(fs[..i])) && out == FirstPerKey(fs[..i])
    {
      var k := KeyOf(fs[i]);
      assert fs[..i + 1][..i] == fs[..i];
      assert Elems(Keys(fs[..i + 1])) == Elems(Keys(fs[..i])) + {k};
      if k !in seen {
        seen := seen + {k};
        out := out + [fs[i]];
      }
    }
    assert fs[..|fs|] == fs;
  }

  /** No key is lost or repeated, and the finding kept for a key is the first with that key. */
  lemma {:induction false} FirstPerKeyExact(fs: seq<Finding>)
    ensures Keys(FirstPerKey(fs)) == Dedupe(Keys(fs))
    ensures forall f :: f in FirstPerKey(fs) ==> KeyOf(f) in Keys(fs) && f == fs[FirstIndex(Keys(fs), KeyOf(f))]
  {
    KeysOfFirst(fs);
    FirstIsFirst(fs);
  }

  /** The same field of the same struct in the same file, reported for the same reason. */
  ghost predicate Repeats(f: Finding, g: Finding) {
    f.file == g.file && f.struct_ == g.struct_ && f.field == g.field && f.kind == g.kind
  }

  ghost predicate FirstOfItsKind(fs: seq<Finding>, k: nat) {
    k < |fs| && forall j :: 0 <= j < k ==> !Repeats(fs[j], fs[k])
  }

  /** Exactly the findings that repeat no earlier one are kept, in order. */
  lemma {:induction false} DedupedExact(fs: seq<Finding>) returns (ks: seq<nat>)
    ensures forall k: nat :: k in ks <==> FirstOfItsKind(fs, k)
    ensures forall i, j :: 0 <= i < j < |ks| ==> ks[i] < ks[j]
    ensures var out := FirstPerKey(fs); |out| == |ks| && forall j :: 0 <= j < |ks| ==> ks[j] < |fs| && out[j] == fs[ks[j]]
  {
    hide KeyOf, Repeats, FirstOfItsKind;
    ks := [];
    if fs == [] {
      NoFirst();
    } else {
      var n := |fs| - 1;
      ks := DedupedExact(fs[..n]);
      forall k: nat ensures FirstOfItsKind(fs, k) <==>
                            FirstOfItsKind(fs[..n], k) || (k == n && KeyOf(fs[n]) !in Keys(fs[..n]))
      {
        FirstSnoc(fs, k);
      }
      if KeyOf(fs[n]) !in Keys(fs[..n]) {
        ks := ks + [n];
      }
    }
  }

  lemma NoFirst()
    ensures forall k: nat :: !FirstOfItsKind([], k)
  {
  }

  lemma FirstSnoc(fs: seq<Finding>, k: nat)
    requires fs != []
    ensures var n := |fs| - 1;
            FirstOfItsKind(fs, k) <==> FirstOfItsKind(fs[..n], k) || (k == n && KeyOf(fs[n]) !in Keys(fs[..n]))
  {
    hide Keys;
    var n := |fs| - 1;
    var ks := Keys(fs[..n]);
    forall j | 0 <= j < n ensures ks[j] == KeyOf(fs[n]) <==> Repeats(fs[j], fs[n]) {}
    if j :| 0 <= j < n && Repeats(fs[j], fs[n]) {
      assert ks[j] in ks;
    }
  }

  lemma {:induction false} KeysOfFirst(fs: seq<Finding>)
    ensures Keys(FirstPerKey(fs)) == Dedupe(Keys(fs))
  {
    hide Dedupe, KeyOf, NoDup, InOrderOf;
    if fs == [] {
      NoKeys();
    } else {
      var n := |fs| - 1;
      KeysOfFirst(fs[..n]);
      var ks, k := Keys(fs[..n]), KeyOf(fs[n]);
      assert Keys(fs) == ks + [k];
      hide Keys;
      DedupeSnoc(ks, k);
      KeysSnoc(FirstPerKey(fs[..n]), fs[n]);
      assert FirstPerKey(fs[..n]) + [] == FirstPerKey(fs[..n]);
    }
  }

  lemma {:induction false} FirstIsFirst(fs: seq<Finding>)
    ensures forall f :: f in FirstPerKey(fs) ==> KeyOf(f) in Keys(fs) && f == fs[FirstIndex(Keys(fs), KeyOf(f))]
  {
    hide FirstIndex, KeyOf;
    if fs != [] {
      var n := |fs| - 1;
      FirstIsFirst(fs[..n]);
      var ks, k := Keys(fs[..n]), KeyOf(fs[n]);
      assert Keys(fs) == ks + [k];
      hide Keys;
      forall f | f in FirstPerKey(fs[..n]) ensures KeyOf(f) in Keys(fs) && f == fs[FirstIndex(Keys(fs), KeyOf(f))] {
        FirstIndexPrefix(ks, [k], KeyOf(f));
      }
      if k !in ks {
        LastIsFirst(ks, k);
      }
    }
  }

  lemma NoKeys()
    ensures Dedupe<Key>([]) == []
  {
  }

  lemma KeysSnoc(fs: seq<Finding>, f: Finding)
    ensures Keys(fs + [f]) == Keys(fs) + [KeyOf(f)]
  {
  }

  lemma LastIsFirst(ks: seq<Key>, k: Key)
    requires k !in ks
    ensures FirstIndex(ks + [k], k) == |ks|
  {
  }
}
