/** What the classes of cmd/bodyclass mean: the exact condition for each class of an
    operation, with the member, callee and keys reported, said of the syntax trees. */
module OpClass {
  import opened Text
  import opened Sequences
  import opened GoSyntax
  import opened Wrappers
  import opened BodyClass

  ghost predicate Occurs(sub: string, s: string) {
    exists before, after :: s == before + sub + after
  }

  /** How the first argument hands over the output: `&output`, `&output.Field` or `output`. */
  ghost predicate HandsOver(arg: Node, how: ArgShape) {
    match how
    case WholeAddr => arg == Unary(Amp, Ident("output"))
    case FieldAddr(field) => exists line :: arg == Unary(Amp, Selector(Ident("output"), field, line))
    case BareOutput => arg == Ident("output")
    case OtherArg => false
  }

  /** `..., err = callee(arg, ...)` with "Document" in the callee's name, handing over the
      output in this way. */
  ghost predicate Decodes(n: Node, callee: string, how: ArgShape) {
    n.Assign? && Ident("err") in n.lhs && |n.rhs| == 1 && n.rhs[0].Call? && n.rhs[0].fun == Ident(callee) &&
    Occurs("Document", callee) && n.rhs[0].args != [] && HandsOver(n.rhs[0].args[0], how)
  }

  /** In source order, the first call in the body that decodes the document is this one. */
  ghost predicate FirstDecodes(body: Node, callee: string, how: ArgShape) {
    exists k :: 0 <= k < |Preorder(body)| && Decodes(Preorder(body)[k], callee, how) &&
                forall j, c, h :: 0 <= j < k ==> !Decodes(Preorder(body)[j], c, h)
  }

  ghost predicate NoneDecodes(body: Node) {
    forall n, c, h :: Within(n, body) ==> !Decodes(n, c, h)
  }

  ghost predicate CallsHttpBindings(body: Node) {
    exists n :: Within(n, body) && n.Call? && n.fun.Ident? && Occurs("HttpBindings", n.fun.name)
  }

  /** The operation has a deserializer with a body, of a supported protocol, and its output's
      members can be counted. */
  ghost predicate Supported(idx: Index, op: string) {
    op in idx.handleDeser && idx.handleDeser[op].body.Some? && op in idx.protocolByOp &&
    ("awsRestjson" <= idx.protocolByOp[op] || "awsAwsjson" <= idx.protocolByOp[op]) && idx.outputFields(op).Some?
  }

  ghost predicate Live(idx: Index, op: string) {
    Supported(idx, op) && idx.outputFields(op).value > 0
  }

  function BodyOf(idx: Index, op: string): Node
    requires op in idx.handleDeser && idx.handleDeser[op].body.Some?
  {
    idx.handleDeser[op].body.value
  }

  /** The callee is a known function whose tree assigns exactly one distinct field of its
      first parameter. */
  ghost predicate AssignsOneField(idx: Index, callee: string, field: string) {
    callee in idx.funcsByName &&
    var fd := idx.funcsByName[callee];
    fd.body.Some? && fd.params != [] && fd.params[0].names != [] && fd.params[0].names[0] != "" &&
    var param := fd.params[0].names[0];
    AssignsParamField(fd.body.value, param, field) &&
    forall other :: AssignsParamField(fd.body.value, param, other) ==> other == field
  }

  /** The callee is a known function; `keys` are the labels of the last switch of its body that
      is outside any other. */
  ghost predicate ReadsKeys(idx: Index, callee: string, keys: seq<string>) {
    callee in idx.funcsByName && idx.funcsByName[callee].body.Some? &&
    var outer := OuterSwitches(idx.funcsByName[callee].body.value);
    outer != [] && keys == CaseLabels(outer[|outer| - 1])
  }

  // The pieces.

  lemma ShapeExact(arg: Node, how: ArgShape)
    ensures HandsOver(arg, how) <==> ClassifyArg(arg) == how && how != OtherArg
  {
    if ClassifyArg(arg) == how && how.FieldAddr? {
      assert arg == Unary(Amp, Selector(Ident("output"), how.field, arg.operand.line));
    }
  }

  function HowOf(n: Node): ArgShape
    requires n.Assign? && |n.rhs| == 1 && n.rhs[0].Call? && n.rhs[0].args != []
  {
    ClassifyArg(n.rhs[0].args[0])
  }

  lemma DecodesExact(n: Node)
    ensures forall callee, how :: Decodes(n, callee, how) <==>
              IsDocumentAssign(n) && n.rhs[0].fun.name == callee && HowOf(n) == how
  {
    hide ClassifyArg, Contains, HandsOver;
    forall callee, how ensures Decodes(n, callee, how) <==>
      IsDocumentAssign(n) && n.rhs[0].fun.name == callee && HowOf(n) == how
    {
      ContainsExact(callee, "Document");
      if n.Assign? && |n.rhs| == 1 && n.rhs[0].Call? && n.rhs[0].args != [] {
        ShapeExact(n.rhs[0].args[0], how);
      }
    }
  }

  lemma {:induction false} FirstMatchAt(ns: seq<Node>, p: Node -> bool) returns (k: nat)
    requires FirstMatch(ns, p).Some?
    ensures k < |ns| && ns[k] == FirstMatch(ns, p).value && p(ns[k]) && forall j :: 0 <= j < k ==> !p(ns[j])
  {
    if p(ns[0]) {
      k := 0;
    } else {
      var i := FirstMatchAt(ns[1..], p);
      k := i + 1;
      forall j | 0 <= j < k ensures !p(ns[j]) { if j > 0 { assert ns[1..][j - 1] == ns[j]; } }
    }
  }

  /** The call found is the first in source order that decodes the document; none is found iff
      none is there. */
  lemma DocumentCallExact(body: Node)
    ensures forall callee, how :: DocumentCallOf(body) == Some(DocumentCall(callee, how)) <==> FirstDecodes(body, callee, how)
    ensures DocumentCallOf(body) == None <==> NoneDecodes(body)
    ensures DocumentCallOf(body).Some? ==> DocumentCallOf(body).value.shape != OtherArg
  {
    hide IsDocumentAssign, Decodes, Preorder, Within, FirstMatch, ClassifyArg;
    var p := n => IsDocumentAssign(n);
    var ns := Preorder(body);
    forall n ensures (n in ns <==> Within(n, body)) && (p(n) <==> exists c, h :: Decodes(n, c, h)) {
      PreorderHolds(n, body);
      DecodesSome(n);
    }
    if FirstMatch(ns, p).Some? {
      var k := FirstMatchAt(ns, p);
      var n := ns[k];
      DocumentAt(n);
      var c0, h0 := n.rhs[0].fun.name, HowOf(n);
      assert Decodes(n, c0, h0) && forall c, h :: Decodes(n, c, h) ==> c == c0 && h == h0;
      assert forall j, c, h :: 0 <= j < k ==> !Decodes(ns[j], c, h);
      assert n in ns && Within(n, body);
      forall callee, how ensures FirstDecodes(body, callee, how) <==> callee == c0 && how == h0 {
        if i :| 0 <= i < |ns| && Decodes(ns[i], callee, how) && forall j, c, h :: 0 <= j < i ==> !Decodes(ns[j], c, h) {
          assert i == k;
        }
      }
      NotOther(n);
    } else {
      forall n, c, h | Within(n, body) ensures !Decodes(n, c, h) { assert !p(n); }
      forall k | 0 <= k < |ns| ensures Within(ns[k], body) { assert ns[k] in ns; }
    }
  }

  lemma DecodesSome(n: Node)
    ensures IsDocumentAssign(n) <==> exists c, h :: Decodes(n, c, h)
  {
    hide Decodes, Contains, ClassifyArg;
    DecodesExact(n);
    if IsDocumentAssign(n) {
      assert Decodes(n, n.rhs[0].fun.name, HowOf(n));
    }
  }

  lemma DocumentAt(n: Node)
    requires IsDocumentAssign(n)
    ensures n.Assign? && |n.rhs| == 1 && n.rhs[0].Call? && n.rhs[0].args != [] && n.rhs[0].fun.Ident?
    ensures forall c, h :: Decodes(n, c, h) <==> c == n.rhs[0].fun.name && h == HowOf(n)
  {
    hide Contains, ClassifyArg, Decodes;
    DecodesExact(n);
  }

  lemma NotOther(n: Node)
    requires IsDocumentAssign(n)
    ensures n.Assign? && |n.rhs| == 1 && n.rhs[0].Call? && n.rhs[0].args != [] && HowOf(n) != OtherArg
  {
    hide Contains, ClassifyArg;
  }

  lemma HttpBindingsExact(body: Node)
    ensures HasHttpBindingsCall(body) <==> CallsHttpBindings(body)
  {
    hide Preorder, Within, FirstMatch, Contains;
    var p := n => IsHttpBindingsCall(n);
    forall n ensures (n in Preorder(body) <==> Within(n, body)) &&
                     (p(n) <==> n.Call? && n.fun.Ident? && Occurs("HttpBindings", n.fun.name)) {
      PreorderHolds(n, body);
      if n.Call? && n.fun.Ident? { ContainsExact(n.fun.name, "HttpBindings"); }
    }
    var r := FirstMatch(Preorder(body), p);
    if r.Some? { assert Within(r.value, body) && p(r.value); }
    forall n | Within(n, body) && r.None? ensures !p(n) { assert n in Preorder(body); }
  }

  lemma OneElement(fs: seq<string>, field: string)
    requires NoDup(fs)
    ensures |fs| == 1 && fs[0] == field <==> field in fs && forall other :: other in fs ==> other == field
  {
    if |fs| > 1 {
      assert fs[0] != fs[1] && fs[0] in fs && fs[1] in fs;
    }
  }

  lemma PayloadExact(idx: Index, callee: string)
    ensures var r := ClassifyPayload(idx, callee);
            (forall field :: r == OpResult(Flat, field, callee, []) <==> AssignsOneField(idx, callee, field)) &&
            (r == OpResult(Unknown, "", callee, []) || exists field :: r == OpResult(Flat, field, callee, []))
  {
    hide AssignedFields, AssignsParamField;
    if callee in idx.funcsByName && idx.funcsByName[callee].body.Some? {
      var fd := idx.funcsByName[callee];
      var fs := AssignedFields(fd.body.value, FirstParamName(fd));
      AssignedFieldsExact(fd.body.value, FirstParamName(fd));
      forall field ensures |fs| == 1 && fs[0] == field <==> field in fs && forall other :: other in fs ==> other == field {
        OneElement(fs, field);
      }
    }
  }

  lemma WrappedExact(idx: Index, callee: string)
    ensures var r := ClassifyWrapped(idx, callee);
            (forall keys :: r == OpResult(Wrapped, "", callee, keys) <==> keys != [] && ReadsKeys(idx, callee, keys)) &&
            (r == OpResult(Unknown, "", callee, []) || exists keys :: r == OpResult(Wrapped, "", callee, keys))
  {
    hide OuterSwitches, CaseLabels;
  }

  // The operation.

  /** The document call hands over one field's address, or hands the output to a function
      that assigns one field of it. */
  ghost predicate IsFlat(idx: Index, op: string, member: string, callee: string) {
    Live(idx, op) &&
    (FirstDecodes(BodyOf(idx, op), callee, FieldAddr(member)) ||
     (FirstDecodes(BodyOf(idx, op), callee, BareOutput) && AssignsOneField(idx, callee, member)))
  }

  ghost predicate IsWrapped(idx: Index, op: string, callee: string, keys: seq<string>) {
    Live(idx, op) && FirstDecodes(BodyOf(idx, op), callee, WholeAddr) && keys != [] && ReadsKeys(idx, callee, keys)
  }

  ghost predicate IsHeaderOnly(idx: Index, op: string) {
    Live(idx, op) && NoneDecodes(BodyOf(idx, op)) && CallsHttpBindings(BodyOf(idx, op))
  }

  ghost predicate IsVoid(idx: Index, op: string) {
    Supported(idx, op) && idx.outputFields(op).value == 0
  }

  /** The callee named in an unknown result is one that was looked at in vain. */
  ghost predicate BlamesCallee(idx: Index, op: string, callee: string) {
    if Live(idx, op) && exists c :: FirstDecodes(BodyOf(idx, op), c, WholeAddr) || FirstDecodes(BodyOf(idx, op), c, BareOutput)
    then FirstDecodes(BodyOf(idx, op), callee, WholeAddr) || FirstDecodes(BodyOf(idx, op), callee, BareOutput)
    else callee == ""
  }

  /** Every class of an operation has its exact condition on the trees, and the result names
      exactly the member, callee and keys found there; an operation that meets none of the
      conditions is unknown. */
  lemma OpClassExact(idx: Index, op: string)
    ensures var r := ClassifyOp(idx, op);
            (forall member, callee :: r == OpResult(Flat, member, callee, []) <==> IsFlat(idx, op, member, callee)) &&
            (forall callee, keys :: r == OpResult(Wrapped, "", callee, keys) <==> IsWrapped(idx, op, callee, keys)) &&
            (r == OpResult(HeaderOnly, "", "", []) <==> IsHeaderOnly(idx, op)) &&
            (r == OpResult(Void, "", "", []) <==> IsVoid(idx, op))
    ensures ClassifyOp(idx, op).class_ == Unknown <==>
              !IsVoid(idx, op) && !IsHeaderOnly(idx, op) && (forall m, c :: !IsFlat(idx, op, m, c)) &&
              forall c, ks :: !IsWrapped(idx, op, c, ks)
    ensures ClassifyOp(idx, op).class_ == Unknown ==>
              exists callee :: ClassifyOp(idx, op) == OpResult(Unknown, "", callee, []) && BlamesCallee(idx, op, callee)
  {
    hide DocumentCallOf, FirstDecodes, NoneDecodes, HasHttpBindingsCall, CallsHttpBindings, ClassifyPayload, ClassifyWrapped,
         AssignsOneField, ReadsKeys;
    SupportedExact(idx, op);
    if Live(idx, op) {
      var body := BodyOf(idx, op);
      DocumentCallExact(body);
      HttpBindingsExact(body);
      if DocumentCallOf(body).Some? {
        var dc := DocumentCallOf(body).value;
        PayloadExact(idx, dc.callee);
        WrappedExact(idx, dc.callee);
        assert FirstDecodes(body, dc.callee, dc.shape);
      }
    }
  }

  lemma SupportedExact(idx: Index, op: string)
    ensures Supported(idx, op) <==>
              op in idx.handleDeser && idx.handleDeser[op].body.Some? &&
              SupportedProtocol(if op in idx.protocolByOp then idx.protocolByOp[op] else "") && idx.outputFields(op).Some?
  {
  }
}
