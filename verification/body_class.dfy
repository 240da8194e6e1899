/** cmd/bodyclass/classify.go: how an SDK operation's deserializer consumes the body. */
module BodyClass {
  import opened Text
  import opened Sequences
  import opened GoSyntax
  import opened Wrappers

  const OUTPUT_IDENT: string := "output"

  // The call that consumes the decoded body.

  datatype ArgShape = WholeAddr | FieldAddr(field: string) | BareOutput | OtherArg

  function ClassifyArg(arg: Node): ArgShape {
    if !arg.Unary? then
      if arg == Ident(OUTPUT_IDENT) then BareOutput else OtherArg
    else if arg.uop != Amp then OtherArg
    else if arg.operand == Ident(OUTPUT_IDENT) then WholeAddr
    else if arg.operand.Selector? && arg.operand.x == Ident(OUTPUT_IDENT) then FieldAddr(arg.operand.sel)
    else OtherArg
  }

  /** `err, ... = <fn>(<arg>, ...)` with "Document" in the callee's name and an argument of a
      known shape. */
  predicate IsDocumentAssign(n: Node) {
    n.Assign? && Ident("err") in n.lhs && |n.rhs| == 1 && n.rhs[0].Call? && n.rhs[0].args != [] &&
    n.rhs[0].fun.Ident? && Contains(n.rhs[0].fun.name, "Document") && ClassifyArg(n.rhs[0].args[0]) != OtherArg
  }

  datatype DocumentCall = DocumentCall(callee: string, shape: ArgShape)

  function DocumentCallOf(body: Node): Option<DocumentCall> {
    match FirstMatch(Preorder(body), n => IsDocumentAssign(n))
    case None => None
    case Some(n) => Some(DocumentCall(n.rhs[0].fun.name, ClassifyArg(n.rhs[0].args[0])))
  }

  method FindDocumentCall(body: Node) returns (dc: Option<DocumentCall>)
    ensures dc == DocumentCallOf(body)
  {
    var n := FindFirst(body, m => IsDocumentAssign(m));
    dc := match n
          case None => None
          case Some(m) => Some(DocumentCall(m.rhs[0].fun.name, ClassifyArg(m.rhs[0].args[0])));
  }

  predicate IsHttpBindingsCall(n: Node) {
    n.Call? && n.fun.Ident? && Contains(n.fun.name, "HttpBindings")
  }

  predicate HasHttpBindingsCall(body: Node) {
    FirstMatch(Preorder(body), n => IsHttpBindingsCall(n)).Some?
  }

  // The keys of the callee's key switch.

  function LabelStrings(labels: seq<Node>): seq<string> {
    if labels == [] then []
    else
      var n := |labels| - 1;
      LabelStrings(labels[..n]) +
      if labels[n].BasicLit? && labels[n].isString then [Trim(labels[n].value, c => c == '"' || c == '`')] else []
  }

  function ClauseStrings(clauses: seq<Node>): seq<string> {
    if clauses == [] then []
    else
      var n := |clauses| - 1;
      ClauseStrings(clauses[..n]) + if clauses[n].Case? then LabelStrings(clauses[n].labels) else []
  }

  /** A default clause has no labels. */
  function CaseLabels(sw: Node): seq<string>
    requires sw.Switch?
  {
    ClauseStrings(sw.clauses)
  }

  /** The switches that are not inside another switch, in source order. */
  function OuterSwitches(n: Node): (r: seq<Node>)
    ensures forall k :: 0 <= k < |r| ==> r[k].Switch?
    decreases n, |Children(n)| + 1
  {
    if n.Switch? then [n] else OuterSwitchesFrom(n, 0)
  }

  function OuterSwitchesFrom(n: Node, k: nat): (r: seq<Node>)
    requires k <= |Children(n)|
    ensures forall j :: 0 <= j < |r| ==> r[j].Switch?
    decreases n, |Children(n)| - k
  {
    if k == |Children(n)| then []
    else
      ChildSmaller(n, k);
      OuterSwitches(Children(n)[k]) + OuterSwitchesFrom(n, k + 1)
  }

  lemma SwitchesOfChild(n: Node, k: nat)
    requires k < |Children(n)|
    ensures OuterSwitchesFrom(n, k) == OuterSwitches(Children(n)[k]) + OuterSwitchesFrom(n, k + 1)
  {
    hide Children, OuterSwitches;
  }

  function LastLabels(switches: seq<Node>, default: seq<string>): seq<string>
    requires forall k :: 0 <= k < |switches| ==> switches[k].Switch?
  {
    if switches == [] then default else CaseLabels(switches[|switches| - 1])
  }

  lemma NoMoreSwitches(n: Node, default: seq<string>)
    ensures LastLabels(OuterSwitchesFrom(n, |Children(n)|), default) == default
  {
  }

  lemma LastLabelsAppend(a: seq<Node>, b: seq<Node>, default: seq<string>)
    requires (forall k :: 0 <= k < |a| ==> a[k].Switch?) && forall k :: 0 <= k < |b| ==> b[k].Switch?
    ensures LastLabels(a + b, default) == LastLabels(b, LastLabels(a, default))
  {
    hide CaseLabels;
    if b == [] { assert a + b == a; }
  }

  class SwitchKeys {
    var keys: seq<string>

    constructor ()
      ensures keys == []
    {
      keys := [];
    }

    /** The callback overwrites `keys` at every switch it meets and does not descend into it;
        nothing stops it from meeting a later one. */
    method Inspect(n: Node)
      modifies this
      ensures keys == LastLabels(OuterSwitches(n), old(keys))
      decreases n
    {
      hide Children, CaseLabels;
      if n.Switch? {
        keys := CaseLabels(n);
        return;
      }
      assert OuterSwitches(n) == OuterSwitchesFrom(n, 0);
      hide OuterSwitches, OuterSwitchesFrom, LastLabels;
      for k := 0 to |Children(n)|
        invariant LastLabels(OuterSwitches(n), old(keys)) == LastLabels(OuterSwitchesFrom(n, k), keys)
      {
        ChildSmaller(n, k);
        SwitchesOfChild(n, k);
        LastLabelsAppend(OuterSwitches(Children(n)[k]), OuterSwitchesFrom(n, k + 1), keys);
        Inspect(Children(n)[k]);
      }
      NoMoreSwitches(n, keys);
    }
  }

  function SwitchKeysOf(body: Node): seq<string> {
    LastLabels(OuterSwitches(body), [])
  }

  method ExtractSwitchKeys(body: Node) returns (keys: seq<string>)
    ensures keys == SwitchKeysOf(body)
  {
    var s := new SwitchKeys();
    s.Inspect(body);
    keys := s.keys;
  }

  /** The first switch of the tree, which is what the source's own comment promises to read. */
  function FirstSwitch(body: Node): Option<Node> {
    FirstMatch(Preorder(body), (n: Node) => n.Switch?)
  }

  lemma {:induction false} FirstSwitchIsOuter(n: Node)
    ensures FirstSwitch(n) == if OuterSwitches(n) == [] then None else Some(OuterSwitches(n)[0])
    decreases n, |Children(n)| + 1
  {
    hide Children;
    var p := (m: Node) => m.Switch?;
    assert Preorder(n)[0] == n && Preorder(n)[1..] == PreorderFrom(n, 0);
    if !n.Switch? {
      FirstSwitchFrom(n, 0);
    }
  }

  lemma {:induction false} FirstSwitchFrom(n: Node, k: nat)
    requires k <= |Children(n)|
    ensures FirstMatch(PreorderFrom(n, k), (m: Node) => m.Switch?) ==
            if OuterSwitchesFrom(n, k) == [] then None else Some(OuterSwitchesFrom(n, k)[0])
    decreases n, |Children(n)| - k
  {
    hide Children;
    if k < |Children(n)| {
      ChildSmaller(n, k);
      FirstSwitchIsOuter(Children(n)[k]);
      FirstSwitchFrom(n, k + 1);
      FirstMatchAppend(Preorder(Children(n)[k]), PreorderFrom(n, k + 1), (m: Node) => m.Switch?);
    }
  }

  /** The keys returned are those of the last switch outside any other. They are the first
      switch's, as the source's comment says, iff those two switches list the same labels;
      in particular whenever there is only one. */
  lemma SwitchKeysAreTheLast(body: Node)
    requires FirstSwitch(body).Some?
    ensures var outer := OuterSwitches(body);
            outer != [] && FirstSwitch(body).value == outer[0] &&
            SwitchKeysOf(body) == CaseLabels(outer[|outer| - 1]) &&
            (SwitchKeysOf(body) == CaseLabels(FirstSwitch(body).value) <==>
             CaseLabels(outer[0]) == CaseLabels(outer[|outer| - 1])) &&
            (|outer| == 1 ==> SwitchKeysOf(body) == CaseLabels(FirstSwitch(body).value))
  {
    FirstSwitchIsOuter(body);
  }

  /** Two sibling switches: the keys of the first are lost. */
  lemma LaterSwitchWins(first: Node, second: Node)
    requires first.Switch? && second.Switch? && CaseLabels(first) != CaseLabels(second)
    ensures FirstSwitch(Block([first, second])) == Some(first)
    ensures SwitchKeysOf(Block([first, second])) == CaseLabels(second) != CaseLabels(first)
  {
    var b := Block([first, second]);
    assert Children(b) == [first, second];
    assert OuterSwitchesFrom(b, 2) == [];
    assert OuterSwitchesFrom(b, 1) == OuterSwitches(second) + [] == [second];
    assert OuterSwitchesFrom(b, 0) == OuterSwitches(first) + [second] == [first, second];
    FirstSwitchIsOuter(b);
  }

  /** `m` is a switch below `n`, or `n` itself, with no other switch in between. */
  ghost predicate OutsideSwitches(m: Node, n: Node)
    decreases n
  {
    if n.Switch? then m == n
    else exists k :: 0 <= k < |Children(n)| && (ChildSmaller(n, k); OutsideSwitches(m, Children(n)[k]))
  }

  lemma {:induction false} OuterSwitchesFromExact(m: Node, n: Node, k: nat)
    requires k <= |Children(n)|
    ensures m in OuterSwitchesFrom(n, k) <==>
            exists j :: k <= j < |Children(n)| && (ChildSmaller(n, j); OutsideSwitches(m, Children(n)[j]))
    decreases n, |Children(n)| - k
  {
    hide Children;
    if k < |Children(n)| {
      ChildSmaller(n, k);
      OuterSwitchesExact(m, Children(n)[k]);
      OuterSwitchesFromExact(m, n, k + 1);
    }
  }

  lemma {:induction false} OuterSwitchesExact(m: Node, n: Node)
    ensures m in OuterSwitches(n) <==> OutsideSwitches(m, n)
    decreases n, |Children(n)| + 1
  {
    hide Children;
    if !n.Switch? {
      OuterSwitchesFromExact(m, n, 0);
    }
  }

  // A key switch as generated code prints it.

  datatype KeyClause = KeyClause(keys: seq<string>, stmts: seq<Node>)

  predicate IsQuote(c: char) {
    c == '"' || c == '`'
  }

  /** The quoted key is a string literal. */
  function Quoted(key: string): Node {
    BasicLit(true, "\"" + key + "\"")
  }

  function QuotedAll(keys: seq<string>): (r: seq<Node>)
    ensures |r| == |keys| && forall k :: 0 <= k < |keys| ==> r[k] == Quoted(keys[k])
  {
    seq(|keys|, k requires 0 <= k < |keys| => Quoted(keys[k]))
  }

  function PrintClauses(clauses: seq<KeyClause>): (r: seq<Node>)
    ensures |r| == |clauses| && forall k :: 0 <= k < |clauses| ==> r[k] == Case(QuotedAll(clauses[k].keys), clauses[k].stmts)
  {
    seq(|clauses|, k requires 0 <= k < |clauses| => Case(QuotedAll(clauses[k].keys), clauses[k].stmts))
  }

  function KeysOf(clauses: seq<KeyClause>): seq<string> {
    if clauses == [] then [] else KeysOf(clauses[..|clauses| - 1]) + clauses[|clauses| - 1].keys
  }

  ghost predicate PlainKey(key: string) {
    key == "" || (!IsQuote(key[0]) && !IsQuote(key[|key| - 1]))
  }

  lemma {:induction false} LabelsOfQuoted(keys: seq<string>)
    requires forall k :: 0 <= k < |keys| ==> PlainKey(keys[k])
    ensures LabelStrings(QuotedAll(keys)) == keys
  {
    hide PlainKey, Trim;
    if keys != [] {
      var n := |keys| - 1;
      LabelsOfQuoted(keys[..n]);
      assert QuotedAll(keys)[..n] == QuotedAll(keys[..n]);
      Unquoted(keys[n]);
    }
  }

  lemma Unquoted(key: string)
    requires PlainKey(key)
    ensures Trim("\"" + key + "\"", c => c == '"' || c == '`') == key
  {
    TrimOf("\"", key, "\"", c => c == '"' || c == '`');
  }

  lemma {:induction false} ClausesOfPrinted(clauses: seq<KeyClause>)
    requires forall c :: 0 <= c < |clauses| ==> forall k :: 0 <= k < |clauses[c].keys| ==> PlainKey(clauses[c].keys[k])
    ensures ClauseStrings(PrintClauses(clauses)) == KeysOf(clauses)
  {
    hide PlainKey, LabelStrings;
    if clauses != [] {
      var n := |clauses| - 1;
      ClausesOfPrinted(clauses[..n]);
      assert PrintClauses(clauses)[..n] == PrintClauses(clauses[..n]);
      LabelsOfQuoted(clauses[n].keys);
    }
  }

  /** The labels read from a printed key switch are its keys, in order; a clause without keys,
      such as the default, adds none. */
  lemma KeySwitchLabels(sinit: seq<Node>, tag: seq<Node>, clauses: seq<KeyClause>)
    requires forall c :: 0 <= c < |clauses| ==> forall k :: 0 <= k < |clauses[c].keys| ==> PlainKey(clauses[c].keys[k])
    ensures CaseLabels(Switch(sinit, tag, PrintClauses(clauses))) == KeysOf(clauses)
  {
    ClausesOfPrinted(clauses);
  }

  // The fields a payload helper assigns.

  function SelectorField(e: Node, param: string): Option<string> {
    if e.Selector? && e.x == Ident(param) then Some(e.sel) else None
  }

  function LhsFields(lhs: seq<Node>, param: string): seq<string> {
    if lhs == [] then []
    else
      var n := |lhs| - 1;
      LhsFields(lhs[..n], param) +
      match SelectorField(lhs[n], param)
      case Some(f) => [f]
      case None => []
  }

  function NodeFields(n: Node, param: string): seq<string> {
    if n.Assign? then LhsFields(n.lhs, param) else []
  }

  /** Every field assignment in traversal order, repetitions included. */
  function FieldsIn(ns: seq<Node>, param: string): seq<string> {
    if ns == [] then [] else NodeFields(ns[0], param) + FieldsIn(ns[1..], param)
  }

  function AssignedFields(body: Node, param: string): seq<string> {
    Dedupe(FieldsIn(Preorder(body), param))
  }

  lemma {:induction false} FieldsInAppend(a: seq<Node>, b: seq<Node>, param: string)
    ensures FieldsIn(a + b, param) == FieldsIn(a, param) + FieldsIn(b, param)
  {
    hide NodeFields;
    if a == [] {
      assert a + b == b;
    } else {
      assert (a + b)[1..] == a[1..] + b;
      FieldsInAppend(a[1..], b, param);
    }
  }

  lemma FieldsOfNode(n: Node, param: string)
    ensures FieldsIn(Preorder(n), param) == NodeFields(n, param) + FieldsIn(PreorderFrom(n, 0), param)
  {
    assert Preorder(n)[1..] == PreorderFrom(n, 0);
  }

  lemma FieldsOfChild(n: Node, k: nat, param: string)
    requires k < |Children(n)|
    ensures FieldsIn(PreorderFrom(n, k), param) ==
            FieldsIn(Preorder(Children(n)[k]), param) + FieldsIn(PreorderFrom(n, k + 1), param)
  {
    hide Children, FieldsIn;
    FieldsInAppend(Preorder(Children(n)[k]), PreorderFrom(n, k + 1), param);
  }

  lemma NoFieldsAfterLast(n: Node, param: string)
    ensures FieldsIn(PreorderFrom(n, |Children(n)|), param) == []
  {
  }

  class FieldCollector {
    var seen: set<string>
    var out: seq<string>
    ghost var met: seq<string>   // every assignment met so far, in order

    ghost predicate Valid()
      reads this
    {
      seen == Elems(met) && out == Dedupe(met)
    }

    constructor ()
      ensures Valid() && met == []
    {
      seen, out, met := {}, [], [];
    }

    method AddAll(lhs: seq<Node>, param: string)
      requires Valid()
      modifies this
      ensures Valid() && met == old(met) + LhsFields(lhs, param)
    {
      hide Dedupe;
      for i := 0 to |lhs|
        invariant Valid() && met == old(met) + LhsFields(lhs[..i], param)
      {
        assert lhs[..i + 1][..i] == lhs[..i];
        var f := SelectorField(lhs[i], param);
        if f.Some? {
          DedupeSnoc(met, f.value);
          met := met + [f.value];
          if f.value !in seen {
            seen := seen + {f.value};
            out := out + [f.value];
          }
          assert Elems(met) == seen;
        }
      }
      assert lhs[..|lhs|] == lhs;
    }

    method Inspect(n: Node, param: string)
      requires Valid()
      modifies this
      ensures Valid() && met == old(met) + FieldsIn(Preorder(n), param)
      decreases n
    {
      hide Children, LhsFields, FieldsIn, Preorder, PreorderFrom, Dedupe;
      if n.Assign? {
        AddAll(n.lhs, param);
      }
      FieldsOfNode(n, param);
      assert met == old(met) + NodeFields(n, param);
      for k := 0 to |Children(n)|
        invariant Valid()
        invariant old(met) + FieldsIn(Preorder(n), param) == met + FieldsIn(PreorderFrom(n, k), param)
      {
        ChildSmaller(n, k);
        FieldsOfChild(n, k, param);
        Inspect(Children(n)[k], param);
      }
      NoFieldsAfterLast(n, param);
    }
  }

  method CollectAssignedFields(body: Node, param: string) returns (fields: seq<string>)
    ensures fields == AssignedFields(body, param)
  {
    var c := new FieldCollector();
    c.Inspect(body, param);
    assert [] + FieldsIn(Preorder(body), param) == FieldsIn(Preorder(body), param);
    fields := c.out;
  }

  /** Somewhere in the body, at any depth, an assignment has `<param>.<field>` on its left. */
  ghost predicate AssignsParamField(body: Node, param: string, field: string) {
    exists n, line :: Within(n, body) && n.Assign? && Selector(Ident(param), field, line) in n.lhs
  }

  lemma {:induction false} LhsFieldsExact(lhs: seq<Node>, param: string, field: string)
    ensures field in LhsFields(lhs, param) <==> exists line :: Selector(Ident(param), field, line) in lhs
  {
    if lhs != [] {
      var n := |lhs| - 1;
      LhsFieldsExact(lhs[..n], param, field);
      assert lhs == lhs[..n] + [lhs[n]];
      if SelectorField(lhs[n], param) == Some(field) {
        assert lhs[n] == Selector(Ident(param), field, lhs[n].line);
      }
    }
  }

  lemma {:induction false} FieldsInExact(ns: seq<Node>, param: string, field: string)
    ensures field in FieldsIn(ns, param) <==> exists n :: n in ns && field in NodeFields(n, param)
  {
    hide NodeFields;
    if ns != [] {
      FieldsInExact(ns[1..], param, field);
    }
  }

  /** The fields listed are exactly those assigned anywhere in the body, each once, in the
      order the traversal first meets them. */
  lemma AssignedFieldsExact(body: Node, param: string)
    ensures var fs := AssignedFields(body, param);
            NoDup(fs) && InOrderOf(fs, FieldsIn(Preorder(body), param)) &&
            forall f :: f in fs <==> AssignsParamField(body, param, f)
  {
    hide Dedupe, Preorder, Within, InOrderOf;
    var all := FieldsIn(Preorder(body), param);
    DedupeIsFirstSeen(all);
    assert AssignedFields(body, param) == Dedupe(all);
    forall f ensures f in AssignedFields(body, param) <==> AssignsParamField(body, param, f) {
      assert f in Elems(Dedupe(all)) <==> f in Elems(all);
      AssignedFieldExact(body, param, f);
    }
  }

  lemma AssignedFieldExact(body: Node, param: string, f: string)
    ensures f in FieldsIn(Preorder(body), param) <==> AssignsParamField(body, param, f)
  {
    hide Preorder, Within, FieldsIn, LhsFields;
    FieldsInExact(Preorder(body), param, f);
    forall n ensures n in Preorder(body) <==> Within(n, body) { PreorderHolds(n, body); }
    forall n: Node | n.Assign?
      ensures f in NodeFields(n, param) <==> exists line :: Selector(Ident(param), f, line) in n.lhs
    {
      LhsFieldsExact(n.lhs, param, f);
    }
  }

  /** One field stands before another only if it is assigned no later: every assignment of the
      later one has an assignment of the earlier one at its place or before it. */
  lemma AssignedInSourceOrder(body: Node, param: string, i: nat, j: nat, b: nat)
    requires i < j < |AssignedFields(body, param)| && b < |Preorder(body)|
    requires AssignedFields(body, param)[j] in NodeFields(Preorder(body)[b], param)
    ensures exists a :: 0 <= a <= b && AssignedFields(body, param)[i] in NodeFields(Preorder(body)[a], param)
  {
    hide Dedupe, Preorder, NodeFields, NoDup, Elems, FieldsIn;
    var ns := Preorder(body);
    var all := FieldsIn(ns, param);
    var fs := AssignedFields(body, param);
    DedupeIsFirstSeen(all);
    var upTo := FieldsIn(ns[..b + 1], param);
    assert ns == ns[..b + 1] + ns[b + 1..];
    FieldsInAppend(ns[..b + 1], ns[b + 1..], param);
    FieldsInExact(ns[..b + 1], param, fs[j]);
    assert ns[..b + 1][b] == ns[b];
    FirstIndexPrefix(upTo, FieldsIn(ns[b + 1..], param), fs[j]);
    assert all[..|upTo|] == upTo;
    var at := FirstIndex(all, fs[i]);
    assert at < FirstIndex(all, fs[j]) < |upTo| && all[at] == upTo[at];
    FieldsInExact(ns[..b + 1], param, fs[i]);
    var n :| n in ns[..b + 1] && fs[i] in NodeFields(n, param);
    var a :| 0 <= a < b + 1 && ns[..b + 1][a] == n;
    assert ns[a] == n;
  }

  // Classification.

  datatype Class = Wrapped | Flat | HeaderOnly | Void | Unknown

  /** The parsed deserializers of one module. `outputFields` gives the number of members of
      an operation's output, None when it cannot be read. */
  datatype Index = Index(
    protocolByOp: map<string, string>,
    handleDeser: map<string, FuncDecl>,
    funcsByName: map<string, FuncDecl>,
    outputFields: string -> Option<nat>)

  /** The explanatory detail text of an unknown result is not kept. */
  datatype OpResult = OpResult(class_: Class, member: string, callee: string, keys: seq<string>)

  const UNKNOWN := OpResult(Unknown, "", "", [])

  predicate SupportedProtocol(prefix: string) {
    HasPrefix(prefix, "awsRestjson") || HasPrefix(prefix, "awsAwsjson")
  }

  function FirstParamName(fd: FuncDecl): string {
    if fd.params == [] || fd.params[0].names == [] then "" else fd.params[0].names[0]
  }

  function ClassifyWrapped(idx: Index, callee: string): OpResult {
    var unknown := UNKNOWN.(callee := callee);
    if callee !in idx.funcsByName || idx.funcsByName[callee].body.None? then unknown
    else
      var keys := SwitchKeysOf(idx.funcsByName[callee].body.value);
      if keys == [] then unknown else OpResult(Wrapped, "", callee, keys)
  }

  function ClassifyPayload(idx: Index, callee: string): OpResult {
    var unknown := UNKNOWN.(callee := callee);
    if callee !in idx.funcsByName || idx.funcsByName[callee].body.None? then unknown
    else
      var fd := idx.funcsByName[callee];
      var param := FirstParamName(fd);
      if param == "" then unknown
      else
        var fields := AssignedFields(fd.body.value, param);
        if |fields| == 1 then OpResult(Flat, fields[0], callee, []) else unknown
  }

  function ClassifyOp(idx: Index, op: string): OpResult {
    if op !in idx.handleDeser || idx.handleDeser[op].body.None? then UNKNOWN
    else if !SupportedProtocol(if op in idx.protocolByOp then idx.protocolByOp[op] else "") then UNKNOWN
    else if idx.outputFields(op).None? then UNKNOWN
    else if idx.outputFields(op).value == 0 then OpResult(Void, "", "", [])
    else
      var body := idx.handleDeser[op].body.value;
      match DocumentCallOf(body)
      case None => if HasHttpBindingsCall(body) then OpResult(HeaderOnly, "", "", []) else UNKNOWN
      case Some(dc) =>
        match dc.shape
        case WholeAddr => ClassifyWrapped(idx, dc.callee)
        case FieldAddr(field) => OpResult(Flat, field, dc.callee, [])
        case BareOutput => ClassifyPayload(idx, dc.callee)
        case OtherArg => UNKNOWN
  }
}
