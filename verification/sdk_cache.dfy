/** cmd/acceptguard/sdkfields.go and sdktypes.go: memoized look-ups of an SDK's own input
    members, checked against computing them afresh. */
module SdkCache {
  import opened Text
  import opened Wrappers

  const NUL: char := '\U{0}'

  datatype Result<T> = Ok(value: T) | Err(error: string)

  /** As much of a type expression as sdkTypesSelector looks at. */
  datatype TypeExpr = Pointer(to: TypeExpr) | ArrayOf(elem: TypeExpr) | Qualified(pkg: string, name: string) | OtherType

  datatype InputField = InputField(name: string, typ: TypeExpr)
  datatype Entry = Entry(name: string, isDir: bool)

  /** The struct fields and union alternatives of a module's types.go, names in lower case. */
  datatype Facts = Facts(structFields: map<string, set<string>>, unionAlts: map<string, set<string>>)

  /** The files of the SDK modules, unchanging. `opInput(m, o)` is what
      loadInputStructFieldExprs makes of the file of operation `o` in module `m`: the fields
      of its input struct, None when the file or the struct is missing, or an error.
      `anyInput` is the same for a file by name. */
  datatype Sdk = Sdk(
    opInput: (string, string) -> Result<Option<seq<InputField>>>,
    types: string -> Result<Facts>,
    dir: string -> Result<seq<Entry>>,
    anyInput: (string, string) -> Result<Option<seq<string>>>)

  /** The operating system refuses a path that holds a NUL. */
  ghost predicate RefusesNul(sdk: Sdk) {
    forall m, o :: NUL in m || NUL in o ==> sdk.opInput(m, o).Err?
  }

  // Computing afresh.

  function TypesSelector(t: TypeExpr): Option<string> {
    match t
    case Pointer(to) => TypesSelector(to)
    case ArrayOf(elem) => TypesSelector(elem)
    case Qualified(pkg, name) => if pkg == "types" then Some(name) else None
    case OtherType => None
  }

  function At(m: map<string, set<string>>, k: string): set<string> {
    if k in m then m[k] else {}
  }

  function Expand(facts: Facts, f: InputField): set<string> {
    {Lower(f.name)} +
    match TypesSelector(f.typ)
    case None => {}
    case Some(t) => At(facts.structFields, t) + At(facts.unionAlts, t)
  }

  function Folded(facts: Facts, fields: seq<InputField>): set<string> {
    if fields == [] then {} else Folded(facts, fields[..|fields| - 1]) + Expand(facts, fields[|fields| - 1])
  }

  function FreshFields(sdk: Sdk, m: string, o: string): Result<Option<set<string>>> {
    match sdk.opInput(m, o)
    case Err(e) => Err(e)
    case Ok(None) => Ok(None)
    case Ok(Some(fields)) =>
      match sdk.types(m)
      case Err(e) => Err(e)
      case Ok(facts) => Ok(Some(Folded(facts, fields)))
  }

  predicate IsOpFile(e: Entry) {
    !e.isDir && HasPrefix(e.name, "api_op_") && |e.name| >= 3 && e.name[|e.name| - 3..] == ".go"
  }

  function LowerSet(names: seq<string>): set<string> {
    if names == [] then {} else LowerSet(names[..|names| - 1]) + {Lower(names[|names| - 1])}
  }

  /** The union over the operation files, or the first error met. */
  function UnionOf(sdk: Sdk, m: string, entries: seq<Entry>): Result<set<string>> {
    if entries == [] then Ok({})
    else
      var n := |entries| - 1;
      match UnionOf(sdk, m, entries[..n])
      case Err(e) => Err(e)
      case Ok(before) =>
        if !IsOpFile(entries[n]) then Ok(before)
        else
          match sdk.anyInput(m, entries[n].name)
          case Err(e) => Err(e)
          case Ok(None) => Ok(before)
          case Ok(Some(names)) => Ok(before + LowerSet(names))
  }

  function FreshModule(sdk: Sdk, m: string): Result<set<string>> {
    match sdk.dir(m)
    case Err(e) => Err(e)
    case Ok(entries) => UnionOf(sdk, m, entries)
  }

  // The cache key.

  function Key(m: string, o: string): string {
    m + [NUL] + o
  }

  /** A pair without NULs shares its key with no other pair at all. */
  lemma KeyInjective(m: string, o: string, m2: string, o2: string)
    requires NUL !in m && NUL !in o && Key(m, o) == Key(m2, o2)
    ensures m == m2 && o == o2
  {
    var k := Key(m, o);
    assert k[|m2|] == NUL;
    forall i | 0 <= i < |k| && i != |m| ensures k[i] != NUL {
      if i < |m| { assert k[i] == m[i]; } else { assert k[i] == o[i - |m| - 1]; }
    }
    assert m == k[..|m|] && m2 == Key(m2, o2)[..|m2|];
    assert o == k[|m| + 1..] && o2 == Key(m2, o2)[|m2| + 1..];
  }

  /** With NULs allowed, different pairs can share a key. */
  lemma KeysCanCollide(a: string, b: string, c: string)
    ensures Key(a + [NUL] + b, c) == Key(a, b + [NUL] + c)
    ensures a + [NUL] + b != a
  {
  }

  class SdkFieldCache {
    const sdk: Sdk
    var byOp: map<string, Option<set<string>>>
    var modules: map<string, set<string>>
    var types: map<string, Facts>

    /** Every remembered answer is the fresh one. */
    ghost predicate Valid()
      reads this
    {
      RefusesNul(sdk) &&
      (forall m, o :: Key(m, o) in byOp ==> FreshFields(sdk, m, o) == Ok(byOp[Key(m, o)])) &&
      (forall m :: m in modules ==> FreshModule(sdk, m) == Ok(modules[m])) &&
      (forall m :: m in types ==> sdk.types(m) == Ok(types[m]))
    }

    constructor (sdk: Sdk)
      requires RefusesNul(sdk)
      ensures Valid() && this.sdk == sdk && byOp == map[] && modules == map[]
    {
      this.sdk := sdk;
      byOp, modules, types := map[], map[], map[];
    }

    method TypeFacts(m: string) returns (r: Result<Facts>)
      requires Valid()
      modifies this
      ensures Valid() && r == sdk.types(m)
      ensures byOp == old(byOp) && modules == old(modules)
    {
      if m in types {
        return Ok(types[m]);
      }
      r := sdk.types(m);
      if r.Ok? {
        types := types[m := r.value];
      }
    }

    method Remember(m: string, o: string, answer: Option<set<string>>)
      requires Valid() && FreshFields(sdk, m, o) == Ok(answer)
      modifies this`byOp
      ensures Valid() && byOp == old(byOp)[Key(m, o) := answer]
    {
      hide FreshModule, Folded;
      forall m2, o2 | Key(m2, o2) == Key(m, o) ensures m2 == m && o2 == o {
        KeyInjective(m, o, m2, o2);
      }
      byOp := byOp[Key(m, o) := answer];
    }

    /** Whatever was asked before, the answer is the fresh one; an absence is remembered like
        any other answer, an error is not. */
    method FieldsFor(m: string, o: string) returns (r: Result<Option<set<string>>>)
      requires Valid()
      modifies this
      ensures Valid() && r == FreshFields(sdk, m, o)
      ensures modules == old(modules)
      ensures byOp == if r.Ok? then old(byOp)[Key(m, o) := r.value] else old(byOp)
    {
      hide FreshModule, Expand;
      var key := Key(m, o);
      if key in byOp {
        assert byOp == byOp[key := byOp[key]];
        return Ok(byOp[key]);
      }
      var loaded := sdk.opInput(m, o);
      if loaded.Err? {
        return Err(loaded.error);
      }
      if loaded.value.None? {
        Remember(m, o, None);
        return Ok(None);
      }
      var facts := TypeFacts(m);
      if facts.Err? {
        return Err(facts.error);
      }
      var fields := loaded.value.value;
      var folded: set<string> := {};
      for i := 0 to |fields|
        invariant folded == Folded(facts.value, fields[..i])
      {
        assert fields[..i + 1][..i] == fields[..i];
        folded := folded + Expand(facts.value, fields[i]);
      }
      assert fields[..|fields|] == fields;
      Remember(m, o, Some(folded));
      return Ok(Some(folded));
    }

    method ModuleFields(m: string) returns (r: Result<set<string>>)
      requires Valid()
      modifies this
      ensures Valid() && r == FreshModule(sdk, m)
      ensures byOp == old(byOp)
      ensures modules == if r.Ok? then old(modules)[m := r.value] else old(modules)
    {
      hide FreshFields, IsOpFile;
      if m in modules {
        assert modules == modules[m := modules[m]];
        return Ok(modules[m]);
      }
      var entries := sdk.dir(m);
      if entries.Err? {
        return Err(entries.error);
      }
      var es := entries.value;
      var fields: set<string> := {};
      for i := 0 to |es|
        invariant UnionOf(sdk, m, es[..i]) == Ok(fields)
      {
        assert es[..i + 1][..i] == es[..i];
        if IsOpFile(es[i]) {
          var names := sdk.anyInput(m, es[i].name);
          if names.Err? {
            ErrorsStay(sdk, m, es, i + 1);
            return Err(names.error);
          }
          if names.value.Some? {
            fields := fields + LowerSet(names.value.value);
          }
        }
      }
      assert es[..|es|] == es;
      modules := modules[m := fields];
      return Ok(fields);
    }

    /** Any sequence of calls gets the answers fresh computations would give. */
    method Answer(calls: seq<Call>) returns (answers: seq<Answered>)
      requires Valid()
      modifies this
      ensures Valid()
      ensures |answers| == |calls| && forall i :: 0 <= i < |calls| ==> answers[i] == FreshAnswer(sdk, calls[i])
    {
      hide FreshFields, FreshModule;
      answers := [];
      for i := 0 to |calls|
        invariant Valid() && |answers| == i
        invariant forall j :: 0 <= j < i ==> answers[j] == FreshAnswer(sdk, calls[j])
      {
        match calls[i] {
          case Fields(m, o) =>
            var r := FieldsFor(m, o);
            answers := answers + [FieldsAnswer(r)];
          case ModuleUnion(m) =>
            var r := ModuleFields(m);
            answers := answers + [ModuleAnswer(r)];
        }
      }
    }
  }

  datatype Call = Fields(m: string, o: string) | ModuleUnion(m: string)
  datatype Answered = FieldsAnswer(fields: Result<Option<set<string>>>) | ModuleAnswer(union: Result<set<string>>)

  function FreshAnswer(sdk: Sdk, c: Call): Answered {
    match c
    case Fields(m, o) => FieldsAnswer(FreshFields(sdk, m, o))
    case ModuleUnion(m) => ModuleAnswer(FreshModule(sdk, m))
  }

  lemma {:induction false} ErrorsStay(sdk: Sdk, m: string, es: seq<Entry>, i: nat)
    requires i <= |es| && UnionOf(sdk, m, es[..i]).Err?
    ensures UnionOf(sdk, m, es) == UnionOf(sdk, m, es[..i])
    decreases |es|
  {
    hide IsOpFile;
    if i == |es| {
      assert es[..i] == es;
    } else {
      var n := |es| - 1;
      assert es[..n][..i] == es[..i];
      ErrorsStay(sdk, m, es[..n], i);
    }
  }

  // What the fresh answers hold.

  /** `t` is an SDK type of the module under any number of pointers and arrays. */
  function Under(layers: seq<bool>, t: TypeExpr): TypeExpr {
    if layers == [] then t
    else if layers[0] then Pointer(Under(layers[1..], t))
    else ArrayOf(Under(layers[1..], t))
  }

  lemma {:induction false} TypesSelectorExact(t: TypeExpr, name: string)
    ensures TypesSelector(t) == Some(name) <==> exists layers :: t == Under(layers, Qualified("types", name))
  {
    if TypesSelector(t) == Some(name) {
      var layers := LayersOf(t, name);
    }
    if layers :| t == Under(layers, Qualified("types", name)) {
      SelectorUnder(layers, name);
    }
  }

  lemma {:induction false} LayersOf(t: TypeExpr, name: string) returns (layers: seq<bool>)
    requires TypesSelector(t) == Some(name)
    ensures t == Under(layers, Qualified("types", name))
  {
    match t
    case Pointer(to) =>
      layers := LayersOf(to, name);
      layers := [true] + layers;
    case ArrayOf(elem) =>
      layers := LayersOf(elem, name);
      layers := [false] + layers;
    case Qualified(_, _) =>
      layers := [];
  }

  lemma {:induction false} SelectorUnder(layers: seq<bool>, name: string)
    ensures TypesSelector(Under(layers, Qualified("types", name))) == Some(name)
  {
    if layers != [] {
      SelectorUnder(layers[1..], name);
    }
  }

  /** `x` is a member of the struct, or an alternative of the union, that `t` leads to. */
  ghost predicate InDeclaredType(facts: Facts, t: TypeExpr, x: string) {
    exists name, layers :: t == Under(layers, Qualified("types", name)) &&
      ((name in facts.structFields && x in facts.structFields[name]) ||
       (name in facts.unionAlts && x in facts.unionAlts[name]))
  }

  lemma ExpandExact(facts: Facts, f: InputField, x: string)
    ensures x in Expand(facts, f) <==> x == Lower(f.name) || InDeclaredType(facts, f.typ, x)
  {
    hide TypesSelector, Under;
    if x in Expand(facts, f) && x != Lower(f.name) {
      TypesSelectorExact(f.typ, TypesSelector(f.typ).value);
    }
    if InDeclaredType(facts, f.typ, x) {
      var name, layers :| f.typ == Under(layers, Qualified("types", name)) &&
        ((name in facts.structFields && x in facts.structFields[name]) ||
         (name in facts.unionAlts && x in facts.unionAlts[name]));
      SelectorUnder(layers, name);
    }
  }

  /** A name counts for an operation iff, in lower case, it is one of its input fields, or a
      member of the struct or an alternative of the union that such a field is declared as. */
  lemma {:induction false} FoldedExact(facts: Facts, fields: seq<InputField>, x: string)
    ensures x in Folded(facts, fields) <==>
            exists k :: 0 <= k < |fields| && (x == Lower(fields[k].name) || InDeclaredType(facts, fields[k].typ, x))
  {
    hide InDeclaredType, Expand;
    if fields != [] {
      var n := |fields| - 1;
      FoldedExact(facts, fields[..n], x);
      ExpandExact(facts, fields[n], x);
      forall k | 0 <= k < n ensures fields[..n][k] == fields[k] {}
    }
  }

  /** An operation's names are the folded fields of its input struct; a missing struct is an
      answer of its own, and an error of either file is passed on. */
  lemma FieldsExact(sdk: Sdk, m: string, o: string)
    ensures FreshFields(sdk, m, o) == Ok(None) <==> sdk.opInput(m, o) == Ok(None)
    ensures forall e :: FreshFields(sdk, m, o) == Err(e) <==>
              sdk.opInput(m, o) == Err(e) || (sdk.opInput(m, o).Ok? && sdk.opInput(m, o).value.Some? && sdk.types(m) == Err(e))
    ensures forall names :: FreshFields(sdk, m, o) == Ok(Some(names)) ==>
              sdk.opInput(m, o).Ok? && sdk.opInput(m, o).value.Some? && sdk.types(m).Ok? &&
              var facts, fields := sdk.types(m).value, sdk.opInput(m, o).value.value;
              forall x :: x in names <==>
                exists k :: 0 <= k < |fields| && (x == Lower(fields[k].name) || InDeclaredType(facts, fields[k].typ, x))
  {
    hide Folded, InDeclaredType;
    if sdk.opInput(m, o).Ok? && sdk.opInput(m, o).value.Some? && sdk.types(m).Ok? {
      var facts, fields := sdk.types(m).value, sdk.opInput(m, o).value.value;
      forall x ensures x in Folded(facts, fields) <==>
                exists k :: 0 <= k < |fields| && (x == Lower(fields[k].name) || InDeclaredType(facts, fields[k].typ, x))
      {
        FoldedExact(facts, fields, x);
      }
    }
  }

  /** A plain file named like an operation's. */
  ghost predicate NamedLikeOp(e: Entry) {
    !e.isDir && exists op :: e.name == "api_op_" + op + ".go"
  }

  lemma IsOpFileExact(e: Entry)
    ensures IsOpFile(e) <==> NamedLikeOp(e)
  {
    if IsOpFile(e) {
      OpFileParts(e.name);
    }
    if op :| e.name == "api_op_" + op + ".go" {
      assert e.name[..7] == "api_op_" && e.name[|e.name| - 3..] == ".go";
    }
  }

  lemma OpFileParts(name: string)
    requires HasPrefix(name, "api_op_") && |name| >= 3 && name[|name| - 3..] == ".go"
    ensures exists op :: name == "api_op_" + op + ".go"
  {
    assert name[..7][6] == '_' && name[6] == '_';
    assert name[|name| - 3..][0] == '.' && name[|name| - 3..][1] == 'g' && name[|name| - 3..][2] == 'o';
    assert |name| >= 10;
    assert name == "api_op_" + name[7..|name| - 3] + ".go";
  }

  /** File `k` of the listing is an operation's file for which reading gives `r`. */
  ghost predicate OpFileReads(sdk: Sdk, m: string, es: seq<Entry>, k: nat, r: Result<Option<seq<string>>>) {
    k < |es| && NamedLikeOp(es[k]) && sdk.anyInput(m, es[k].name) == r
  }

  ghost predicate NamedBySome(sdk: Sdk, m: string, es: seq<Entry>, x: string) {
    exists k: nat, names, j :: OpFileReads(sdk, m, es, k, Ok(Some(names))) && 0 <= j < |names| && x == Lower(names[j])
  }

  ghost predicate FirstError(sdk: Sdk, m: string, es: seq<Entry>, k: nat, e: string) {
    OpFileReads(sdk, m, es, k, Err(e)) && forall i: nat :: i < k && NamedLikeOp(es[i]) ==> sdk.anyInput(m, es[i].name).Ok?
  }

  lemma {:induction false} LowerSetExact(names: seq<string>, x: string)
    ensures x in LowerSet(names) <==> exists j :: 0 <= j < |names| && x == Lower(names[j])
  {
    if names != [] {
      var n := |names| - 1;
      LowerSetExact(names[..n], x);
      forall j | 0 <= j < n ensures names[..n][j] == names[j] {}
    }
  }

  ghost predicate AllRead(sdk: Sdk, m: string, es: seq<Entry>) {
    forall i :: 0 <= i < |es| && NamedLikeOp(es[i]) ==> sdk.anyInput(m, es[i].name).Ok?
  }

  ghost predicate FailsWith(sdk: Sdk, m: string, es: seq<Entry>, e: string) {
    exists k: nat :: FirstError(sdk, m, es, k, e)
  }

  lemma AllReadSnoc(sdk: Sdk, m: string, es: seq<Entry>)
    requires es != []
    ensures var n := |es| - 1;
            AllRead(sdk, m, es) <==>
            AllRead(sdk, m, es[..n]) && (NamedLikeOp(es[n]) ==> sdk.anyInput(m, es[n].name).Ok?)
  {
    hide NamedLikeOp;
    var n := |es| - 1;
    forall i | 0 <= i < n ensures es[..n][i] == es[i] {}
  }

  lemma FailsSnoc(sdk: Sdk, m: string, es: seq<Entry>, e: string)
    requires es != []
    ensures var n := |es| - 1;
            FailsWith(sdk, m, es, e) <==>
            FailsWith(sdk, m, es[..n], e) ||
            (AllRead(sdk, m, es[..n]) && NamedLikeOp(es[n]) && sdk.anyInput(m, es[n].name) == Err(e))
  {
    hide NamedLikeOp;
    var n := |es| - 1;
    forall i | 0 <= i < n ensures es[..n][i] == es[i] {}
    if k: nat :| FirstError(sdk, m, es, k, e) {
      assert k < n ==> FirstError(sdk, m, es[..n], k, e);
    }
    if k: nat :| FirstError(sdk, m, es[..n], k, e) {
      assert FirstError(sdk, m, es, k, e);
    }
    if AllRead(sdk, m, es[..n]) && NamedLikeOp(es[n]) && sdk.anyInput(m, es[n].name) == Err(e) {
      assert FirstError(sdk, m, es, n, e);
    }
  }

  lemma NamedSnoc(sdk: Sdk, m: string, es: seq<Entry>, x: string)
    requires es != []
    ensures var n := |es| - 1;
            NamedBySome(sdk, m, es, x) <==>
            NamedBySome(sdk, m, es[..n], x) ||
            (NamedLikeOp(es[n]) && sdk.anyInput(m, es[n].name).Ok? && sdk.anyInput(m, es[n].name).value.Some? &&
             x in LowerSet(sdk.anyInput(m, es[n].name).value.value))
  {
    hide NamedLikeOp, LowerSet;
    var n := |es| - 1;
    forall i | 0 <= i < n ensures es[..n][i] == es[i] {}
    if k: nat, names, j :| OpFileReads(sdk, m, es, k, Ok(Some(names))) && 0 <= j < |names| && x == Lower(names[j]) {
      if k < n {
        assert OpFileReads(sdk, m, es[..n], k, Ok(Some(names)));
      } else {
        LowerSetExact(names, x);
      }
    }
    if k: nat, names, j :| OpFileReads(sdk, m, es[..n], k, Ok(Some(names))) && 0 <= j < |names| && x == Lower(names[j]) {
      assert OpFileReads(sdk, m, es, k, Ok(Some(names)));
    }
    if NamedLikeOp(es[n]) && sdk.anyInput(m, es[n].name).Ok? && sdk.anyInput(m, es[n].name).value.Some? {
      var names := sdk.anyInput(m, es[n].name).value.value;
      LowerSetExact(names, x);
      assert OpFileReads(sdk, m, es, n, Ok(Some(names)));
    }
  }

  /** The union fails with the first operation file that cannot be read, if there is one, and
      otherwise holds the lower-cased names of all of them and nothing else. */
  lemma {:induction false} UnionExact(sdk: Sdk, m: string, es: seq<Entry>)
    ensures UnionOf(sdk, m, es).Ok? <==> AllRead(sdk, m, es)
    ensures forall e :: UnionOf(sdk, m, es) == Err(e) <==> FailsWith(sdk, m, es, e)
    ensures UnionOf(sdk, m, es).Ok? ==> forall x :: x in UnionOf(sdk, m, es).value <==> NamedBySome(sdk, m, es, x)
  {
    hide IsOpFile, NamedLikeOp, LowerSet, AllRead, FailsWith, NamedBySome;
    if es == [] {
      NothingRead(sdk, m);
    } else {
      var n := |es| - 1;
      UnionExact(sdk, m, es[..n]);
      IsOpFileExact(es[n]);
      AllReadSnoc(sdk, m, es);
      forall e ensures UnionOf(sdk, m, es) == Err(e) <==> FailsWith(sdk, m, es, e) {
        FailsSnoc(sdk, m, es, e);
      }
      forall x ensures UnionOf(sdk, m, es).Ok? ==> (x in UnionOf(sdk, m, es).value <==> NamedBySome(sdk, m, es, x)) {
        NamedSnoc(sdk, m, es, x);
      }
    }
  }

  lemma NothingRead(sdk: Sdk, m: string)
    ensures AllRead(sdk, m, []) && (forall e :: !FailsWith(sdk, m, [], e)) && forall x :: !NamedBySome(sdk, m, [], x)
  {
  }

  /** A module's names are those of all its operation files. */
  lemma ModuleExact(sdk: Sdk, m: string)
    ensures sdk.dir(m).Err? ==> FreshModule(sdk, m) == Err(sdk.dir(m).error)
    ensures sdk.dir(m).Ok? ==>
              var es := sdk.dir(m).value;
              (FreshModule(sdk, m).Ok? <==> AllRead(sdk, m, es)) &&
              (forall e :: FreshModule(sdk, m) == Err(e) <==> FailsWith(sdk, m, es, e)) &&
              (FreshModule(sdk, m).Ok? ==> forall x :: x in FreshModule(sdk, m).value <==> NamedBySome(sdk, m, es, x))
  {
    hide UnionOf, AllRead, FailsWith, NamedBySome;
    if sdk.dir(m).Ok? {
      UnionExact(sdk, m, sdk.dir(m).value);
    }
  }
}
