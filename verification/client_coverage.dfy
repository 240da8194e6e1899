/** cmd/clientcoverage/main.go: which service owns a client call, and what is recorded. */
module ClientCoverage {
  import opened Sequences
  import opened Wrappers

  datatype Service = Service(name: string, modules: seq<string>, ops: seq<string>)

  // The module index.

  datatype Index = Index(moduleToServices: map<string, seq<string>>, serviceOps: map<string, set<string>>)

  /** One entry for each time the service lists the module. */
  function Listings(modules: seq<string>, m: string, name: string): seq<string> {
    if modules == [] then []
    else
      var n := |modules| - 1;
      Listings(modules[..n], m, name) + if modules[n] == m then [name] else []
  }

  function ServicesOf(services: seq<Service>, m: string): seq<string> {
    if services == [] then []
    else
      var n := |services| - 1;
      ServicesOf(services[..n], m) + Listings(services[n].modules, m, services[n].name)
  }

  /** The operations of the last service of that name. */
  function OpsOf(services: seq<Service>, name: string): Option<set<string>> {
    if services == [] then None
    else
      var n := |services| - 1;
      if services[n].name == name then Some(Elems(services[n].ops)) else OpsOf(services[..n], name)
  }

  function Get(m: map<string, seq<string>>, k: string): seq<string> {
    if k in m then m[k] else []
  }

  ghost predicate ModulesIndexed(m: map<string, seq<string>>, services: seq<Service>) {
    forall k :: Get(m, k) == ServicesOf(services, k)
  }

  ghost predicate OpsIndexed(ops: map<string, set<string>>, services: seq<Service>) {
    forall s :: (s in ops <==> OpsOf(services, s).Some?) && (s in ops ==> OpsOf(services, s) == Some(ops[s]))
  }

  ghost predicate Indexes(idx: Index, services: seq<Service>) {
    ModulesIndexed(idx.moduleToServices, services) && OpsIndexed(idx.serviceOps, services)
  }

  method OpSet(ops: seq<string>) returns (s: set<string>)
    ensures s == Elems(ops)
  {
    s := {};
    for i := 0 to |ops|
      invariant s == Elems(ops[..i])
    {
      assert ops[..i + 1] == ops[..i] + [ops[i]];
      s := s + {ops[i]};
    }
    assert ops[..|ops|] == ops;
  }

  method AddListings(m: map<string, seq<string>>, s: Service, ghost before: seq<Service>) returns (r: map<string, seq<string>>)
    requires ModulesIndexed(m, before)
    ensures ModulesIndexed(r, before + [s])
  {
    hide ServicesOf, Listings;
    r := m;
    NothingListed(s.name);
    for j := 0 to |s.modules|
      invariant PartlyListed(r, before, s.modules[..j], s.name)
    {
      ListingsSnoc(s.modules, j, s.name);
      r := r[s.modules[j] := Get(r, s.modules[j]) + [s.name]];
    }
    assert s.modules[..|s.modules|] == s.modules;
    ServicesSnoc(before, s);
  }

  ghost predicate PartlyListed(r: map<string, seq<string>>, before: seq<Service>, modules: seq<string>, name: string) {
    forall k :: Get(r, k) == ServicesOf(before, k) + Listings(modules, k, name)
  }

  lemma NothingListed(name: string)
    ensures forall k :: Listings([], k, name) == []
  {
  }

  lemma ListingsSnoc(modules: seq<string>, j: nat, name: string)
    requires j < |modules|
    ensures forall k :: Listings(modules[..j + 1], k, name) ==
                        Listings(modules[..j], k, name) + if modules[j] == k then [name] else []
  {
    assert modules[..j + 1][..j] == modules[..j];
  }

  lemma ServicesSnoc(before: seq<Service>, s: Service)
    ensures forall k :: ServicesOf(before + [s], k) == ServicesOf(before, k) + Listings(s.modules, k, s.name)
  {
    assert (before + [s])[..|before|] == before;
  }

  method BuildModuleIndex(services: seq<Service>) returns (idx: Index)
    ensures Indexes(idx, services)
  {
    idx := Index(map[], map[]);
    for i := 0 to |services|
      invariant Indexes(idx, services[..i])
    {
      var s := services[i];
      assert services[..i + 1] == services[..i] + [s];
      assert services[..i + 1][..i] == services[..i];
      var ops := OpSet(s.ops);
      var modules := AddListings(idx.moduleToServices, s, services[..i]);
      idx := Index(modules, idx.serviceOps[s.name := ops]);
    }
    assert services[..|services|] == services;
  }

  // Ownership of a call.

  predicate HasOp(idx: Index, service: string, op: string) {
    service in idx.serviceOps && op in idx.serviceOps[service]
  }

  function Declaring(idx: Index, candidates: seq<string>, op: string): seq<string> {
    if candidates == [] then []
    else
      var n := |candidates| - 1;
      Declaring(idx, candidates[..n], op) + if HasOp(idx, candidates[n], op) then [candidates[n]] else []
  }

  function Named(candidates: seq<string>, name: string): seq<string> {
    if candidates == [] then []
    else
      var n := |candidates| - 1;
      Named(candidates[..n], name) + if candidates[n] == name then [candidates[n]] else []
  }

  /** The owner, "" if there is none, and whether that is for ambiguity. */
  function Owner(idx: Index, m: string, op: string): (string, bool) {
    var matches := Declaring(idx, Get(idx.moduleToServices, m), op);
    if |matches| == 1 then (matches[0], false)
    else if |matches| > 1 && |Named(matches, m)| == 1 then (m, false)
    else ("", |matches| > 1)
  }

  method ResolveOwner(idx: Index, m: string, op: string) returns (svc: string, ambiguous: bool)
    ensures (svc, ambiguous) == Owner(idx, m, op)
  {
    var candidates := Get(idx.moduleToServices, m);
    var matches: seq<string> := [];
    for i := 0 to |candidates|
      invariant matches == Declaring(idx, candidates[..i], op)
    {
      assert candidates[..i + 1][..i] == candidates[..i];
      if HasOp(idx, candidates[i], op) {
        matches := matches + [candidates[i]];
      }
    }
    assert candidates[..|candidates|] == candidates;
    if |matches| == 1 {
      return matches[0], false;
    }
    if |matches| > 1 {
      var native: seq<string> := [];
      for i := 0 to |matches|
        invariant native == Named(matches[..i], m)
      {
        assert matches[..i + 1][..i] == matches[..i];
        if matches[i] == m {
          native := native + [matches[i]];
        }
      }
      assert matches[..|matches|] == matches;
      if |native| == 1 {
        NamedAreTheName(matches, m);
        return native[0], false;
      }
    }
    return "", |matches| > 1;
  }

  lemma NamedAreTheName(candidates: seq<string>, name: string)
    ensures forall k :: 0 <= k < |Named(candidates, name)| ==> Named(candidates, name)[k] == name
  {
  }

  // Ownership stated on the census itself.

  ghost predicate DistinctNames(services: seq<Service>) {
    forall i, j :: 0 <= i < j < |services| ==> services[i].name != services[j].name
  }

  /** Service names are distinct and no service lists a module twice. */
  ghost predicate ValidCensus(services: seq<Service>) {
    DistinctNames(services) && forall i :: 0 <= i < |services| ==> NoDup(services[i].modules)
  }

  ghost predicate Claims(services: seq<Service>, m: string, op: string, name: string) {
    exists s :: s in services && s.name == name && m in s.modules && op in s.ops
  }

  lemma {:induction false} ListingsExact(modules: seq<string>, m: string, name: string)
    requires NoDup(modules)
    ensures Listings(modules, m, name) == if m in modules then [name] else []
  {
    if modules != [] {
      var n := |modules| - 1;
      ListingsExact(modules[..n], m, name);
      assert modules == modules[..n] + [modules[n]];
    }
  }

  ghost predicate Lists(services: seq<Service>, m: string, name: string) {
    exists s :: s in services && s.name == name && m in s.modules
  }

  lemma ListsSnoc(services: seq<Service>, m: string)
    requires ValidCensus(services) && services != []
    ensures var n := |services| - 1;
            ValidCensus(services[..n]) && NoDup(services[n].modules) &&
            !Lists(services[..n], m, services[n].name) &&
            forall x :: Lists(services, m, x) <==> Lists(services[..n], m, x) || (x == services[n].name && m in services[n].modules)
  {
    var n := |services| - 1;
    assert services == services[..n] + [services[n]];
    forall s | s in services[..n] ensures s.name != services[n].name {
      var k :| 0 <= k < n && services[..n][k] == s;
    }
  }

  lemma {:induction false} ServicesOfExact(services: seq<Service>, m: string)
    requires ValidCensus(services)
    ensures NoDup(ServicesOf(services, m))
    ensures forall x :: x in ServicesOf(services, m) <==> Lists(services, m, x)
  {
    hide ValidCensus, Lists, Listings;
    if services == [] {
      NothingLists(m);
    } else {
      var n := |services| - 1;
      ListsSnoc(services, m);
      ServicesOfExact(services[..n], m);
      ListingsExact(services[n].modules, m, services[n].name);
    }
  }

  lemma NothingLists(m: string)
    ensures forall x :: !Lists([], m, x)
  {
  }

  lemma {:induction false} OpsOfExact(services: seq<Service>, s: Service)
    requires DistinctNames(services) && s in services
    ensures OpsOf(services, s.name) == Some(Elems(s.ops))
  {
    var n := |services| - 1;
    assert services == services[..n] + [services[n]];
    if services[n] != s {
      assert s in services[..n];
      var k :| 0 <= k < n && services[k] == s;
      assert services[n].name != s.name;
      OpsOfExact(services[..n], s);
    }
  }

  /** Services that share a name: the index keeps the operations of the last of them, and
      lists a module under the name if any of them does. */
  lemma IndexExact(services: seq<Service>, idx: Index)
    requires Indexes(idx, services)
    ensures forall name :: name in idx.serviceOps <==> exists k :: 0 <= k < |services| && services[k].name == name
    ensures forall k, op :: 0 <= k < |services| && LastOfName(services, k) ==>
              (HasOp(idx, services[k].name, op) <==> op in services[k].ops)
    ensures forall m, name :: name in Get(idx.moduleToServices, m) <==> Lists(services, m, name)
  {
    hide OpsOf, ServicesOf, Lists, LastOfName, Get;
    forall name ensures OpsOf(services, name).Some? <==> exists k :: 0 <= k < |services| && services[k].name == name {
      OpsOfSome(services, name);
    }
    forall k, op | 0 <= k < |services| && LastOfName(services, k)
      ensures HasOp(idx, services[k].name, op) <==> op in services[k].ops
    {
      OpsOfSome(services, services[k].name);
      OpsOfLast(services, k);
    }
    forall m, name ensures name in Get(idx.moduleToServices, m) <==> Lists(services, m, name) {
      ServicesOfHolds(services, m, name);
    }
  }

  ghost predicate LastOfName(services: seq<Service>, k: int)
    requires 0 <= k < |services|
  {
    forall j :: k < j < |services| ==> services[j].name != services[k].name
  }

  lemma {:induction false} OpsOfSome(services: seq<Service>, name: string)
    ensures OpsOf(services, name).Some? <==> exists k :: 0 <= k < |services| && services[k].name == name
  {
    if services != [] {
      var n := |services| - 1;
      OpsOfSome(services[..n], name);
      forall k | 0 <= k < n ensures services[..n][k] == services[k] {}
    }
  }

  lemma {:induction false} OpsOfLast(services: seq<Service>, k: nat)
    requires k < |services| && LastOfName(services, k)
    ensures OpsOf(services, services[k].name) == Some(Elems(services[k].ops))
    decreases |services|
  {
    var n := |services| - 1;
    if k < n {
      OpsOfLast(services[..n], k);
    }
  }

  lemma {:induction false} ServicesOfHolds(services: seq<Service>, m: string, name: string)
    ensures name in ServicesOf(services, m) <==> Lists(services, m, name)
  {
    hide Listings;
    if services != [] {
      var n := |services| - 1;
      ServicesOfHolds(services[..n], m, name);
      ListingsHold(services[n].modules, m, services[n].name);
      assert services == services[..n] + [services[n]];
    }
  }

  lemma {:induction false} ListingsHold(modules: seq<string>, m: string, name: string)
    ensures forall x :: x in Listings(modules, m, name) <==> x == name && m in modules
  {
    if modules != [] {
      var n := |modules| - 1;
      ListingsHold(modules[..n], m, name);
      assert modules == modules[..n] + [modules[n]];
    }
  }

  lemma {:induction false} DeclaringExact(idx: Index, candidates: seq<string>, op: string)
    requires NoDup(candidates)
    ensures NoDup(Declaring(idx, candidates, op))
    ensures forall x :: x in Declaring(idx, candidates, op) <==> x in candidates && HasOp(idx, x, op)
  {
    if candidates != [] {
      var n := |candidates| - 1;
      DeclaringExact(idx, candidates[..n], op);
      assert candidates == candidates[..n] + [candidates[n]];
    }
  }

  lemma {:induction false} NamedExact(candidates: seq<string>, name: string)
    requires NoDup(candidates)
    ensures Named(candidates, name) == if name in candidates then [name] else []
  {
    if candidates != [] {
      var n := |candidates| - 1;
      NamedExact(candidates[..n], name);
      assert candidates == candidates[..n] + [candidates[n]];
    }
  }

  lemma CandidatesExact(services: seq<Service>, idx: Index, m: string, op: string)
    requires ValidCensus(services) && Indexes(idx, services)
    ensures var matches := Declaring(idx, Get(idx.moduleToServices, m), op);
            NoDup(matches) && forall x :: x in matches <==> Claims(services, m, op, x)
  {
    hide DistinctNames, ServicesOf, OpsOf, Declaring, Get;
    ServicesOfExact(services, m);
    var candidates := Get(idx.moduleToServices, m);
    DeclaringExact(idx, candidates, op);
    forall s | s in services ensures HasOp(idx, s.name, op) <==> op in s.ops {
      OpsOfExact(services, s);
      assert op in Elems(s.ops) <==> op in s.ops;
    }
    SameNameSameService(services);
  }

  lemma SameNameSameService(services: seq<Service>)
    requires DistinctNames(services)
    ensures forall s, t :: s in services && t in services && s.name == t.name ==> s == t
  {
  }

  /** A returned owner imports the module and declares the operation; it is the only
      candidate, or the candidate named like the module. Ambiguity is reported exactly when
      there are at least two candidates and none is named like the module. */
  lemma OwnerExact(services: seq<Service>, idx: Index, m: string, op: string)
    requires ValidCensus(services) && Indexes(idx, services)
    ensures var (svc, ambiguous) := Owner(idx, m, op);
            (ambiguous <==> TwoClaims(services, m, op) && !Claims(services, m, op, m)) &&
            (ambiguous ==> svc == "") &&
            (svc != "" ==> Claims(services, m, op, svc) &&
                           (svc == m || forall x :: Claims(services, m, op, x) ==> x == svc)) &&
            (!ambiguous && (exists x :: Claims(services, m, op, x)) ==> Claims(services, m, op, svc))
  {
    hide ValidCensus, Indexes, Declaring, Named, Claims, Get;
    CandidatesExact(services, idx, m, op);
    var matches := Declaring(idx, Get(idx.moduleToServices, m), op);
    NamedExact(matches, m);
    if |matches| > 1 {
      assert matches[0] != matches[1] && matches[0] in matches && matches[1] in matches;
    } else if |matches| == 1 {
      assert matches[0] in matches;
    }
  }

  ghost predicate TwoClaims(services: seq<Service>, m: string, op: string) {
    exists x, y :: x != y && Claims(services, m, op, x) && Claims(services, m, op, y)
  }

  lemma NoDupSizes<T>(xs: seq<T>, ys: seq<T>)
    requires NoDup(xs) && NoDup(ys) && forall x :: x in xs <==> x in ys
    ensures |xs| == |ys|
  {
    NoDupMultiset(xs);
    NoDupMultiset(ys);
    assert Elems(xs) == Elems(ys);
  }

  /** The answer does not depend on the order of the census. */
  lemma OwnerIgnoresCensusOrder(services: seq<Service>, idx: Index, other: seq<Service>, idx2: Index, m: string, op: string)
    requires ValidCensus(services) && Indexes(idx, services)
    requires multiset(services) == multiset(other) && Indexes(idx2, other)
    ensures Owner(idx, m, op) == Owner(idx2, m, op)
  {
    hide ValidCensus, Indexes, Declaring, Named, Get;
    PermutedCensusIsValid(services, other);
    CandidatesExact(services, idx, m, op);
    CandidatesExact(other, idx2, m, op);
    var a := Declaring(idx, Get(idx.moduleToServices, m), op);
    var b := Declaring(idx2, Get(idx2.moduleToServices, m), op);
    forall s ensures s in services <==> s in other { assert s in multiset(services) <==> s in multiset(other); }
    forall x ensures x in a <==> x in b { assert Claims(services, m, op, x) <==> Claims(other, m, op, x); }
    NoDupSizes(a, b);
    NamedExact(a, m);
    NamedExact(b, m);
    if |a| == 1 {
      assert a[0] in a && b[0] in b;
    }
  }

  lemma PermutedCensusIsValid(services: seq<Service>, other: seq<Service>)
    requires ValidCensus(services) && multiset(services) == multiset(other)
    ensures ValidCensus(other)
  {
    SameNameSameService(services);
    assert NoDup(services);
    SameMultisetFacts(services, other);
    forall s | s in other ensures s in services { assert s in multiset(other); }
    forall i | 0 <= i < |other| ensures NoDup(other[i].modules) { assert other[i] in other; }
    forall i, j | 0 <= i < j < |other| ensures other[i].name != other[j].name {
      assert other[i] in other && other[j] in other && other[i] != other[j];
    }
  }

  // Ownership when services may list a module more than once: the listings decide.

  /** How often services that declare `op` list `m`. */
  ghost function Listed(services: seq<Service>, m: string, op: string): nat {
    if services == [] then 0
    else
      var n := |services| - 1;
      Listed(services[..n], m, op) + if op in services[n].ops then multiset(services[n].modules)[m] else 0
  }

  /** How often the service called `name` lists `m`, if it declares `op`. */
  ghost function ListedBy(services: seq<Service>, m: string, op: string, name: string): nat {
    if services == [] then 0
    else
      var n := |services| - 1;
      ListedBy(services[..n], m, op, name) +
      if services[n].name == name && op in services[n].ops then multiset(services[n].modules)[m] else 0
  }

  lemma LastCounted(xs: seq<string>, x: string)
    requires xs != []
    ensures multiset(xs)[x] == multiset(xs[..|xs| - 1])[x] + if xs[|xs| - 1] == x then 1 else 0
  {
    assert xs == xs[..|xs| - 1] + [xs[|xs| - 1]];
  }

  lemma {:induction false} ListingsCounted(modules: seq<string>, m: string, name: string)
    ensures |Listings(modules, m, name)| == multiset(modules)[m]
    ensures forall k :: 0 <= k < |Listings(modules, m, name)| ==> Listings(modules, m, name)[k] == name
  {
    if modules != [] {
      ListingsCounted(modules[..|modules| - 1], m, name);
      LastCounted(modules, m);
    }
  }

  lemma {:induction false} DeclaringAppend(idx: Index, a: seq<string>, b: seq<string>, op: string)
    ensures Declaring(idx, a + b, op) == Declaring(idx, a, op) + Declaring(idx, b, op)
  {
    hide HasOp;
    if b == [] {
      assert a + b == a;
    } else {
      assert (a + b)[..|a + b| - 1] == a + b[..|b| - 1];
      DeclaringAppend(idx, a, b[..|b| - 1], op);
    }
  }

  lemma {:induction false} DeclaringOfOne(idx: Index, names: seq<string>, name: string, op: string)
    requires forall k :: 0 <= k < |names| ==> names[k] == name
    ensures Declaring(idx, names, op) == if HasOp(idx, name, op) then names else []
  {
    hide HasOp;
    if names != [] {
      DeclaringOfOne(idx, names[..|names| - 1], name, op);
    }
  }

  /** The names of the services whose operations the index holds as they declare them. */
  ghost predicate OpsFaithful(idx: Index, services: seq<Service>, op: string) {
    forall s :: s in services ==> (HasOp(idx, s.name, op) <==> op in s.ops)
  }

  lemma {:induction false} MatchesCounted(services: seq<Service>, idx: Index, m: string, op: string)
    requires OpsFaithful(idx, services, op)
    ensures var matches := Declaring(idx, ServicesOf(services, m), op);
            |matches| == Listed(services, m, op) &&
            forall name :: multiset(matches)[name] == ListedBy(services, m, op, name)
  {
    hide HasOp, Listings, Declaring;
    if services == [] {
      NothingDeclared(idx, op);
    } else {
      var n := |services| - 1;
      var s := services[n];
      assert services == services[..n] + [s];
      MatchesCounted(services[..n], idx, m, op);
      var more := Listings(s.modules, m, s.name);
      ListingsCounted(s.modules, m, s.name);
      DeclaringAppend(idx, ServicesOf(services[..n], m), more, op);
      DeclaringOfOne(idx, more, s.name, op);
      CopiesCounted(more, s.name);
    }
  }

  lemma NothingDeclared(idx: Index, op: string)
    ensures Declaring(idx, [], op) == []
  {
  }

  lemma {:induction false} CopiesCounted(names: seq<string>, name: string)
    requires forall k :: 0 <= k < |names| ==> names[k] == name
    ensures forall x :: multiset(names)[x] == if x == name then |names| else 0
  {
    if names != [] {
      var n := |names| - 1;
      CopiesCounted(names[..n], name);
      assert names == names[..n] + [names[n]];
    }
  }

  lemma {:induction false} NamedCounted(candidates: seq<string>, name: string)
    ensures |Named(candidates, name)| == multiset(candidates)[name]
  {
    if candidates != [] {
      NamedCounted(candidates[..|candidates| - 1], name);
      LastCounted(candidates, name);
    }
  }

  lemma DistinctNamesAreFaithful(services: seq<Service>, idx: Index, op: string)
    requires DistinctNames(services) && Indexes(idx, services)
    ensures OpsFaithful(idx, services, op)
  {
    hide DistinctNames, OpsOf, ModulesIndexed;
    forall s | s in services ensures HasOp(idx, s.name, op) <==> op in s.ops {
      OpsOfExact(services, s);
      assert op in Elems(s.ops) <==> op in s.ops;
    }
  }

  /** For every census with distinct service names, modules listed as often as it may be: the
      call is ambiguous iff services declaring the operation list the module at least twice in
      all and the service named like the module does not do so exactly once; a service owns
      the call iff its listing is the only one, or it is named like the module and lists it
      exactly once. */
  lemma OwnerByListings(services: seq<Service>, idx: Index, m: string, op: string)
    requires DistinctNames(services) && Indexes(idx, services)
    ensures var all, native := Listed(services, m, op), ListedBy(services, m, op, m);
            (Owner(idx, m, op).1 <==> all >= 2 && native != 1) &&
            forall name :: name != "" ==>
              (Owner(idx, m, op) == (name, false) <==>
               ListedBy(services, m, op, name) == 1 && (all == 1 || name == m))
  {
    hide DistinctNames, Indexes, Declaring, Named, Get, OpsFaithful, Listed, ListedBy;
    DistinctNamesAreFaithful(services, idx, op);
    MatchesCounted(services, idx, m, op);
    MatchesAre(services, idx, m, op);
    var matches := Declaring(idx, Get(idx.moduleToServices, m), op);
    NamedCounted(matches, m);
    CountsOf(matches);
  }

  lemma MatchesAre(services: seq<Service>, idx: Index, m: string, op: string)
    requires Indexes(idx, services)
    ensures Declaring(idx, Get(idx.moduleToServices, m), op) == Declaring(idx, ServicesOf(services, m), op)
  {
    hide Declaring, ServicesOf;
  }

  lemma CountsOf(names: seq<string>)
    ensures forall name :: multiset(names)[name] <= |names|
    ensures |names| == 1 ==> forall name :: multiset(names)[name] == 1 <==> names[0] == name
  {
    assert |multiset(names)| == |names|;
    forall name ensures multiset(names)[name] <= |names| {
      assert multiset(names)[name := 0] <= multiset(names);
      assert |multiset(names)| == |multiset(names)[name := 0]| + multiset(names)[name];
    }
    if |names| == 1 {
      assert names == [names[0]];
    }
  }

  /** So a service that lists the module more than once owns none of its calls, not even if it
      is named like the module; and a service without competitors owns its calls iff it lists
      the module once. */
  lemma RepeatedModuleIsAmbiguous(services: seq<Service>, s: Service, idx: Index, m: string, op: string)
    requires DistinctNames(services) && Indexes(idx, services) && s in services && op in s.ops && s.name != ""
    ensures multiset(s.modules)[m] >= 2 ==> Owner(idx, m, op) != (s.name, false)
    ensures (forall t :: t in services && op in t.ops && m in t.modules ==> t == s) ==>
              (Owner(idx, m, op) == (s.name, false) <==> multiset(s.modules)[m] == 1) &&
              (Owner(idx, m, op).1 <==> multiset(s.modules)[m] >= 2)
  {
    hide Owner, Indexes, Listed, ListedBy;
    OwnerByListings(services, idx, m, op);
    ListedByOwn(services, s, m, op);
  }

  lemma {:induction false} ListedByOwn(services: seq<Service>, s: Service, m: string, op: string)
    requires DistinctNames(services) && s in services && op in s.ops
    ensures ListedBy(services, m, op, s.name) == multiset(s.modules)[m]
    ensures (forall t :: t in services && op in t.ops && m in t.modules ==> t == s) ==>
              Listed(services, m, op) == multiset(s.modules)[m] &&
              (s.name != m ==> ListedBy(services, m, op, m) == 0)
  {
    var n := |services| - 1;
    assert services == services[..n] + [services[n]];
    SameNameSameService(services);
    if services[n] == s {
      NotListed(services[..n], s, m, op);
    } else {
      ListedByOwn(services[..n], s, m, op);
    }
  }

  lemma {:induction false} NotListed(services: seq<Service>, s: Service, m: string, op: string)
    requires forall t :: t in services ==> t.name != s.name
    ensures ListedBy(services, m, op, s.name) == 0
    ensures (forall t :: t in services && op in t.ops && m in t.modules ==> t == s) ==>
              Listed(services, m, op) == 0 && ListedBy(services, m, op, m) == 0
  {
    if services != [] {
      var n := |services| - 1;
      assert services == services[..n] + [services[n]];
      NotListed(services[..n], s, m, op);
    }
  }

  // The record.

  datatype Evidence = Evidence(file: string, line: int)
  datatype Ambiguity = Ambiguity(m: string, op: string, at: Evidence)
  datatype Credit = Credit(m: string, op: string, at: Evidence)

  type Covered = map<string, map<string, Evidence>>

  datatype Coverage = Coverage(covered: Covered, ambiguous: seq<Ambiguity>)

  function Ops(c: Covered, svc: string): map<string, Evidence> {
    if svc in c then c[svc] else map[]
  }

  function Recorded(cov: Coverage, idx: Index, c: Credit): Coverage {
    var (svc, ambiguous) := Owner(idx, c.m, c.op);
    if ambiguous then cov.(ambiguous := cov.ambiguous + [Ambiguity(c.m, c.op, c.at)])
    else if svc == "" || c.op in Ops(cov.covered, svc) then cov
    else cov.(covered := cov.covered[svc := Ops(cov.covered, svc)[c.op := c.at]])
  }

  function RecordAll(cov: Coverage, idx: Index, credits: seq<Credit>): Coverage {
    if credits == [] then cov
    else Recorded(RecordAll(cov, idx, credits[..|credits| - 1]), idx, credits[|credits| - 1])
  }

  class CoverageResult {
    var covered: Covered
    var ambiguous: seq<Ambiguity>

    constructor ()
      ensures covered == map[] && ambiguous == []
    {
      covered, ambiguous := map[], [];
    }

    function State(): Coverage
      reads this
    {
      Coverage(covered, ambiguous)
    }

    method Record(idx: Index, m: string, op: string, at: Evidence)
      modifies this
      ensures State() == Recorded(old(State()), idx, Credit(m, op, at))
    {
      var svc, amb := ResolveOwner(idx, m, op);
      if amb {
        ambiguous := ambiguous + [Ambiguity(m, op, at)];
        return;
      }
      if svc == "" {
        return;
      }
      if svc !in covered {
        if op !in Ops(covered, svc) {
          covered := covered[svc := map[]];
          covered := covered[svc := covered[svc][op := at]];
        }
      } else if op !in covered[svc] {
        covered := covered[svc := covered[svc][op := at]];
      }
    }
  }

  const EMPTY := Coverage(map[], [])

  /** Every credited operation is one the credited service declares. */
  ghost predicate OnlyDeclared(cov: Coverage, idx: Index) {
    forall svc, op :: op in Ops(cov.covered, svc) ==> HasOp(idx, svc, op)
  }

  lemma OwnerDeclares(idx: Index, m: string, op: string)
    ensures Owner(idx, m, op).0 != "" ==> HasOp(idx, Owner(idx, m, op).0, op)
    ensures Owner(idx, m, op).1 ==> Owner(idx, m, op).0 == ""
  {
    var candidates := Get(idx.moduleToServices, m);
    AllDeclare(idx, candidates, op);
    var matches := Declaring(idx, candidates, op);
    if |matches| > 1 && |Named(matches, m)| == 1 {
      NamedIn(matches, m);
    }
  }

  lemma AllDeclare(idx: Index, candidates: seq<string>, op: string)
    ensures forall k :: 0 <= k < |Declaring(idx, candidates, op)| ==> HasOp(idx, Declaring(idx, candidates, op)[k], op)
  {
  }

  lemma NamedIn(candidates: seq<string>, name: string)
    ensures Named(candidates, name) != [] ==> name in candidates
  {
    if candidates != [] {
      NamedIn(candidates[..|candidates| - 1], name);
    }
  }

  lemma {:induction false} RecordedOpsAreDeclared(idx: Index, credits: seq<Credit>)
    ensures OnlyDeclared(RecordAll(EMPTY, idx, credits), idx)
  {
    hide Owner, HasOp;
    if credits != [] {
      var n := |credits| - 1;
      RecordedOpsAreDeclared(idx, credits[..n]);
      OwnerDeclares(idx, credits[n].m, credits[n].op);
    }
  }

  predicate GoesTo(idx: Index, c: Credit, svc: string, op: string) {
    c.op == op && svc != "" && Owner(idx, c.m, c.op) == (svc, false)
  }

  /** The first credit that goes to the service and operation. */
  ghost predicate FirstGoing(idx: Index, credits: seq<Credit>, svc: string, op: string, k: nat) {
    k < |credits| && GoesTo(idx, credits[k], svc, op) && forall j :: 0 <= j < k ==> !GoesTo(idx, credits[j], svc, op)
  }

  ghost predicate Going(idx: Index, credits: seq<Credit>, svc: string, op: string) {
    exists k: nat :: FirstGoing(idx, credits, svc, op, k)
  }

  lemma GoingSnoc(idx: Index, credits: seq<Credit>, svc: string, op: string)
    requires credits != []
    ensures var n := |credits| - 1;
            (forall k: nat :: FirstGoing(idx, credits[..n], svc, op, k) ==> FirstGoing(idx, credits, svc, op, k)) &&
            (!Going(idx, credits[..n], svc, op) ==>
               (FirstGoing(idx, credits, svc, op, n) <==> GoesTo(idx, credits[n], svc, op)) &&
               (Going(idx, credits, svc, op) <==> GoesTo(idx, credits[n], svc, op)))
  {
    hide GoesTo;
    var n := |credits| - 1;
    forall k | 0 <= k < n ensures credits[..n][k] == credits[k] {}
    forall k: nat | k < n && GoesTo(idx, credits[k], svc, op) ensures Going(idx, credits[..n], svc, op) {
      SomeFirst(idx, credits[..n], svc, op, k);
    }
  }

  /** If some credit goes there, there is a first one. */
  lemma {:induction false} SomeFirst(idx: Index, credits: seq<Credit>, svc: string, op: string, k: nat)
    requires k < |credits| && GoesTo(idx, credits[k], svc, op)
    ensures Going(idx, credits, svc, op)
    decreases k
  {
    hide GoesTo;
    if j: nat :| j < k && GoesTo(idx, credits[j], svc, op) {
      SomeFirst(idx, credits, svc, op, j);
    } else {
      assert FirstGoing(idx, credits, svc, op, k);
    }
  }

  /** An operation is covered iff some recorded call goes to it, and it keeps the evidence of
      the first such call. */
  lemma {:induction false} FirstEvidenceIsKept(idx: Index, credits: seq<Credit>, svc: string, op: string)
    ensures var ops := Ops(RecordAll(EMPTY, idx, credits).covered, svc);
            (op in ops <==> exists c :: c in credits && GoesTo(idx, c, svc, op)) &&
            (op in ops ==> exists k: nat :: FirstGoing(idx, credits, svc, op, k) && ops[op] == credits[k].at)
  {
    hide RecordAll, GoesTo;
    EvidenceFrom(idx, credits, svc, op);
    if c :| c in credits && GoesTo(idx, c, svc, op) {
      var k :| 0 <= k < |credits| && credits[k] == c;
      SomeFirst(idx, credits, svc, op, k);
    }
  }

  lemma {:induction false} EvidenceFrom(idx: Index, credits: seq<Credit>, svc: string, op: string)
    ensures var ops := Ops(RecordAll(EMPTY, idx, credits).covered, svc);
            (op in ops <==> Going(idx, credits, svc, op)) &&
            (op in ops ==> exists k: nat :: FirstGoing(idx, credits, svc, op, k) && ops[op] == credits[k].at)
  {
    hide Owner, FirstGoing, Going;
    if credits == [] {
      NothingGoes(idx, svc, op);
    } else {
      var n := |credits| - 1;
      EvidenceFrom(idx, credits[..n], svc, op);
      GoingSnoc(idx, credits, svc, op);
      GoingIs(idx, credits, svc, op);
      GoingIs(idx, credits[..n], svc, op);
      OwnerDeclares(idx, credits[n].m, credits[n].op);
    }
  }

  lemma GoingIs(idx: Index, credits: seq<Credit>, svc: string, op: string)
    ensures Going(idx, credits, svc, op) <==> exists k: nat :: FirstGoing(idx, credits, svc, op, k)
    ensures forall k: nat :: FirstGoing(idx, credits, svc, op, k) ==> k < |credits|
  {
    hide FirstGoing;
    forall k: nat | FirstGoing(idx, credits, svc, op, k) ensures k < |credits| {
      FirstIsIn(idx, credits, svc, op, k);
    }
  }

  lemma FirstIsIn(idx: Index, credits: seq<Credit>, svc: string, op: string, k: nat)
    requires FirstGoing(idx, credits, svc, op, k)
    ensures k < |credits|
  {
    hide GoesTo;
  }

  lemma NothingGoes(idx: Index, svc: string, op: string)
    ensures !Going(idx, [], svc, op)
  {
  }

  ghost predicate IsAmbiguous(idx: Index, c: Credit) {
    Owner(idx, c.m, c.op).1
  }

  ghost function AmbiguityOf(c: Credit): Ambiguity {
    Ambiguity(c.m, c.op, c.at)
  }

  /** `ks` are the positions of the calls whose owner is ambiguous, in order. */
  ghost predicate AmbiguousPositions(ks: seq<nat>, idx: Index, credits: seq<Credit>) {
    (forall j :: 0 <= j < |ks| ==> ks[j] < |credits| && IsAmbiguous(idx, credits[ks[j]])) &&
    (forall i, j :: 0 <= i < j < |ks| ==> ks[i] < ks[j]) &&
    forall k :: 0 <= k < |credits| && IsAmbiguous(idx, credits[k]) ==> k in ks
  }

  /** The ambiguous calls are listed as they were recorded, one entry for each. */
  lemma {:induction false} AmbiguousAreListed(idx: Index, credits: seq<Credit>) returns (ks: seq<nat>)
    ensures AmbiguousPositions(ks, idx, credits)
    ensures var listed := RecordAll(EMPTY, idx, credits).ambiguous;
            |listed| == |ks| && forall j :: 0 <= j < |ks| ==> listed[j] == AmbiguityOf(credits[ks[j]])
  {
    hide Owner, AmbiguousPositions;
    ks := [];
    if credits == [] {
      NothingAmbiguous(idx);
    } else {
      var n := |credits| - 1;
      ks := AmbiguousAreListed(idx, credits[..n]);
      PositionsInside(ks, idx, credits[..n]);
      AmbiguousSnoc(ks, idx, credits);
      if IsAmbiguous(idx, credits[n]) {
        ks := ks + [n];
      }
    }
  }

  lemma NothingAmbiguous(idx: Index)
    ensures AmbiguousPositions([], idx, [])
  {
  }

  lemma PositionsInside(ks: seq<nat>, idx: Index, credits: seq<Credit>)
    requires AmbiguousPositions(ks, idx, credits)
    ensures forall j :: 0 <= j < |ks| ==> ks[j] < |credits|
  {
  }

  lemma AmbiguousSnoc(ks: seq<nat>, idx: Index, credits: seq<Credit>)
    requires credits != [] && AmbiguousPositions(ks, idx, credits[..|credits| - 1])
    ensures var n := |credits| - 1;
            AmbiguousPositions(if IsAmbiguous(idx, credits[n]) then ks + [n] else ks, idx, credits)
  {
    hide IsAmbiguous;
    var n := |credits| - 1;
    var more := if IsAmbiguous(idx, credits[n]) then ks + [n] else ks;
    forall k | 0 <= k < |credits| && IsAmbiguous(idx, credits[k]) ensures k in more {
      if k < n {
        assert credits[..n][k] == credits[k];
      } else {
        assert more[|ks|] == k;
      }
    }
  }
}
