/** cmd/clientcoverage/main.go, buildReport: the per-service rows, their order and the
    totals, and that the report counts every credited operation exactly once. */
module CoverageReport {
  import opened Sequences
  import opened ClientCoverage

  datatype Row = Row(service: string, uncovered: seq<string>, total: int, covered: int)

  datatype Report = Report(rows: seq<Row>, ambiguous: seq<Ambiguity>, totalOps: int, coveredOps: int)

  function UncoveredOps(ops: seq<string>, covered: map<string, Evidence>): seq<string> {
    if ops == [] then []
    else
      var n := |ops| - 1;
      UncoveredOps(ops[..n], covered) + if ops[n] in covered then [] else [ops[n]]
  }

  function RowOf(s: Service, cov: Coverage): Row {
    var uncovered := SortStrings(UncoveredOps(s.ops, Ops(cov.covered, s.name)));
    Row(s.name, uncovered, |s.ops|, |s.ops| - |uncovered|)
  }

  function RowsOf(services: seq<Service>, cov: Coverage): seq<Row> {
    if services == [] then [] else RowsOf(services[..|services| - 1], cov) + [RowOf(services[|services| - 1], cov)]
  }

  function Totals(rows: seq<Row>): int {
    if rows == [] then 0 else Totals(rows[..|rows| - 1]) + rows[|rows| - 1].total
  }

  function Covereds(rows: seq<Row>): int {
    if rows == [] then 0 else Covereds(rows[..|rows| - 1]) + rows[|rows| - 1].covered
  }

  // The order of the rows: widest gap first, then by name.

  predicate RowLe(a: Row, b: Row) {
    |a.uncovered| > |b.uncovered| || (|a.uncovered| == |b.uncovered| && StrLe(a.service, b.service))
  }

  function InsertRow(r: Row, rows: seq<Row>): seq<Row> {
    if rows == [] || RowLe(r, rows[0]) then [r] + rows else [rows[0]] + InsertRow(r, rows[1..])
  }

  /** What `sort.Slice` with that order yields. */
  function SortRows(rows: seq<Row>): seq<Row> {
    if rows == [] then [] else InsertRow(rows[0], SortRows(rows[1..]))
  }

  ghost predicate Ordered(rows: seq<Row>) {
    forall i, j :: 0 <= i < j < |rows| ==> RowLe(rows[i], rows[j])
  }

  /** `a` has more uncovered operations than `b`, or as many and a name no later in the
      alphabet. */
  ghost predicate WiderOrFirst(a: Row, b: Row) {
    |b.uncovered| < |a.uncovered| ||
    (|a.uncovered| == |b.uncovered| && (a.service <= b.service || exists i: nat :: SmallerAt(a.service, b.service, i)))
  }

  lemma OrderedExact(rows: seq<Row>)
    ensures Ordered(rows) <==> forall i, j :: 0 <= i < j < |rows| ==> WiderOrFirst(rows[i], rows[j])
  {
    hide StrLe, SmallerAt;
    forall i, j | 0 <= i < j < |rows| ensures RowLe(rows[i], rows[j]) <==> WiderOrFirst(rows[i], rows[j]) {
      StrLeExact(rows[i].service, rows[j].service);
    }
  }

  lemma {:induction false} InsertRowOrders(r: Row, rows: seq<Row>)
    requires Ordered(rows)
    ensures Ordered(InsertRow(r, rows)) && multiset(InsertRow(r, rows)) == multiset(rows) + multiset{r}
  {
    if rows == [] {
    } else if RowLe(r, rows[0]) {
      forall j | 0 <= j < |rows| ensures RowLe(r, rows[j]) {
        if j > 0 && |r.uncovered| == |rows[0].uncovered| == |rows[j].uncovered| {
          StrLeTransitive(r.service, rows[0].service, rows[j].service);
        }
      }
    } else {
      StrLeTotal(r.service, rows[0].service);
      InsertRowOrders(r, rows[1..]);
      assert rows == [rows[0]] + rows[1..];
      var rest := InsertRow(r, rows[1..]);
      forall y | y in rest ensures RowLe(rows[0], y) {
        assert y in multiset(rest);
        if y != r { assert y in multiset(rows[1..]); }
      }
    }
  }

  lemma {:induction false} SortRowsSorts(rows: seq<Row>)
    ensures Ordered(SortRows(rows)) && multiset(SortRows(rows)) == multiset(rows)
  {
    if rows != [] {
      SortRowsSorts(rows[1..]);
      InsertRowOrders(rows[0], SortRows(rows[1..]));
      assert rows == [rows[0]] + rows[1..];
    }
  }

  method BuildReport(services: seq<Service>, cov: Coverage) returns (rpt: Report)
    ensures var rows := RowsOf(services, cov);
            rpt == Report(SortRows(rows), cov.ambiguous, Totals(rows), Covereds(rows))
  {
    hide SortStrings, SortRows, UncoveredOps, RowsOf, Totals, Covereds, Ops;
    var rows: seq<Row> := [];
    var totalOps, coveredOps := 0, 0;
    NoServices(cov);
    for i := 0 to |services|
      invariant rows == RowsOf(services[..i], cov)
      invariant totalOps == Totals(rows) && coveredOps == Covereds(rows)
    {
      var s := services[i];
      var covered := Ops(cov.covered, s.name);
      var uncovered: seq<string> := [];
      for j := 0 to |s.ops|
        invariant uncovered == UncoveredOps(s.ops[..j], covered)
      {
        UncoveredSnoc(s.ops, j, covered);
        if s.ops[j] !in covered {
          uncovered := uncovered + [s.ops[j]];
        }
      }
      assert s.ops[..|s.ops|] == s.ops;
      uncovered := SortStrings(uncovered);
      RowsSnoc(services, i, cov);
      rows := rows + [Row(s.name, uncovered, |s.ops|, |s.ops| - |uncovered|)];
      totalOps := totalOps + |s.ops|;
      coveredOps := coveredOps + (|s.ops| - |uncovered|);
    }
    assert services[..|services|] == services;
    return Report(SortRows(rows), cov.ambiguous, totalOps, coveredOps);
  }

  lemma NoServices(cov: Coverage)
    ensures RowsOf([], cov) == [] && Totals([]) == Covereds([]) == 0
    ensures forall covered :: UncoveredOps([], covered) == []
  {
  }

  lemma UncoveredSnoc(ops: seq<string>, j: nat, covered: map<string, Evidence>)
    requires j < |ops|
    ensures UncoveredOps(ops[..j + 1], covered) ==
            if ops[j] in covered then UncoveredOps(ops[..j], covered) else UncoveredOps(ops[..j], covered) + [ops[j]]
  {
    assert ops[..j + 1][..j] == ops[..j];
  }

  lemma RowsSnoc(services: seq<Service>, i: nat, cov: Coverage)
    requires i < |services|
    ensures var rows := RowsOf(services[..i], cov);
            var r := RowOf(services[i], cov);
            RowsOf(services[..i + 1], cov) == rows + [r] &&
            Totals(rows + [r]) == Totals(rows) + r.total && Covereds(rows + [r]) == Covereds(rows) + r.covered
  {
    hide RowOf;
    assert services[..i + 1][..i] == services[..i];
    var rows := RowsOf(services[..i], cov);
    assert (rows + [RowOf(services[i], cov)])[..|rows|] == rows;
  }

  // What a row says.

  lemma {:induction false} UncoveredExact(ops: seq<string>, covered: map<string, Evidence>)
    ensures forall x :: multiset(UncoveredOps(ops, covered))[x] == if x in covered then 0 else multiset(ops)[x]
    ensures |UncoveredOps(ops, covered)| <= |ops|
  {
    if ops != [] {
      UncoveredExact(ops[..|ops| - 1], covered);
      var x, u := ops[|ops| - 1], UncoveredOps(ops[..|ops| - 1], covered);
      assert ops == ops[..|ops| - 1] + [x];
      assert multiset(u + [x]) == multiset(u) + multiset{x};
    }
  }

  lemma ElemsSnoc(ops: seq<string>, keys: set<string>)
    requires NoDup(ops) && ops != []
    ensures var n := |ops| - 1;
            NoDup(ops[..n]) &&
            |Elems(ops) * keys| == |Elems(ops[..n]) * keys| + if ops[n] in keys then 1 else 0
  {
    var n := |ops| - 1;
    assert ops == ops[..n] + [ops[n]];
    assert Elems(ops) == Elems(ops[..n]) + {ops[n]} && ops[n] !in Elems(ops[..n]);
    hide *;
    OneMore(Elems(ops[..n]), ops[n], keys);
  }

  lemma OneMore(before: set<string>, x: string, keys: set<string>)
    requires x !in before
    ensures |(before + {x}) * keys| == |before * keys| + if x in keys then 1 else 0
  {
    assert (before + {x}) * keys == if x in keys then before * keys + {x} else before * keys;
  }

  lemma {:induction false} UncoveredCount(ops: seq<string>, covered: map<string, Evidence>)
    requires NoDup(ops)
    ensures |ops| - |UncoveredOps(ops, covered)| == |Elems(ops) * covered.Keys|
  {
    hide NoDup, Elems;
    if ops == [] {
      NoElems();
      assert Elems(ops) * covered.Keys == {};
    } else {
      ElemsSnoc(ops, covered.Keys);
      UncoveredCount(ops[..|ops| - 1], covered);
    }
  }

  lemma NoElems()
    ensures Elems<string>([]) == {}
  {
  }

  /** A row's covered and uncovered operations add up to its total; the uncovered ones are
      the declared operations without credit, sorted. If operations are declared once and
      only declared ones were credited, the covered number is the number of credits. */
  lemma RowExact(s: Service, cov: Coverage)
    ensures var r := RowOf(s, cov);
            r.service == s.name &&
            r.covered + |r.uncovered| == r.total == |s.ops| && r.covered >= 0 && Sorted(r.uncovered) &&
            (forall x :: multiset(r.uncovered)[x] == if x in Ops(cov.covered, s.name) then 0 else multiset(s.ops)[x]) &&
            (NoDup(s.ops) && Ops(cov.covered, s.name).Keys <= Elems(s.ops) ==>
               r.covered == |Ops(cov.covered, s.name)|)
  {
    hide SortStrings, UncoveredOps;
    var covered := Ops(cov.covered, s.name);
    var u := UncoveredOps(s.ops, covered);
    UncoveredExact(s.ops, covered);
    SortStringsSorts(u);
    assert |multiset(u)| == |u| && |multiset(SortStrings(u))| == |SortStrings(u)|;
    if NoDup(s.ops) && covered.Keys <= Elems(s.ops) {
      UncoveredCount(s.ops, covered);
      assert Elems(s.ops) * covered.Keys == covered.Keys;
    }
  }

  lemma {:induction false} RowsExact(services: seq<Service>, cov: Coverage)
    ensures |RowsOf(services, cov)| == |services|
    ensures forall k :: 0 <= k < |services| ==> RowsOf(services, cov)[k] == RowOf(services[k], cov)
  {
    hide RowOf;
    if services != [] {
      RowsExact(services[..|services| - 1], cov);
    }
  }

  /** The report has one row per service, in the report's order, and each says what
      `RowExact` says of its service. */
  lemma OneRowPerService(services: seq<Service>, cov: Coverage)
    ensures var rows := SortRows(RowsOf(services, cov));
            |rows| == |services| &&
            (forall i, j :: 0 <= i < j < |rows| ==> WiderOrFirst(rows[i], rows[j])) &&
            (forall s :: s in services ==> RowOf(s, cov) in rows) &&
            forall r :: r in rows ==> exists s :: s in services && r == RowOf(s, cov)
  {
    hide RowOf, RowsOf, SortRows, Ordered;
    var given := RowsOf(services, cov);
    var rows := SortRows(given);
    RowsExact(services, cov);
    SortRowsSorts(given);
    OrderedExact(rows);
    assert |multiset(rows)| == |rows| && |multiset(given)| == |given|;
    forall s | s in services ensures RowOf(s, cov) in rows {
      var k :| 0 <= k < |services| && services[k] == s;
      assert given[k] in multiset(rows);
    }
    forall r | r in rows ensures exists s :: s in services && r == RowOf(s, cov) {
      assert r in multiset(given);
      var k :| 0 <= k < |given| && given[k] == r;
      assert services[k] in services;
    }
  }

  /** The operations the services declare, service after service. */
  ghost function Declared(services: seq<Service>): seq<string> {
    if services == [] then [] else Declared(services[..|services| - 1]) + services[|services| - 1].ops
  }

  /** The total counts every declared operation, and what is covered of it is what no row
      lists as uncovered. */
  lemma {:induction false} TotalsExact(services: seq<Service>, cov: Coverage)
    ensures var rows := RowsOf(services, cov);
            Totals(rows) == |Declared(services)| && Covereds(rows) == |Declared(services)| - |AllUncovered(rows)|
  {
    hide RowOf;
    if services != [] {
      var n := |services| - 1;
      TotalsExact(services[..n], cov);
      RowExact(services[n], cov);
      var rows := RowsOf(services[..n], cov);
      assert (rows + [RowOf(services[n], cov)])[..|rows|] == rows;
    }
  }

  ghost function AllUncovered(rows: seq<Row>): seq<string> {
    if rows == [] then [] else AllUncovered(rows[..|rows| - 1]) + rows[|rows| - 1].uncovered
  }

  // Every credited operation is counted once.

  /** The credited (service, operation) pairs of the named services. */
  ghost function PairsOf(covered: Covered, names: set<string>): set<(string, string)> {
    set svc, op | svc in names && op in Ops(covered, svc) :: (svc, op)
  }

  ghost function Names(services: seq<Service>): set<string> {
    set s | s in services :: s.name
  }

  lemma {:induction false} PairCount(svc: string, ops: set<string>)
    ensures |set op | op in ops :: (svc, op)| == |ops|
  {
    if ops != {} {
      var x :| x in ops;
      PairCount(svc, ops - {x});
      assert (set op | op in ops :: (svc, op)) == (set op | op in ops - {x} :: (svc, op)) + {(svc, x)};
    }
  }

  lemma AddName(covered: Covered, names: set<string>, svc: string)
    requires svc !in names
    ensures |PairsOf(covered, names + {svc})| == |PairsOf(covered, names)| + |Ops(covered, svc)|
  {
    hide Ops;
    var more := set op | op in Ops(covered, svc).Keys :: (svc, op);
    PairCount(svc, Ops(covered, svc).Keys);
    assert PairsOf(covered, names + {svc}) == PairsOf(covered, names) + more;
    assert PairsOf(covered, names) !! more;
  }

  ghost predicate CleanCensus(services: seq<Service>) {
    ValidCensus(services) && forall k :: 0 <= k < |services| ==> NoDup(services[k].ops)
  }

  ghost predicate CreditsDeclared(services: seq<Service>, covered: Covered) {
    forall k :: 0 <= k < |services| ==> Ops(covered, services[k].name).Keys <= Elems(services[k].ops)
  }

  lemma {:induction false} CoveredsAreCredits(services: seq<Service>, cov: Coverage)
    requires CleanCensus(services) && CreditsDeclared(services, cov.covered)
    ensures Covereds(RowsOf(services, cov)) == |PairsOf(cov.covered, Names(services))|
  {
    hide RowOf, Ops;
    if services == [] {
      assert PairsOf(cov.covered, Names(services)) == {};
    } else {
      var n := |services| - 1;
      var s := services[n];
      CoveredsAreCredits(services[..n], cov);
      RowExact(s, cov);
      var rows := RowsOf(services[..n], cov);
      assert (rows + [RowOf(s, cov)])[..|rows|] == rows;
      LastName(services);
      AddName(cov.covered, Names(services[..n]), s.name);
    }
  }

  lemma LastName(services: seq<Service>)
    requires ValidCensus(services) && services != []
    ensures var n := |services| - 1;
            Names(services) == Names(services[..n]) + {services[n].name} && services[n].name !in Names(services[..n])
  {
    var n := |services| - 1;
    assert services == services[..n] + [services[n]];
    forall s | s in services[..n] ensures s.name != services[n].name {
      var k :| 0 <= k < n && services[..n][k] == s;
    }
  }

  /** For a census without repetitions, whatever sequence of calls was recorded: the report's
      covered total is the number of credited (service, operation) pairs, none of which is
      outside the census, and its totals are the sums over its rows. */
  lemma ReportCountsEveryCredit(services: seq<Service>, idx: Index, credits: seq<Credit>)
    requires CleanCensus(services) && Indexes(idx, services)
    ensures var cov := RecordAll(EMPTY, idx, credits);
            var rows := RowsOf(services, cov);
            Covereds(rows) == |PairsOf(cov.covered, Names(services))| == |PairsOf(cov.covered, cov.covered.Keys)| &&
            Totals(SortRows(rows)) == Totals(rows) && Covereds(SortRows(rows)) == Covereds(rows)
  {
    hide Indexes, RecordAll, RowsOf, SortRows;
    var cov := RecordAll(EMPTY, idx, credits);
    CreditsAreDeclared(services, idx, cov, credits);
    CoveredsAreCredits(services, cov);
    assert PairsOf(cov.covered, Names(services)) == PairsOf(cov.covered, cov.covered.Keys);
    SortRowsSorts(RowsOf(services, cov));
    SumsOfPermutation(RowsOf(services, cov), SortRows(RowsOf(services, cov)));
  }

  lemma CreditsAreDeclared(services: seq<Service>, idx: Index, cov: Coverage, credits: seq<Credit>)
    requires CleanCensus(services) && Indexes(idx, services) && cov == RecordAll(EMPTY, idx, credits)
    ensures CreditsDeclared(services, cov.covered)
    ensures forall svc, op :: op in Ops(cov.covered, svc) ==> svc in Names(services)
  {
    hide RecordAll, OpsOf, ModulesIndexed;
    RecordedOpsAreDeclared(idx, credits);
    forall k | 0 <= k < |services| ensures Ops(cov.covered, services[k].name).Keys <= Elems(services[k].ops) {
      OpsOfExact(services, services[k]);
    }
    forall svc, op | op in Ops(cov.covered, svc) ensures svc in Names(services) {
      assert HasOp(idx, svc, op);
      OpsOfNamed(services, svc);
    }
  }

  lemma {:induction false} OpsOfNamed(services: seq<Service>, name: string)
    requires OpsOf(services, name).Some?
    ensures name in Names(services)
  {
    var n := |services| - 1;
    if services[n].name != name {
      OpsOfNamed(services[..n], name);
    }
    assert services == services[..n] + [services[n]];
  }

  lemma {:induction false} SumsSplit(a: seq<Row>, b: seq<Row>)
    ensures Totals(a + b) == Totals(a) + Totals(b) && Covereds(a + b) == Covereds(a) + Covereds(b)
  {
    if b == [] {
      assert a + b == a;
    } else {
      assert (a + b)[..|a + b| - 1] == a + b[..|b| - 1];
      SumsSplit(a, b[..|b| - 1]);
    }
  }

  lemma SumsOfOne(r: Row)
    ensures Totals([r]) == r.total && Covereds([r]) == r.covered
  {
    assert [r][..0] == [];
  }

  lemma {:induction false} SumsOfPermutation(a: seq<Row>, b: seq<Row>)
    requires multiset(a) == multiset(b)
    ensures Totals(a) == Totals(b) && Covereds(a) == Covereds(b)
  {
    hide Totals, Covereds;
    if a == [] {
      assert |multiset(b)| == 0;
    } else {
      var r := a[0];
      assert r in multiset(b);
      var k :| 0 <= k < |b| && b[k] == r;
      assert a == [r] + a[1..];
      assert b == b[..k] + [r] + b[k + 1..];
      SumsSplit([r], a[1..]);
      SumsSplit(b[..k] + [r], b[k + 1..]);
      SumsSplit(b[..k], [r]);
      SumsSplit(b[..k], b[k + 1..]);
      SumsOfOne(r);
      assert multiset(a[1..]) == multiset(a) - multiset{r};
      assert multiset(b[..k] + b[k + 1..]) == multiset(b) - multiset{r};
      SumsOfPermutation(a[1..], b[..k] + b[k + 1..]);
    }
  }
}
