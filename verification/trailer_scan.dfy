/** cmd/bdaudit/trailers.go, scanTrailers: which cited issue ids are unknown, and which
    are still open. */
module TrailerScan {
  import opened Text
  import opened Sequences
  import opened TrailerSearch
  import opened Trailers

  const STATUS_CLOSED: string := "closed"
  const MAX_CITING_COMMITS := 3

  datatype Issue = Issue(id: string, status: string)
  datatype Finding = Finding(issueId: string, status: string, commits: seq<string>)
  datatype Citation = Citation(id: string, hash: string)

  // Citations in scan order.

  function CitationsOf(ids: seq<string>, hash: string): (r: seq<Citation>)
    ensures |r| == |ids| && forall k :: 0 <= k < |ids| ==> r[k] == Citation(ids[k], hash)
  {
    if ids == [] then [] else CitationsOf(ids[..|ids| - 1], hash) + [Citation(ids[|ids| - 1], hash)]
  }

  function AllCitations(commits: seq<Commit>): seq<Citation> {
    if commits == [] then []
    else
      var n := |commits| - 1;
      AllCitations(commits[..n]) + CitationsOf(ClosedIds(commits[n].body), commits[n].hash)
  }

  function CitedOrder(cits: seq<Citation>): (r: seq<string>)
    ensures |r| == |cits| && forall k :: 0 <= k < |cits| ==> r[k] == cits[k].id
  {
    if cits == [] then [] else CitedOrder(cits[..|cits| - 1]) + [cits[|cits| - 1].id]
  }

  function HashesFor(cits: seq<Citation>, id: string): seq<string> {
    if cits == [] then []
    else
      var n := |cits| - 1;
      HashesFor(cits[..n], id) + if cits[n].id == id then [cits[n].hash] else []
  }

  /** The commits that cite `id`, in scan order, each once. */
  function CitingCommits(commits: seq<Commit>, id: string): seq<string> {
    if commits == [] then []
    else
      var n := |commits| - 1;
      CitingCommits(commits[..n], id) + if id in ClosedIds(commits[n].body) then [commits[n].hash] else []
  }

  // The findings, as functions of the citation order.

  function FirstCiting(hashes: seq<string>): seq<string> {
    if |hashes| > MAX_CITING_COMMITS then hashes[..MAX_CITING_COMMITS] else hashes
  }

  /** What the export says about a cited id. */
  datatype Standing = Unknown | NotClosed | Closed

  function StandingOf(issues: map<string, Issue>, id: string): Standing {
    if id !in issues then Unknown
    else if issues[id].status != STATUS_CLOSED then NotClosed
    else Closed
  }

  function FindingFor(cits: seq<Citation>, issues: map<string, Issue>, id: string): Finding {
    Finding(id, if id in issues then issues[id].status else "", FirstCiting(HashesFor(cits, id)))
  }

  /** The ids of `order` with the given standing, in order. */
  function IdsStanding(order: seq<string>, issues: map<string, Issue>, st: Standing): seq<string> {
    if order == [] then []
    else
      var n := |order| - 1;
      IdsStanding(order[..n], issues, st) + if StandingOf(issues, order[n]) == st then [order[n]] else []
  }

  function FindingsFor(ids: seq<string>, cits: seq<Citation>, issues: map<string, Issue>): (fs: seq<Finding>)
    ensures |fs| == |ids| && forall k :: 0 <= k < |ids| ==> fs[k] == FindingFor(cits, issues, ids[k])
  {
    if ids == [] then [] else FindingsFor(ids[..|ids| - 1], cits, issues) + [FindingFor(cits, issues, ids[|ids| - 1])]
  }

  /** Distinct cited ids, in the order of their first citation. */
  function ScanOrder(commits: seq<Commit>): seq<string> {
    Dedupe(CitedOrder(AllCitations(commits)))
  }

  // What a scan reports, read off the commits and the export.

  ghost predicate CitedBySome(commits: seq<Commit>, id: string) {
    exists k :: 0 <= k < |commits| && id in ClosedIds(commits[k].body)
  }

  /** The cited ids, commit after commit, with repetitions. */
  ghost function AllCited(commits: seq<Commit>): seq<string> {
    if commits == [] then []
    else AllCited(commits[..|commits| - 1]) + ClosedIds(commits[|commits| - 1].body)
  }

  /** `ks` are the positions of the commits that cite `id`, in scan order. */
  ghost predicate CitingPositions(commits: seq<Commit>, id: string, ks: seq<nat>) {
    (forall j :: 0 <= j < |ks| ==> ks[j] < |commits| && id in ClosedIds(commits[ks[j]].body)) &&
    (forall i, j :: 0 <= i < j < |ks| ==> ks[i] < ks[j]) &&
    forall k :: 0 <= k < |commits| && id in ClosedIds(commits[k].body) ==> k in ks
  }

  /** `hashes` are those of the first three commits that cite `id`, or of all if they are fewer. */
  ghost predicate LeadingCommits(hashes: seq<string>, commits: seq<Commit>, id: string) {
    exists ks :: CitingPositions(commits, id, ks) && |hashes| == (if |ks| < 3 then |ks| else 3) &&
                 forall j :: 0 <= j < |hashes| ==> hashes[j] == commits[ks[j]].hash
  }

  ghost function IdsOf(fs: seq<Finding>): (ids: seq<string>)
    ensures |ids| == |fs| && forall k :: 0 <= k < |fs| ==> ids[k] == fs[k].issueId
  {
    seq(|fs|, k requires 0 <= k < |fs| => fs[k].issueId)
  }

  /** One finding for each cited id that the export holds with a status other than closed, in
      the order of first citation. */
  ghost predicate AreOpenFindings(fs: seq<Finding>, commits: seq<Commit>, issues: map<string, Issue>) {
    InOrderOf(IdsOf(fs), AllCited(commits)) &&
    (forall id :: id in IdsOf(fs) <==> CitedBySome(commits, id) && id in issues && issues[id].status != "closed") &&
    forall f :: f in fs ==>
      f.issueId in issues && f.status == issues[f.issueId].status && LeadingCommits(f.commits, commits, f.issueId)
  }

  /** One finding, without a status, for each cited id that the export does not hold, in the
      order of first citation. */
  ghost predicate AreTypos(fs: seq<Finding>, commits: seq<Commit>, issues: map<string, Issue>) {
    InOrderOf(IdsOf(fs), AllCited(commits)) &&
    (forall id :: id in IdsOf(fs) <==> CitedBySome(commits, id) && id !in issues) &&
    forall f :: f in fs ==> f.status == "" && LeadingCommits(f.commits, commits, f.issueId)
  }

  // The scan itself.

  ghost predicate Indexed(byID: map<string, seq<string>>, order: seq<string>, cits: seq<Citation>) {
    order == Dedupe(CitedOrder(cits)) && byID.Keys == Elems(order) &&
    forall id :: id in byID ==> byID[id] == HashesFor(cits, id)
  }

  lemma OrderStep(cits: seq<Citation>, c: Citation)
    ensures CitedOrder(cits + [c]) == CitedOrder(cits) + [c.id]
    ensures HashesFor(cits + [c], c.id) == HashesFor(cits, c.id) + [c.hash]
    ensures forall id :: id != c.id ==> HashesFor(cits + [c], id) == HashesFor(cits, id)
  {
    assert (cits + [c])[..|cits|] == cits;
  }

  lemma IndexedStep(byID: map<string, seq<string>>, order: seq<string>, cits: seq<Citation>, c: Citation)
    requires Indexed(byID, order, cits)
    ensures Indexed(byID[c.id := (if c.id in byID then byID[c.id] else []) + [c.hash]],
                    if c.id in byID then order else order + [c.id], cits + [c])
  {
    hide HashesFor, Dedupe, CitedOrder;
    OrderStep(cits, c);
    SeenStep(CitedOrder(cits), c.id);
    if c.id !in byID {
      NeverCited(cits, c.id);
    }
  }

  lemma SeenStep(xs: seq<string>, x: string)
    ensures var d := Dedupe(xs);
            Elems(d) == Elems(xs) && Dedupe(xs + [x]) == (if x in Elems(d) then d else d + [x]) &&
            Elems(d + [x]) == Elems(d) + {x}
  {
    hide Dedupe, NoDup, InOrderOf;
    DedupeSnoc(xs, x);
    DedupeIsFirstSeen(xs);
  }

  lemma {:induction false} NeverCited(cits: seq<Citation>, id: string)
    requires id !in Elems(CitedOrder(cits))
    ensures HashesFor(cits, id) == []
  {
    if cits != [] {
      var n := |cits| - 1;
      assert CitedOrder(cits)[n] == cits[n].id;
      forall k | 0 <= k < n ensures CitedOrder(cits[..n])[k] in Elems(CitedOrder(cits)) {
        assert CitedOrder(cits)[k] == CitedOrder(cits[..n])[k];
      }
      NeverCited(cits[..n], id);
    }
  }

  method IndexCitations(commits: seq<Commit>) returns (byID: map<string, seq<string>>, order: seq<string>)
    ensures Indexed(byID, order, AllCitations(commits))
  {
    hide Indexed, ClosedIds;
    byID, order := map[], [];
    IndexedEmpty();
    for i := 0 to |commits|
      invariant Indexed(byID, order, AllCitations(commits[..i]))
    {
      var ids := ExtractClosedIds(commits[i].body);
      ghost var before, more := AllCitations(commits[..i]), CitationsOf(ids, commits[i].hash);
      assert before + more[..0] == before;
      for j := 0 to |ids|
        invariant Indexed(byID, order, before + more[..j])
      {
        var id := ids[j];
        IndexedStep(byID, order, before + more[..j], more[j]);
        assert before + more[..j + 1] == before + more[..j] + [more[j]];
        if id !in byID {
          order := order + [id];
          byID := byID[id := [] + [commits[i].hash]];
        } else {
          byID := byID[id := byID[id] + [commits[i].hash]];
        }
      }
      assert more[..|ids|] == more;
      assert commits[..i + 1][..i] == commits[..i];
    }
    assert commits[..|commits|] == commits;
  }

  lemma IndexedEmpty()
    ensures Indexed(map[], [], AllCitations([]))
  {
    assert AllCitations([]) == [] && CitedOrder([]) == [];
  }

  lemma StandingSnoc(order: seq<string>, i: nat, cits: seq<Citation>, issues: map<string, Issue>, st: Standing)
    requires i < |order|
    ensures FindingsFor(IdsStanding(order[..i + 1], issues, st), cits, issues) ==
            FindingsFor(IdsStanding(order[..i], issues, st), cits, issues) +
            if StandingOf(issues, order[i]) == st then [FindingFor(cits, issues, order[i])] else []
  {
    assert order[..i + 1][..i] == order[..i];
  }

  method ScanTrailers(commits: seq<Commit>, issues: map<string, Issue>)
    returns (notClosed: seq<Finding>, typos: seq<Finding>)
    ensures AreOpenFindings(notClosed, commits, issues)
    ensures AreTypos(typos, commits, issues)
  {
    hide AllCitations, HashesFor, IdsStanding, FindingsFor, CitedOrder, Dedupe, AreOpenFindings, AreTypos;
    var byID, order := IndexCitations(commits);
    notClosed, typos := [], [];
    ghost var cits := AllCitations(commits);
    NoStandings(cits, issues);
    for i := 0 to |order|
      invariant notClosed == FindingsFor(IdsStanding(order[..i], issues, NotClosed), cits, issues)
      invariant typos == FindingsFor(IdsStanding(order[..i], issues, Unknown), cits, issues)
    {
      var id := order[i];
      assert id in Elems(order);
      var commitHashes := byID[id];
      if |commitHashes| > MAX_CITING_COMMITS {
        commitHashes := commitHashes[..MAX_CITING_COMMITS];
      }
      if id !in issues {
        typos := typos + [Finding(id, "", commitHashes)];
      } else if issues[id].status != STATUS_CLOSED {
        notClosed := notClosed + [Finding(id, issues[id].status, commitHashes)];
      }
      StandingSnoc(order, i, cits, issues, Unknown);
      StandingSnoc(order, i, cits, issues, NotClosed);
    }
    assert order[..|order|] == order;
    ScanMeaning(commits, issues);
  }

  lemma NoStandings(cits: seq<Citation>, issues: map<string, Issue>)
    ensures forall st :: FindingsFor(IdsStanding([], issues, st), cits, issues) == []
  {
  }

  // What the findings mean.

  lemma InOrderSnoc(xs: seq<string>, ys: seq<string>, y: string)
    requires InOrderOf(xs, ys) && NoDup(ys + [y])
    ensures InOrderOf(xs, ys + [y]) && InOrderOf(xs + [y], ys + [y])
  {
    forall x | x in ys ensures FirstIndex(ys + [y], x) == FirstIndex(ys, x) {
      FirstIndexPrefix(ys, [y], x);
    }
    LastIsNew(ys, y);
  }

  lemma LastIsNew(ys: seq<string>, y: string)
    requires NoDup(ys + [y])
    ensures y !in ys && FirstIndex(ys + [y], y) == |ys|
  {
    var s := ys + [y];
    forall k | 0 <= k < |ys| ensures ys[k] != y {
      assert s[k] == ys[k] && s[|ys|] == y;
    }
  }

  lemma {:induction false} IdsStandingExact(order: seq<string>, issues: map<string, Issue>, st: Standing)
    requires NoDup(order)
    ensures InOrderOf(IdsStanding(order, issues, st), order)
    ensures forall id :: id in IdsStanding(order, issues, st) <==> id in order && StandingOf(issues, id) == st
  {
    hide FirstIndex, StandingOf;
    if order != [] {
      var n := |order| - 1;
      IdsStandingExact(order[..n], issues, st);
      assert order == order[..n] + [order[n]];
      InOrderSnoc(IdsStanding(order[..n], issues, st), order[..n], order[n]);
    }
  }

  lemma {:induction false} HashesForAppend(a: seq<Citation>, b: seq<Citation>, id: string)
    ensures HashesFor(a + b, id) == HashesFor(a, id) + HashesFor(b, id)
  {
    if b == [] {
      assert a + b == a;
    } else {
      var n := |b| - 1;
      assert (a + b)[..|a| + n] == a + b[..n];
      HashesForAppend(a, b[..n], id);
    }
  }

  lemma {:induction false} HashesForOneCommit(ids: seq<string>, hash: string, id: string)
    requires NoDup(ids)
    ensures HashesFor(CitationsOf(ids, hash), id) == if id in ids then [hash] else []
  {
    hide HashesFor;
    if ids == [] {
      NoHashes(id);
    } else {
      var n := |ids| - 1;
      HashesForOneCommit(ids[..n], hash, id);
      assert ids == ids[..n] + [ids[n]];
      assert CitationsOf(ids, hash) == CitationsOf(ids[..n], hash) + [Citation(ids[n], hash)];
      OrderStep(CitationsOf(ids[..n], hash), Citation(ids[n], hash));
    }
  }

  lemma NoHashes(id: string)
    ensures HashesFor([], id) == []
  {
  }

  /** The commits kept for an id are the commits whose trailers cite it, once each. */
  lemma {:induction false} HashesAreCitingCommits(commits: seq<Commit>, id: string)
    ensures HashesFor(AllCitations(commits), id) == CitingCommits(commits, id)
  {
    if commits != [] {
      var n := |commits| - 1;
      var ids := ClosedIds(commits[n].body);
      HashesAreCitingCommits(commits[..n], id);
      HashesForAppend(AllCitations(commits[..n]), CitationsOf(ids, commits[n].hash), id);
      ClosedIdsShape(commits[n].body);
      HashesForOneCommit(ids, commits[n].hash, id);
    }
  }

  lemma {:induction false} OrderHoldsCited(commits: seq<Commit>, id: string)
    ensures id in CitedOrder(AllCitations(commits)) <==> CitedBySome(commits, id)
  {
    hide ClosedIds;
    if commits != [] {
      var n := |commits| - 1;
      var ids := ClosedIds(commits[n].body);
      OrderHoldsCited(commits[..n], id);
      CitedOrderAppend(AllCitations(commits[..n]), CitationsOf(ids, commits[n].hash));
      assert CitedOrder(CitationsOf(ids, commits[n].hash)) == ids;
      CitedBySnoc(commits, id);
    }
  }

  lemma CitedOrderAppend(a: seq<Citation>, b: seq<Citation>)
    ensures CitedOrder(a + b) == CitedOrder(a) + CitedOrder(b)
  {
  }

  lemma CitedBySnoc(commits: seq<Commit>, id: string)
    requires commits != []
    ensures CitedBySome(commits, id) <==>
            CitedBySome(commits[..|commits| - 1], id) || id in ClosedIds(commits[|commits| - 1].body)
  {
    hide ClosedIds;
    var n := |commits| - 1;
    forall k | 0 <= k < n ensures commits[..n][k] == commits[k] {}
  }

  lemma ScanOrderExact(commits: seq<Commit>)
    ensures NoDup(ScanOrder(commits))
    ensures forall id :: id in ScanOrder(commits) <==> CitedBySome(commits, id)
  {
    hide CitedBySome, AllCitations, CitedOrder;
    var all := CitedOrder(AllCitations(commits));
    DedupeIsFirstSeen(all);
    forall id ensures id in ScanOrder(commits) <==> CitedBySome(commits, id) {
      OrderHoldsCited(commits, id);
      assert id in Elems(Dedupe(all)) <==> id in Elems(all);
    }
  }

  lemma StandingIdsExact(commits: seq<Commit>, issues: map<string, Issue>, st: Standing)
    ensures var ids := IdsStanding(ScanOrder(commits), issues, st);
            InOrderOf(ids, AllCited(commits)) &&
            forall id :: id in ids <==> CitedBySome(commits, id) && StandingOf(issues, id) == st
  {
    hide CitedBySome, ScanOrder, StandingOf;
    ScanOrderExact(commits);
    IdsStandingExact(ScanOrder(commits), issues, st);
    AllCitedIsOrder(commits);
    ScanOrderIsFirstCited(commits);
    InOrderTransitive(IdsStanding(ScanOrder(commits), issues, st), ScanOrder(commits), AllCited(commits));
  }

  lemma ScanOrderIsFirstCited(commits: seq<Commit>)
    ensures InOrderOf(ScanOrder(commits), CitedOrder(AllCitations(commits)))
  {
    hide Dedupe, CitedOrder, AllCitations, InOrderOf;
    DedupeIsFirstSeen(CitedOrder(AllCitations(commits)));
  }

  lemma {:induction false} AllCitedIsOrder(commits: seq<Commit>)
    ensures AllCited(commits) == CitedOrder(AllCitations(commits))
  {
    hide ClosedIds;
    if commits != [] {
      var n := |commits| - 1;
      var ids := ClosedIds(commits[n].body);
      AllCitedIsOrder(commits[..n]);
      CitedOrderAppend(AllCitations(commits[..n]), CitationsOf(ids, commits[n].hash));
      assert CitedOrder(CitationsOf(ids, commits[n].hash)) == ids;
    }
  }

  lemma InOrderTransitive(xs: seq<string>, ys: seq<string>, zs: seq<string>)
    requires InOrderOf(xs, ys) && InOrderOf(ys, zs)
    ensures InOrderOf(xs, zs)
  {
    forall k | 0 <= k < |xs| ensures xs[k] in zs {
      assert ys[FirstIndex(ys, xs[k])] in zs;
    }
    forall i, j | 0 <= i < j < |xs| ensures FirstIndex(zs, xs[i]) < FirstIndex(zs, xs[j]) {
      var a, b := FirstIndex(ys, xs[i]), FirstIndex(ys, xs[j]);
      assert ys[a] == xs[i] && ys[b] == xs[j];
    }
  }

  /** The hashes kept for an id are those of the commits that cite it, and only the first are
      reported. */
  lemma {:induction false} CitingCommitsExact(commits: seq<Commit>, id: string) returns (ks: seq<nat>)
    ensures CitingPositions(commits, id, ks)
    ensures var hs := CitingCommits(commits, id);
            |hs| == |ks| && forall j :: 0 <= j < |hs| ==> hs[j] == commits[ks[j]].hash
  {
    hide ClosedIds;
    ks := [];
    if commits != [] {
      var n := |commits| - 1;
      ks := CitingCommitsExact(commits[..n], id);
      if id in ClosedIds(commits[n].body) {
        ks := ks + [n];
      }
      CitingSnoc(commits, id, ks);
    }
  }

  lemma CitingSnoc(commits: seq<Commit>, id: string, ks: seq<nat>)
    requires commits != []
    requires var n := |commits| - 1;
             if id in ClosedIds(commits[n].body)
             then ks != [] && ks[|ks| - 1] == n && CitingPositions(commits[..n], id, ks[..|ks| - 1])
             else CitingPositions(commits[..n], id, ks)
    ensures CitingPositions(commits, id, ks)
  {
    hide ClosedIds;
    var n := |commits| - 1;
    forall k | 0 <= k < |commits| && id in ClosedIds(commits[k].body) ensures k in ks {
      if k < n {
        assert commits[..n][k] == commits[k];
      } else {
        assert ks[|ks| - 1] == k;
      }
    }
  }

  lemma LeadingIsFirst(commits: seq<Commit>, id: string)
    ensures LeadingCommits(FirstCiting(HashesFor(AllCitations(commits), id)), commits, id)
  {
    hide CitingPositions, HashesFor;
    HashesAreCitingCommits(commits, id);
    var ks := CitingCommitsExact(commits, id);
  }

  lemma FindingIsLeading(commits: seq<Commit>, issues: map<string, Issue>, ids: seq<string>, f: Finding)
    requires f in FindingsFor(ids, AllCitations(commits), issues)
    ensures f.issueId in ids && LeadingCommits(f.commits, commits, f.issueId)
    ensures f.status == if f.issueId in issues then issues[f.issueId].status else ""
  {
    hide LeadingCommits, HashesFor, FirstCiting, AllCitations;
    var fs := FindingsFor(ids, AllCitations(commits), issues);
    var k :| 0 <= k < |fs| && fs[k] == f;
    LeadingIsFirst(commits, ids[k]);
  }

  lemma ScanMeaning(commits: seq<Commit>, issues: map<string, Issue>)
    ensures var cits, order := AllCitations(commits), ScanOrder(commits);
            AreOpenFindings(FindingsFor(IdsStanding(order, issues, NotClosed), cits, issues), commits, issues) &&
            AreTypos(FindingsFor(IdsStanding(order, issues, Unknown), cits, issues), commits, issues)
  {
    hide LeadingCommits, CitedBySome, AllCitations, ScanOrder, IdsStanding, InOrderOf, AllCited, FindingsFor;
    FindingsMeaning(commits, issues, NotClosed);
    FindingsMeaning(commits, issues, Unknown);
  }

  lemma FindingsMeaning(commits: seq<Commit>, issues: map<string, Issue>, st: Standing)
    ensures var fs := FindingsFor(IdsStanding(ScanOrder(commits), issues, st), AllCitations(commits), issues);
            InOrderOf(IdsOf(fs), AllCited(commits)) &&
            (forall id :: id in IdsOf(fs) <==> CitedBySome(commits, id) && StandingOf(issues, id) == st) &&
            (forall f :: f in fs ==>
               f.issueId in IdsOf(fs) && LeadingCommits(f.commits, commits, f.issueId) &&
               f.status == if f.issueId in issues then issues[f.issueId].status else "")
  {
    hide LeadingCommits, CitedBySome, AllCitations, ScanOrder, IdsStanding, InOrderOf, AllCited, StandingOf, FindingsFor;
    var ids := IdsStanding(ScanOrder(commits), issues, st);
    var fs := FindingsFor(ids, AllCitations(commits), issues);
    StandingIdsExact(commits, issues, st);
    assert IdsOf(fs) == ids;
    forall f | f in fs
      ensures f.issueId in IdsOf(fs) && LeadingCommits(f.commits, commits, f.issueId) &&
              f.status == if f.issueId in issues then issues[f.issueId].status else ""
    {
      FindingIsLeading(commits, issues, ids, f);
    }
  }

  // The report is determined by the commits and the export.

  /** Only one pair of lists meets what the scan promises. */
  lemma ScanIsDetermined(commits: seq<Commit>, issues: map<string, Issue>, fs: seq<Finding>, gs: seq<Finding>)
    requires || (AreOpenFindings(fs, commits, issues) && AreOpenFindings(gs, commits, issues))
             || (AreTypos(fs, commits, issues) && AreTypos(gs, commits, issues))
    ensures fs == gs
  {
    hide InOrderOf, LeadingCommits, CitedBySome, AllCited;
    SameInOrder(IdsOf(fs), IdsOf(gs), AllCited(commits));
    forall k | 0 <= k < |fs| ensures fs[k] == gs[k] {
      assert fs[k] in fs && gs[k] in gs && IdsOf(fs)[k] == IdsOf(gs)[k];
      LeadingUnique(commits, fs[k].issueId, fs[k].commits, gs[k].commits);
    }
  }

  lemma HasElement<T>(xs: seq<T>)
    ensures xs == [] || exists x :: x in xs
  {
    assert xs != [] ==> xs[0] in xs;
  }

  /** Two lists of the same ids, both in the order of a third, are the same list. */
  lemma {:induction false} SameInOrder(xs: seq<string>, ys: seq<string>, zs: seq<string>)
    requires InOrderOf(xs, zs) && InOrderOf(ys, zs)
    requires forall x :: x in xs <==> x in ys
    ensures xs == ys
  {
    if xs == [] {
      HasElement(ys);
    } else {
      assert xs[|xs| - 1] in ys;
      var m, n := |xs| - 1, |ys| - 1;
      LastInOrder(xs, ys, zs);
      LastInOrder(ys, xs, zs);
      assert xs[m] == ys[n] by {
        assert zs[FirstIndex(zs, xs[m])] == xs[m] && zs[FirstIndex(zs, ys[n])] == ys[n];
      }
      forall x ensures x in xs[..m] <==> x in ys[..n] {
        DropLast(xs, zs, x);
        DropLast(ys, zs, x);
      }
      SameInOrder(xs[..m], ys[..n], zs);
      assert xs == xs[..m] + [xs[m]] && ys == ys[..n] + [ys[n]];
    }
  }

  lemma LastInOrder(xs: seq<string>, ys: seq<string>, zs: seq<string>)
    requires InOrderOf(xs, zs) && InOrderOf(ys, zs) && xs != [] && ys != []
    requires xs[|xs| - 1] in ys
    ensures FirstIndex(zs, xs[|xs| - 1]) <= FirstIndex(zs, ys[|ys| - 1])
  {
    var j :| 0 <= j < |ys| && ys[j] == xs[|xs| - 1];
  }

  lemma DropLast(xs: seq<string>, zs: seq<string>, x: string)
    requires InOrderOf(xs, zs) && xs != []
    ensures x in xs[..|xs| - 1] <==> x in xs && x != xs[|xs| - 1]
  {
    var m := |xs| - 1;
    if x in xs[..m] {
      var k :| 0 <= k < m && xs[k] == x;
      assert FirstIndex(zs, xs[k]) < FirstIndex(zs, xs[m]);
    }
  }

  lemma LeadingUnique(commits: seq<Commit>, id: string, a: seq<string>, b: seq<string>)
    requires LeadingCommits(a, commits, id) && LeadingCommits(b, commits, id)
    ensures a == b
  {
    hide ClosedIds;
    var ks :| CitingPositions(commits, id, ks) && |a| == (if |ks| < 3 then |ks| else 3) &&
              forall j :: 0 <= j < |a| ==> a[j] == commits[ks[j]].hash;
    var ls :| CitingPositions(commits, id, ls) && |b| == (if |ls| < 3 then |ls| else 3) &&
              forall j :: 0 <= j < |b| ==> b[j] == commits[ls[j]].hash;
    PositionsUnique(commits, id, ks, ls);
  }

  lemma PositionsUnique(commits: seq<Commit>, id: string, ks: seq<nat>, ls: seq<nat>)
    requires CitingPositions(commits, id, ks) && CitingPositions(commits, id, ls)
    ensures ks == ls
  {
    hide ClosedIds;
    forall k ensures k in ks <==> k in ls {}
    SameRising(ks, ls);
  }

  lemma {:induction false} SameRising(ks: seq<nat>, ls: seq<nat>)
    requires forall i, j :: 0 <= i < j < |ks| ==> ks[i] < ks[j]
    requires forall i, j :: 0 <= i < j < |ls| ==> ls[i] < ls[j]
    requires forall k :: k in ks <==> k in ls
    ensures ks == ls
  {
    if ks == [] {
      HasElement(ls);
    } else {
      var m, n := |ks| - 1, |ls| - 1;
      assert ks[m] in ls;
      assert ls[n] in ks;
      forall k ensures k in ks[..m] <==> k in ls[..n] {
        assert k in ks[..m] <==> k in ks && k != ks[m];
        assert k in ls[..n] <==> k in ls && k != ls[n];
      }
      SameRising(ks[..m], ls[..n]);
      assert ks == ks[..m] + [ks[m]] && ls == ls[..n] + [ls[n]];
    }
  }

  /** The look-up uses the lower-cased id, the export keeps ids as written. An issue cited
      exactly as the export spells it is taken for a typo precisely when its id is not all
      lower case, unless the export also holds the lower-case spelling. */
  lemma MixedCaseIssueIsTypo(commits: seq<Commit>, issues: map<string, Issue>, typos: seq<Finding>, k: nat, id: string)
    requires AreTypos(typos, commits, issues)
    requires k < |commits| && id in CitedIds(commits[k].body) && id in issues
    ensures Lower(id) in IdsOf(typos) <==> id != Lower(id) && Lower(id) !in issues
  {
    hide InOrderOf, AllCited, LeadingCommits;
    var body := commits[k].body;
    ClosedIdsShape(body);
    InLowerSet(CitedIds(body), Lower(id));
    assert Lower(id) in Elems(ClosedIds(body));
    assert CitedBySome(commits, Lower(id));
  }
}
