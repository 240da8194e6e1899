/** cmd/bdaudit/trailers.go: reading `git log`, extracting the ids a commit claims to
    close, and cross-checking them against the issue export. */
module Trailers {
  import opened Text
  import opened Sequences
  import opened TrailerGrammar
  import opened TrailerSearch
  import opened TrailerVisibility

  // Reading git log output.

  const RECORD_SEP: char := '\U{1E}'
  const FIELD_SEP: char := '\U{1F}'

  datatype Commit = Commit(hash: string, body: string)

  function TrimNewlines(s: string): string {
    if s != [] && s[0] == '\n' then TrimNewlines(s[1..]) else s
  }

  /** The commit in one record, if the record holds one. */
  function ParseRecord(rec: string): seq<Commit> {
    var r := TrimNewlines(rec);
    var i := IndexOf(r, FIELD_SEP);
    if r == [] || i < 0 then [] else [Commit(r[..i], r[i + 1..])]
  }

  function ParseRecords(records: seq<string>): seq<Commit> {
    if records == [] then []
    else ParseRecords(records[..|records| - 1]) + ParseRecord(records[|records| - 1])
  }

  function ParseLog(out: string): seq<Commit> {
    ParseRecords(Split(out, RECORD_SEP))
  }

  method FetchCommits(out: string) returns (commits: seq<Commit>)
    ensures commits == ParseLog(out)
  {
    hide TrimNewlines, Split, IndexOf;
    commits := [];
    var records := Split(out, RECORD_SEP);
    for k := 0 to |records|
      invariant commits == ParseRecords(records[..k])
    {
      var rec := TrimNewlines(records[k]);
      ParseRecordsSnoc(records, k);
      if rec != "" {
        var i := IndexOf(rec, FIELD_SEP);
        if i >= 0 {
          commits := commits + [Commit(rec[..i], rec[i + 1..])];
        }
      }
    }
    assert records[..|records|] == records;
  }

  lemma ParseRecordsSnoc(records: seq<string>, k: nat)
    requires k < |records|
    ensures ParseRecords(records[..k + 1]) == ParseRecords(records[..k]) + ParseRecord(records[k])
  {
    assert records[..k + 1][..k] == records[..k];
  }

  /** What `git log --format=%H<FS>%B<RS>` prints. */
  function PrintLog(commits: seq<Commit>): string {
    if commits == [] then ""
    else commits[0].hash + [FIELD_SEP] + commits[0].body + [RECORD_SEP] + "\n" + PrintLog(commits[1..])
  }

  ghost predicate WellFormedHash(h: string) {
    h != [] && h[0] != '\n' && FIELD_SEP !in h && RECORD_SEP !in h
  }

  ghost predicate BodiesHaveNoSeparator(commits: seq<Commit>) {
    forall k :: 0 <= k < |commits| ==> RECORD_SEP !in commits[k].body
  }

  lemma {:induction false} ParseRecordsCons(r: string, rest: seq<string>)
    ensures ParseRecords([r] + rest) == ParseRecord(r) + ParseRecords(rest)
  {
    hide ParseRecord;
    var all := [r] + rest;
    if rest == [] {
      assert all[..0] == [];
    } else {
      assert all[..|all| - 1] == [r] + rest[..|rest| - 1];
      ParseRecordsCons(r, rest[..|rest| - 1]);
    }
  }

  lemma {:induction false} RecordRoundTrip(pad: string, c: Commit)
    requires WellFormedHash(c.hash) && (pad == "" || pad == "\n")
    ensures ParseRecord(pad + (c.hash + [FIELD_SEP] + c.body)) == [c]
  {
    var r := c.hash + [FIELD_SEP] + c.body;
    assert r[..|c.hash|] == c.hash && r[|c.hash| + 1..] == c.body;
    IndexOfUnique(r, FIELD_SEP, |c.hash|);
    assert TrimNewlines(r) == r;
    if pad == "\n" { assert (pad + r)[1..] == r; } else { assert pad + r == r; }
  }

  lemma NoRecord(pad: string)
    requires pad == "" || pad == "\n"
    ensures ParseRecord(pad) == []
  {
    assert pad == "\n" ==> pad[1..] == "";
    assert TrimNewlines(pad) == "";
  }

  lemma PrintLogCons(pad: string, c: Commit, rest: seq<Commit>)
    ensures pad + PrintLog([c] + rest) ==
            (pad + (c.hash + [FIELD_SEP] + c.body)) + [RECORD_SEP] + ("\n" + PrintLog(rest))
  {
    assert ([c] + rest)[1..] == rest;
  }

  lemma {:induction false} LogRoundTripFrom(pad: string, commits: seq<Commit>)
    requires pad == "" || pad == "\n"
    requires forall k :: 0 <= k < |commits| ==> WellFormedHash(commits[k].hash)
    requires BodiesHaveNoSeparator(commits)
    ensures ParseLog(pad + PrintLog(commits)) == commits
    decreases |commits|
  {
    hide Split;
    if commits == [] {
      assert pad + PrintLog([]) == pad;
      SplitUnfold(pad, RECORD_SEP);
      assert IndexOf(pad, RECORD_SEP) < 0;
      NoRecord(pad);
      ParseRecordsCons(pad, []);
      assert [pad] + [] == [pad];
    } else {
      hide ParseRecords, ParseRecord, PrintLog;
      var c, rest := commits[0], commits[1..];
      assert commits == [c] + rest;
      var head, tail := pad + (c.hash + [FIELD_SEP] + c.body), "\n" + PrintLog(rest);
      PrintLogCons(pad, c, rest);
      SplitStep(head, RECORD_SEP, tail);
      ParseRecordsCons(head, Split(tail, RECORD_SEP));
      RecordRoundTrip(pad, c);
      LogRoundTripFrom("\n", rest);
    }
  }

  lemma {:induction false} ParsedBodiesAreClean(records: seq<string>)
    requires NoneContain(records, RECORD_SEP)
    ensures BodiesHaveNoSeparator(ParseRecords(records))
  {
    if records != [] {
      var n := |records| - 1;
      ParsedBodiesAreClean(records[..n]);
      TrimNewlinesKeeps(records[n]);
    }
  }

  lemma TrimNewlinesKeeps(s: string)
    ensures forall c :: c in TrimNewlines(s) ==> c in s
  {
  }

  /** Reading back what git printed gives the same commits exactly when no message
      contains the record separator. */
  lemma LogRoundTrip(commits: seq<Commit>)
    requires forall k :: 0 <= k < |commits| ==> WellFormedHash(commits[k].hash)
    ensures ParseLog(PrintLog(commits)) == commits <==> BodiesHaveNoSeparator(commits)
  {
    if BodiesHaveNoSeparator(commits) {
      LogRoundTripFrom("", commits);
      assert "" + PrintLog(commits) == PrintLog(commits);
    }
    SplitFieldsClean(PrintLog(commits), RECORD_SEP);
    ParsedBodiesAreClean(Split(PrintLog(commits), RECORD_SEP));
  }

  // Any output, well formed or not.

  /** A record is newlines, a hash without the field separator, that separator, and the body. */
  ghost predicate IsRecord(rec: string, pad: string, c: Commit) {
    rec == pad + (c.hash + [FIELD_SEP] + c.body) && (forall i :: 0 <= i < |pad| ==> pad[i] == '\n') &&
    FIELD_SEP !in c.hash && (c.hash == "" || c.hash[0] != '\n')
  }

  lemma {:induction false} TrimNewlinesOf(pad: string, t: string)
    requires (forall i :: 0 <= i < |pad| ==> pad[i] == '\n') && (t == "" || t[0] != '\n')
    ensures TrimNewlines(pad + t) == t
  {
    if pad == [] {
      assert pad + t == t;
    } else {
      assert (pad + t)[1..] == pad[1..] + t;
      TrimNewlinesOf(pad[1..], t);
    }
  }

  lemma {:induction false} TrimNewlinesPads(s: string) returns (pad: string)
    ensures s == pad + TrimNewlines(s) && forall i :: 0 <= i < |pad| ==> pad[i] == '\n'
    ensures TrimNewlines(s) == "" || TrimNewlines(s)[0] != '\n'
  {
    if s != [] && s[0] == '\n' {
      pad := TrimNewlinesPads(s[1..]);
      pad := ['\n'] + pad;
    } else {
      pad := [];
    }
  }

  /** A record gives its commit; a record of another form gives none. */
  lemma RecordExact(rec: string, c: Commit)
    ensures |ParseRecord(rec)| <= 1
    ensures c in ParseRecord(rec) <==> exists pad :: IsRecord(rec, pad, c)
  {
    hide TrimNewlines, IndexOf;
    if c in ParseRecord(rec) {
      var pad := TrimNewlinesPads(rec);
      var r := TrimNewlines(rec);
      assert r == c.hash + [FIELD_SEP] + c.body;
      assert IsRecord(rec, pad, c);
    }
    if pad :| IsRecord(rec, pad, c) {
      var r := c.hash + [FIELD_SEP] + c.body;
      TrimNewlinesOf(pad, r);
      assert r[..|c.hash|] == c.hash && r[|c.hash| + 1..] == c.body;
      IndexOfUnique(r, FIELD_SEP, |c.hash|);
    }
  }

  lemma {:induction false} InParsed(records: seq<string>, c: Commit)
    ensures c in ParseRecords(records) <==> exists k :: 0 <= k < |records| && c in ParseRecord(records[k])
  {
    hide ParseRecord;
    if records != [] {
      var n := |records| - 1;
      InParsed(records[..n], c);
      forall k | 0 <= k < n ensures records[..n][k] == records[k] {}
    }
  }

  /** Whatever git prints, the commits are those of the records that are well formed. */
  lemma LogHoldsRecords(out: string, c: Commit)
    ensures c in ParseLog(out) <==> exists rec, pad :: rec in Split(out, RECORD_SEP) && IsRecord(rec, pad, c)
  {
    hide Split, ParseRecord, ParseRecords, IsRecord;
    var records := Split(out, RECORD_SEP);
    InParsed(records, c);
    forall rec ensures c in ParseRecord(rec) <==> exists pad :: IsRecord(rec, pad, c) {
      RecordExact(rec, c);
    }
  }

  // The ids one commit claims to close.

  function LowerAll(xs: seq<string>): (r: seq<string>)
    ensures |r| == |xs| && forall k :: 0 <= k < |xs| ==> r[k] == Lower(xs[k])
  {
    if xs == [] then [] else LowerAll(xs[..|xs| - 1]) + [Lower(xs[|xs| - 1])]
  }

  /** The result of `extractClosedIDs`. */
  function ClosedIds(body: string): seq<string> {
    SortStrings(Dedupe(LowerAll(CitedIds(body))))
  }

  ghost function LowerSet(xs: seq<string>): set<string> {
    Elems(LowerAll(xs))
  }

  lemma LowerSetSnoc(xs: seq<string>, x: string)
    ensures LowerSet(xs + [x]) == LowerSet(xs) + {Lower(x)}
  {
    assert (xs + [x])[..|xs|] == xs;
  }

  lemma IdsInSnoc(clauses: seq<string>, c: string)
    ensures IdsIn(clauses + [c]) == IdsIn(clauses) + FindIds(c)
  {
    hide FindIds;
    if clauses == [] {
      assert clauses + [c] == [c];
      assert IdsIn([]) == [];
    } else {
      assert (clauses + [c])[1..] == clauses[1..] + [c];
      IdsInSnoc(clauses[1..], c);
    }
  }

  /** The `seen` map: the lower-cased ids of every clause. */
  method CollectSeen(body: string) returns (seen: set<string>)
    ensures seen == LowerSet(CitedIds(body))
  {
    hide FindClauses, FindIds, IdsIn, LowerSet;
    seen := {};
    var clauses := FindClauses("", body);
    assert clauses[..0] == [];
    NothingCited();
    for k := 0 to |clauses|
      invariant seen == LowerSet(IdsIn(clauses[..k]))
    {
      var found := FindIds(clauses[k]);
      ghost var before := IdsIn(clauses[..k]);
      assert before + found[..0] == before;
      for j := 0 to |found|
        invariant seen == LowerSet(before + found[..j])
      {
        LowerSetSnoc(before + found[..j], found[j]);
        assert before + found[..j + 1] == before + found[..j] + [found[j]];
        seen := seen + {Lower(found[j])};
      }
      assert before + found[..|found|] == before + found;
      assert clauses[..k + 1] == clauses[..k] + [clauses[k]];
      IdsInSnoc(clauses[..k], clauses[k]);
    }
    assert clauses[..|clauses|] == clauses;
  }

  lemma NothingCited()
    ensures LowerSet(IdsIn([])) == {}
  {
    assert IdsIn([]) == [];
  }

  /** Ranging over a Go map visits its keys in an unspecified order; sorting them
      afterwards makes the result independent of it. */
  method SortedKeys(seen: set<string>) returns (ids: seq<string>)
    ensures Sorted(ids) && NoDup(ids) && Elems(ids) == seen
  {
    ids := [];
    var todo := seen;
    while todo != {}
      invariant NoDup(ids) && Elems(ids) == seen - todo && todo <= seen
      decreases todo
    {
      var id :| id in todo;
      assert id !in Elems(ids);
      assert Elems(ids + [id]) == Elems(ids) + {id};
      ids := ids + [id];
      todo := todo - {id};
    }
    SortStringsSorts(ids);
    SameMultisetFacts(ids, SortStrings(ids));
    ids := SortStrings(ids);
  }

  method ExtractClosedIds(body: string) returns (ids: seq<string>)
    ensures ids == ClosedIds(body)
  {
    var seen := CollectSeen(body);
    ids := SortedKeys(seen);
    ClosedIdsShape(body);
    NoDupSameElems(ids, ClosedIds(body));
    SortedUnique(ids, ClosedIds(body));
  }

  lemma ClosedIdsShape(body: string)
    ensures Sorted(ClosedIds(body)) && NoDup(ClosedIds(body))
    ensures Elems(ClosedIds(body)) == LowerSet(CitedIds(body))
  {
    var d := Dedupe(LowerAll(CitedIds(body)));
    DedupeIsFirstSeen(LowerAll(CitedIds(body)));
    SortStringsSorts(d);
    SameMultisetFacts(d, ClosedIds(body));
  }

  /** Printing a closing chain and extracting gives exactly its ids, lower-cased, sorted and
      without duplicates. */
  lemma PrintedChainIsExtracted(ch: Chain)
    requires ValidChain(ch)
    ensures var ids := ClosedIds(Render(ch));
            Sorted(ids) && NoDup(ids) &&
            forall x :: x in ids <==> exists k :: 0 <= k < |ChainIds(ch)| && x == Lower(ChainIds(ch)[k])
  {
    PrintedChainRoundTrip(ch);
    ClosedIdsShape(Render(ch));
    forall x ensures x in ClosedIds(Render(ch)) <==> exists k :: 0 <= k < |ChainIds(ch)| && x == Lower(ChainIds(ch)[k]) {
      assert x in ClosedIds(Render(ch)) <==> x in Elems(ClosedIds(Render(ch)));
      InLowerSet(ChainIds(ch), x);
    }
  }

  lemma InLowerSet(xs: seq<string>, x: string)
    ensures x in LowerSet(xs) <==> exists k :: 0 <= k < |xs| && x == Lower(xs[k])
  {
    if x in LowerSet(xs) {
      var k :| 0 <= k < |LowerAll(xs)| && LowerAll(xs)[k] == x;
    }
    if k :| 0 <= k < |xs| && x == Lower(xs[k]) {
      assert LowerAll(xs)[k] == x;
    }
  }

  /** Every extracted id is the lower-cased id of a closing chain standing in the body. */
  lemma ExtractedIdsAreCited(body: string, x: string)
    requires x in ClosedIds(body)
    ensures exists pre, ch, id :: ValidChain(ch) && StandsAt(body, pre, ch) && id in ChainIds(ch) && x == Lower(id)
  {
    ClosedIdsShape(body);
    assert x in Elems(ClosedIds(body));
    InLowerSet(CitedIds(body), x);
    var k :| 0 <= k < |CitedIds(body)| && x == Lower(CitedIds(body)[k]);
    ExtractionSound(body, CitedIds(body)[k]);
  }

  /** Every id of an uncut closing chain that stands at a visible place of the body is extracted. */
  lemma CitedIdsAreExtracted(body: string, pre: string, ch: Chain, id: string)
    requires ValidChain(ch) && StandsAt(body, pre, ch) && Visible(pre) && id in ChainIds(ch)
    requires IdRun(body[|pre| + |Render(ch)|..]) == 0
    ensures Lower(id) in ClosedIds(body)
  {
    ExtractionComplete(body, pre, ch);
    ClosedIdsShape(body);
    var k :| 0 <= k < |CitedIds(body)| && CitedIds(body)[k] == id;
    InLowerSet(CitedIds(body), Lower(id));
    assert Lower(id) in Elems(ClosedIds(body));
  }
}
