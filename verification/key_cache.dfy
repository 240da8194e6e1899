/** cli.go, secretsManagerKMSAdapter: the lazily created default key, shared by concurrent
    callers under one mutex. */
module KeyCache {
  import opened Wrappers

  const DEFAULT_ALIAS: string := "alias/aws/secretsmanager"

  datatype Result = Ok(keyId: string) | Err

  /** What one execution of resolveKeyID does to the cached id. `create` is what the KMS
      backend answers if CreateKey is called. */
  datatype Outcome = Outcome(cache: string, result: Result, created: bool)

  function Resolve(cache: string, keyId: string, create: Result): Outcome {
    if keyId != DEFAULT_ALIAS then Outcome(cache, Ok(keyId), false)
    else if cache != "" then Outcome(cache, Ok(cache), false)
    else if create.Err? then Outcome(cache, Err, false)
    else Outcome(create.keyId, create, true)
  }

  /** One use of the adapter: the key id asked for, and what the KMS backend answers if it is
      asked to create a key. */
  datatype Request = Request(keyId: string, create: Result)

  /** Request `f` is the first for the alias that the backend answers with a key. */
  ghost predicate FirstMade(requests: seq<Request>, f: nat) {
    f < |requests| && requests[f].keyId == DEFAULT_ALIAS && requests[f].create.Ok? &&
    forall j :: 0 <= j < f && requests[j].keyId == DEFAULT_ALIAS ==> requests[j].create.Err?
  }

  class Adapter {
    var defaultKeyId: string

    constructor ()
      ensures defaultKeyId == ""
    {
      defaultKeyId := "";
    }

    method ResolveKeyId(keyId: string, create: Result) returns (r: Result)
      modifies this
      ensures keyId != DEFAULT_ALIAS ==> r == Ok(keyId) && defaultKeyId == old(defaultKeyId)
      ensures keyId == DEFAULT_ALIAS && old(defaultKeyId) != "" ==>
                r == Ok(old(defaultKeyId)) && defaultKeyId == old(defaultKeyId)
      ensures keyId == DEFAULT_ALIAS && old(defaultKeyId) == "" ==>
                r == create && defaultKeyId == if create.Ok? then create.keyId else ""
      ensures var o := Resolve(old(defaultKeyId), keyId, create); r == o.result && defaultKeyId == o.cache
    {
      if keyId != DEFAULT_ALIAS {
        return Ok(keyId);
      }
      if defaultKeyId != "" {
        return Ok(defaultKeyId);
      }
      if create.Err? {
        return Err;
      }
      defaultKeyId := create.keyId;
      return Ok(defaultKeyId);
    }

    /** Requests served one after the other by a new adapter, the alias and explicit ids
        mixed. Only the first alias request that the backend answers can make a key, and
        every later one returns that key; before it, the alias fails. */
    method ServeInTurn(requests: seq<Request>) returns (results: seq<Result>)
      requires defaultKeyId == ""
      requires forall k :: 0 <= k < |requests| ==> requests[k].create != Ok("")
      modifies this
      ensures |results| == |requests|
      ensures forall k :: 0 <= k < |results| && requests[k].keyId != DEFAULT_ALIAS ==> results[k] == Ok(requests[k].keyId)
      ensures forall k, f: nat :: 0 <= k < |results| && requests[k].keyId == DEFAULT_ALIAS && FirstMade(requests, f) ==>
                results[k] == if f <= k then requests[f].create else Err
      ensures forall k :: 0 <= k < |results| && requests[k].keyId == DEFAULT_ALIAS && results[k].Ok? ==>
                exists f: nat :: f <= k && FirstMade(requests, f)
    {
      results := [];
      ghost var first: Option<nat> := None;
      for i := 0 to |requests|
        invariant |results| == i
        invariant forall k :: 0 <= k < i && requests[k].keyId != DEFAULT_ALIAS ==> results[k] == Ok(requests[k].keyId)
        invariant first.None? ==> defaultKeyId == "" && forall k :: 0 <= k < i && requests[k].keyId == DEFAULT_ALIAS ==>
                    requests[k].create.Err? && results[k] == Err
        invariant first.Some? ==>
                    first.value < i && FirstMade(requests, first.value) && requests[first.value].create == Ok(defaultKeyId)
        invariant first.Some? ==> forall k :: 0 <= k < i && requests[k].keyId == DEFAULT_ALIAS ==>
                    results[k] == if first.value <= k then Ok(defaultKeyId) else Err
      {
        var r := ResolveKeyId(requests[i].keyId, requests[i].create);
        results := results + [r];
        if requests[i].keyId == DEFAULT_ALIAS && first.None? && r.Ok? {
          first := Some(i);
        }
      }
    }
  }

  // Callers interleaving step by step.

  datatype Caller =
    | WaitingForLock
    | HoldingLock          // has the lock, has not looked at the cache
    | CallingCreate        // has the lock, found the cache empty
    | Returned(keyId: string, result: Result)

  /** One completed call: who, for which id, what CreateKey answered if it was asked, and
      what the caller got. */
  datatype Call = Call(caller: nat, keyId: string, create: Result, result: Result)

  datatype State = State(
    cache: string,
    holder: Option<nat>,
    callers: map<nat, Caller>,
    creations: seq<string>,   // ids of the keys CreateKey made
    calls: seq<Call>)         // completed calls, in order

  ghost predicate Init(s: State) {
    s == State("", None, map[], [], [])
  }

  // The steps caller `i` can take.

  ghost predicate PassThrough(s: State, t: State, i: nat, keyId: string) {
    i !in s.callers && keyId != DEFAULT_ALIAS &&
    t == s.(callers := s.callers[i := Returned(keyId, Ok(keyId))], calls := s.calls + [Call(i, keyId, Err, Ok(keyId))])
  }

  ghost predicate Enter(s: State, t: State, i: nat) {
    i !in s.callers && t == s.(callers := s.callers[i := WaitingForLock])
  }

  ghost predicate At(s: State, i: nat, c: Caller) {
    i in s.callers && s.callers[i] == c
  }

  ghost predicate Lock(s: State, t: State, i: nat) {
    At(s, i, WaitingForLock) && s.holder == None && t == s.(holder := Some(i), callers := s.callers[i := HoldingLock])
  }

  function Finish(s: State, i: nat, create: Result, r: Result): State {
    s.(holder := None, callers := s.callers[i := Returned(DEFAULT_ALIAS, r)],
       calls := s.calls + [Call(i, DEFAULT_ALIAS, create, r)])
  }

  ghost predicate Hit(s: State, t: State, i: nat) {
    At(s, i, HoldingLock) && s.cache != "" && t == Finish(s, i, Err, Ok(s.cache))
  }

  ghost predicate Miss(s: State, t: State, i: nat) {
    At(s, i, HoldingLock) && s.cache == "" && t == s.(callers := s.callers[i := CallingCreate])
  }

  ghost predicate Created(s: State, t: State, i: nat, id: string) {
    At(s, i, CallingCreate) && t == Finish(s, i, Ok(id), Ok(id)).(cache := id, creations := s.creations + [id])
  }

  ghost predicate Failed(s: State, t: State, i: nat) {
    At(s, i, CallingCreate) && t == Finish(s, i, Err, Err)
  }

  ghost predicate StepOf(s: State, t: State, i: nat, text: string) {
    || PassThrough(s, t, i, text) || Enter(s, t, i) || Lock(s, t, i) || Hit(s, t, i)
    || Miss(s, t, i) || Created(s, t, i, text) || Failed(s, t, i)
  }

  ghost predicate Step(s: State, t: State) {
    exists i: nat, text: string :: StepOf(s, t, i, text)
  }

  ghost predicate Behaviour(run: seq<State>) {
    run != [] && Init(run[0]) && forall k :: 0 < k < |run| ==> Step(run[k - 1], run[k])
  }

  // Invariants.

  ghost predicate LockInv(s: State) {
    forall i :: i in s.callers && (s.callers[i] == HoldingLock || s.callers[i] == CallingCreate) ==>
      s.holder == Some(i) && (s.callers[i] == CallingCreate ==> s.cache == "")
  }

  /** The completed calls run one after the other, each atomically: the cache they leave. */
  function Replay(calls: seq<Call>): (cache: string) {
    if calls == [] then ""
    else
      var n := |calls| - 1;
      Resolve(Replay(calls[..n]), calls[n].keyId, calls[n].create).cache
  }

  /** The keys that run makes, in order. */
  function Made(calls: seq<Call>): (ids: seq<string>) {
    if calls == [] then []
    else
      var n := |calls| - 1;
      var o := Resolve(Replay(calls[..n]), calls[n].keyId, calls[n].create);
      Made(calls[..n]) + if o.created && calls[n].create.Ok? then [calls[n].create.keyId] else []
  }

  ghost predicate Serial(s: State) {
    s.cache == Replay(s.calls) && s.creations == Made(s.calls) &&
    forall k :: 0 <= k < |s.calls| ==>
      s.calls[k].result == Resolve(Replay(s.calls[..k]), s.calls[k].keyId, s.calls[k].create).result
  }

  ghost predicate CreationInv(s: State) {
    (forall k :: 0 <= k < |s.creations| - 1 ==> s.creations[k] == "") &&
    s.cache == (if s.creations == [] then "" else s.creations[|s.creations| - 1])
  }

  /** Explicit ids come back unchanged; what the default alias resolves to was made by
      CreateKey. */
  ghost predicate ResultInv(s: State) {
    forall i :: i in s.callers && s.callers[i].Returned? ==>
      var keyId, r := s.callers[i].keyId, s.callers[i].result;
      if keyId != DEFAULT_ALIAS then r == Ok(keyId) else r.Ok? ==> r.keyId in s.creations
  }

  lemma LockKept(s: State, t: State)
    requires LockInv(s) && Step(s, t)
    ensures LockInv(t)
  {
  }

  lemma CreationKept(s: State, t: State)
    requires LockInv(s) && CreationInv(s) && Step(s, t)
    ensures CreationInv(t)
  {
    var i: nat, text: string :| StepOf(s, t, i, text);
    if Created(s, t, i, text) {
      assert forall k :: 0 <= k < |s.creations| ==> t.creations[k] == s.creations[k];
    }
  }

  lemma ResultKept(s: State, t: State)
    requires ResultInv(s) && CreationInv(s) && Step(s, t)
    ensures ResultInv(t)
  {
    var i: nat, text: string :| StepOf(s, t, i, text);
    if Hit(s, t, i) {
      assert s.creations != [] && s.creations[|s.creations| - 1] == s.cache;
    }
  }

  lemma ReplaySnoc(calls: seq<Call>, c: Call)
    ensures var o := Resolve(Replay(calls), c.keyId, c.create);
            Replay(calls + [c]) == o.cache &&
            Made(calls + [c]) == Made(calls) + if o.created && c.create.Ok? then [c.create.keyId] else []
  {
    assert (calls + [c])[..|calls|] == calls;
  }

  lemma SerialSnoc(s: State, t: State, c: Call)
    requires Serial(s) && t.calls == s.calls + [c]
    requires var o := Resolve(s.cache, c.keyId, c.create);
             t.cache == o.cache && c.result == o.result &&
             t.creations == s.creations + if o.created && c.create.Ok? then [c.create.keyId] else []
    ensures Serial(t)
  {
    hide Replay, Made, Resolve;
    ReplaySnoc(s.calls, c);
    forall k | 0 <= k < |t.calls|
      ensures t.calls[k].result == Resolve(Replay(t.calls[..k]), t.calls[k].keyId, t.calls[k].create).result
    {
      if k < |s.calls| {
        assert t.calls[..k] == s.calls[..k] && t.calls[k] == s.calls[k];
      } else {
        assert t.calls[..k] == s.calls && t.calls[k] == c;
      }
    }
  }

  lemma SerialKept(s: State, t: State)
    requires LockInv(s) && Serial(s) && Step(s, t)
    ensures Serial(t)
  {
    hide Serial, Replay, Made;
    var i: nat, text: string :| StepOf(s, t, i, text);
    if PassThrough(s, t, i, text) || Hit(s, t, i) || Failed(s, t, i) || Created(s, t, i, text) {
      SerialSnoc(s, t, t.calls[|s.calls|]);
    } else {
      SameCalls(s, t);
    }
  }

  lemma SameCalls(s: State, t: State)
    requires Serial(s) && t.calls == s.calls && t.cache == s.cache && t.creations == s.creations
    ensures Serial(t)
  {
    hide Replay, Made, Resolve;
  }

  ghost predicate Inv(s: State) {
    LockInv(s) && CreationInv(s) && ResultInv(s) && Serial(s)
  }

  lemma {:induction false} BehaviourKeepsInv(run: seq<State>, k: nat)
    requires Behaviour(run) && k < |run|
    ensures Inv(run[k])
  {
    if k > 0 {
      BehaviourKeepsInv(run, k - 1);
      hide *;
      KeepInv(run, k);
    }
  }

  lemma KeepInv(run: seq<State>, k: nat)
    requires Behaviour(run) && 0 < k < |run| && Inv(run[k - 1])
    ensures Inv(run[k])
  {
    hide Step, LockInv, CreationInv, ResultInv, Serial;
    LockKept(run[k - 1], run[k]);
    CreationKept(run[k - 1], run[k]);
    ResultKept(run[k - 1], run[k]);
    SerialKept(run[k - 1], run[k]);
  }

  // Results.

  /** However callers interleave, the completed calls, for the alias and for explicit ids,
      behave as if each had run alone, those for the alias in the order they held the lock. */
  lemma InterleavingsAreSerial(run: seq<State>, k: nat)
    requires Behaviour(run) && k < |run|
    ensures Serial(run[k])
  {
    BehaviourKeepsInv(run, k);
  }

  /** Only the last key ever made can have a non-empty id, and it is the cached one; every
      successful resolution of the default alias returns an id that was made, and any other
      id is returned as is. */
  lemma ResolvedKeysWereCreated(run: seq<State>, k: nat)
    requires Behaviour(run) && k < |run|
    ensures CreationInv(run[k]) && ResultInv(run[k])
  {
    BehaviourKeepsInv(run, k);
  }

  /** As long as the KMS backend never answers with an empty id, at most one key is made,
      and every successful default-alias resolution returns it. */
  lemma OneDefaultKey(run: seq<State>, k: nat)
    requires Behaviour(run) && k < |run| && "" !in run[k].creations
    ensures var s := run[k];
            |s.creations| <= 1 &&
            forall i :: At(s, i, Returned(DEFAULT_ALIAS, Ok(s.cache))) || !DefaultResolved(s, i)
    ensures var s := run[k]; forall i :: DefaultResolved(s, i) ==> s.creations == [s.cache]
  {
    hide Behaviour, Serial;
    BehaviourKeepsInv(run, k);
    var s := run[k];
    if |s.creations| > 1 {
      EarlierKeysAreEmpty(s);
    }
  }

  lemma EarlierKeysAreEmpty(s: State)
    requires CreationInv(s) && |s.creations| > 1
    ensures "" in s.creations
  {
    assert s.creations[0] == "";
  }

  ghost predicate DefaultResolved(s: State, i: nat) {
    i in s.callers && s.callers[i].Returned? && s.callers[i].keyId == DEFAULT_ALIAS && s.callers[i].result.Ok?
  }

  ghost predicate OnlyExplicit(calls: seq<Call>) {
    forall c :: c in calls ==> c.keyId != DEFAULT_ALIAS
  }

  /** A failed creation leaves the cache as empty as it found it, and the next call for the
      alias, whatever explicit ids are resolved in between, asks the backend again instead of
      being served from the cache. */
  lemma FailureIsRetried(run: seq<State>, k: nat, j: nat)
    requires Behaviour(run) && k < |run| && j < |run[k].calls| && run[k].calls[j].result == Err
    ensures var cs := run[k].calls;
            Replay(cs[..j]) == "" && Replay(cs[..j + 1]) == "" &&
            forall m :: j < m < |cs| && cs[m].keyId == DEFAULT_ALIAS && OnlyExplicit(cs[j + 1..m]) ==>
              cs[m].result == cs[m].create
  {
    BehaviourKeepsInv(run, k);
    hide Behaviour, LockInv, CreationInv, ResultInv;
    var cs := run[k].calls;
    assert cs[..j + 1][..j] == cs[..j];
    assert cs[j].result == Resolve(Replay(cs[..j]), cs[j].keyId, cs[j].create).result;
    forall m | j < m < |cs| && cs[m].keyId == DEFAULT_ALIAS && OnlyExplicit(cs[j + 1..m])
      ensures cs[m].result == cs[m].create
    {
      ExplicitIdsKeepCache(cs, j + 1, m);
    }
  }

  lemma {:induction false} ExplicitIdsKeepCache(calls: seq<Call>, j: nat, m: nat)
    requires j <= m <= |calls| && OnlyExplicit(calls[j..m])
    ensures Replay(calls[..m]) == Replay(calls[..j])
  {
    if j < m {
      assert calls[j..m][..m - 1 - j] == calls[j..m - 1] && calls[j..m][m - 1 - j] == calls[m - 1];
      ExplicitIdsKeepCache(calls, j, m - 1);
      assert calls[..m][..m - 1] == calls[..m - 1];
    }
  }

  /** An empty id from the backend is not remembered: two callers then make two keys. */
  lemma EmptyIdIsForgotten(second: string) returns (run: seq<State>)
    ensures Behaviour(run) && run[|run| - 1].creations == ["", second]
  {
    hide Init, Step;
    var s0 := State("", None, map[], [], []);
    var first := OneCreation(s0, 0, "");
    var again := OneCreation(first[4], 1, second);
    InitIs(s0);
    run := first + again[1..];
    assert run == [first[0], first[1], first[2], first[3], first[4], again[1], again[2], again[3], again[4]];
  }

  /** The ids of the keys made in a run, in order. */
  ghost function KeysMade(run: seq<State>): seq<string> {
    if run == [] then [] else run[|run| - 1].creations
  }

  ghost predicate AllFrom(made: seq<string>, ids: iset<string>) {
    forall id :: id in made ==> id in ids
  }

  /** The exact condition on the backend: if `ids` are the ids it may answer with, then no run
      makes more than one key if and only if none of them is empty. */
  lemma OneKeyIffNoEmptyId(ids: iset<string>)
    requires ids != iset{}
    ensures (forall run: seq<State> :: Behaviour(run) && AllFrom(KeysMade(run), ids) ==> |KeysMade(run)| <= 1) <==> "" !in ids
  {
    if "" in ids {
      var second :| second in ids;
      var run := EmptyIdIsForgotten(second);
      assert AllFrom(KeysMade(run), ids) && |KeysMade(run)| == 2;
    } else {
      forall run: seq<State> | Behaviour(run) && AllFrom(KeysMade(run), ids) ensures |KeysMade(run)| <= 1 {
        OneDefaultKey(run, |run| - 1);
      }
    }
  }

  lemma InitIs(s: State)
    requires s == State("", None, map[], [], [])
    ensures Init(s)
  {
  }

  /** A new caller finds the cache empty and creates a key. */
  lemma OneCreation(s0: State, i: nat, id: string) returns (run: seq<State>)
    requires s0.cache == "" && s0.holder == None && i !in s0.callers
    ensures |run| == 5 && run[0] == s0 && forall k :: 0 < k < 5 ==> Step(run[k - 1], run[k])
    ensures var s := run[4];
            s.cache == id && s.holder == None && s.callers.Keys == s0.callers.Keys + {i} && s.creations == s0.creations + [id]
  {
    var s1 := s0.(callers := s0.callers[i := WaitingForLock]);
    var s2 := s1.(holder := Some(i), callers := s1.callers[i := HoldingLock]);
    var s3 := s2.(callers := s2.callers[i := CallingCreate]);
    var s4 := Finish(s3, i, Ok(id), Ok(id)).(cache := id, creations := s3.creations + [id]);
    assert StepOf(s0, s1, i, "") by { assert Enter(s0, s1, i); }
    assert StepOf(s1, s2, i, "") by { assert Lock(s1, s2, i); }
    assert StepOf(s2, s3, i, "") by { assert Miss(s2, s3, i); }
    assert StepOf(s3, s4, i, id) by { assert Created(s3, s4, i, id); }
    run := [s0, s1, s2, s3, s4];
  }
}
