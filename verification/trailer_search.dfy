/** Which ids a commit body's closing trailers yield: the two nested regular-expression
    searches of cmd/bdaudit/trailers.go, and that they find nothing but closing chains. */
module TrailerSearch {
  import opened Text
  import opened TrailerGrammar

  function IdsIn(clauses: seq<string>): seq<string> {
    if clauses == [] then [] else FindIds(clauses[0]) + IdsIn(clauses[1..])
  }

  /** Every id cited by a closing trailer of `body`, as written, in order of appearance. */
  function CitedIds(body: string): seq<string> {
    IdsIn(FindClauses("", body))
  }

  /** `ch` stands at offset `|pre|` of `body`. */
  ghost predicate StandsAt(body: string, pre: string, ch: Chain) {
    HasPrefix(body, pre + Render(ch))
  }

  // Soundness.

  /** One step of the clause search. */
  lemma {:induction false} ClauseStep(prev: string, s: string)
    requires s != []
    ensures var n := ClauseLen(prev, s);
            IdsIn(FindClauses(prev, s)) ==
            if n > 0 then FindIds(s[..n]) + IdsIn(FindClauses(prev + s[..n], s[n..]))
            else IdsIn(FindClauses(prev + s[..1], s[1..]))
  {
    var n := ClauseLen(prev, s);
    if n > 0 {
      var more := FindClauses(prev + s[..n], s[n..]);
      assert ([s[..n]] + more)[1..] == more;
    } else {
      assert s[..1] == [s[0]];
    }
  }

  lemma {:induction false} Regroup(prev: string, s: string, m: nat)
    requires m <= |s|
    ensures prev + s == (prev + s[..m]) + s[m..]
  {
  }

  lemma {:induction false} PrefixStands(prev: string, s: string, n: nat)
    requires n <= |s|
    ensures HasPrefix(prev + s, prev + s[..n])
  {
  }

  lemma {:induction false} ClauseIdIsInChain(prev: string, s: string, id: string) returns (ch: Chain)
    requires ClauseLen(prev, s) > 0 && id in FindIds(s[..ClauseLen(prev, s)])
    ensures ValidChain(ch) && StandsAt(prev + s, prev, ch) && id in ChainIds(ch)
    ensures AtBoundary(prev)
  {
    LeadVerbOfMatch(prev, s);
    ch := ParseChain(prev, s);
    IdsOfWholeChain(ch);
    PrefixStands(prev, s, ClauseLen(prev, s));
  }

  lemma {:induction false} FoundIdIsInChain(prev: string, s: string, id: string) returns (pre: string, ch: Chain)
    requires id in IdsIn(FindClauses(prev, s))
    ensures ValidChain(ch) && StandsAt(prev + s, pre, ch) && id in ChainIds(ch)
    ensures AtBoundary(pre)
    decreases |s|
  {
    ClauseStep(prev, s);
    var n := ClauseLen(prev, s);
    if n > 0 && id in FindIds(s[..n]) {
      pre := prev;
      ch := ClauseIdIsInChain(prev, s, id);
    } else {
      var m := if n > 0 then n else 1;
      Regroup(prev, s, m);
      pre, ch := FoundIdIsInChain(prev + s[..m], s[m..], id);
    }
  }

  // Where the greedy match stops.

  lemma {:induction false} TailStops(s: string)
    requires IdRun(s) == 0
    ensures LinkLen(s[TailLen(s)..]) == 0 && IdRun(s[TailLen(s)..]) == 0
    decreases |s|
  {
    hide LinkLen, IdRun;
    var l := LinkLen(s);
    if l > 0 {
      LinkStops(s);
      TailStops(s[l..]);
      DropTwice(s, l, TailLen(s[l..]));
    }
  }

  lemma {:induction false} DropTwice(s: string, a: nat, b: nat)
    requires a + b <= |s|
    ensures s[a..][b..] == s[a + b..]
  {
  }

  lemma {:induction false} IdStops(x: string)
    requires IdLen(x) > 0
    ensures IdRun(x[IdLen(x)..]) == 0
  {
    var n := IdRun(x[|ID_PREFIX|..]);
    if IdLen(x) < |x| {
      assert x[|ID_PREFIX|..][n] == x[IdLen(x)];
    }
  }

  lemma {:induction false} LinkStops(s: string)
    requires LinkLen(s) > 0
    ensures IdRun(s[LinkLen(s)..]) == 0
  {
    var c := SepLen(s);
    var u := s[c..];
    var r := RepeatLen(u);
    IdStops(u[r..]);
    assert s[LinkLen(s)..] == u[r..][IdLen(u[r..])..];
  }

  lemma {:induction false} ClauseStops(prev: string, s: string)
    requires ClauseLen(prev, s) > 0
    ensures LinkLen(s[ClauseLen(prev, s)..]) == 0 && IdRun(s[ClauseLen(prev, s)..]) == 0
  {
    hide *;
    var v, w, i, l := ClauseParts(prev, s);
    var x := s[v..][w..];
    IdStops(x);
    TailStops(x[i..]);
    DropTwice(s, v, w);
    DropTwice(s, v + w, i);
    DropTwice(s, v + w + i, l);
  }

  lemma {:induction false} TailLenExact(links: seq<Link>, t: string)
    requires forall k :: 0 <= k < |links| ==> ValidLink(links[k])
    requires LinkLen(t) == 0 && IdRun(t) == 0
    ensures TailLen(RenderLinks(links) + t) == |RenderLinks(links)|
  {
    hide LinkLen, IdRun, RenderLink, ValidLink;
    if links == [] {
      assert RenderLinks(links) + t == t;
    } else {
      var head, rest := RenderLink(links[0]), RenderLinks(links[1..]) + t;
      RenderLinksThen(links, t);
      LinkLenOf(links[0], rest);
      RestStart(links[1..], t);
      TailLenExact(links[1..], t);
      LinkText(links[0]);
      TailLenStep(head, rest);
    }
  }

  lemma LinkText(l: Link)
    requires ValidLink(l)
    ensures RenderLink(l) != []
  {
    SepStart(l.sep);
  }

  lemma {:induction false} TailLenStep(head: string, rest: string)
    requires head != [] && LinkLen(head + rest) == |head|
    ensures TailLen(head + rest) == |head| + TailLen(rest)
  {
    hide LinkLen;
    Cat(head, rest);
  }

  lemma {:induction false} ClauseLenExact(prev: string, ch: Chain, t: string)
    requires ValidChain(ch) && AtBoundary(prev)
    requires LinkLen(t) == 0 && IdRun(t) == 0
    ensures ClauseLen(prev, Render(ch) + t) == |Render(ch)|
  {
    hide ClauseLen, TailLen, LinkLen, IdRun, RenderLinks, IdLen, Render, VerbLen, Boundary;
    var rest := RenderLinks(ch.links) + t;
    var x := ch.first + rest;
    RenderThen(ch, t);
    LeadVerb(prev, ch.verb, ch.gap + x);
    assert LowerChar(x[0]) == 'g' by { assert x[0] == ch.first[0]; }
    SpaceRunOf(ch.gap, x);
    RestStart(ch.links, t);
    IdLenOf(ch.first, rest);
    Cat(ch.first, rest);
    TailLenExact(ch.links, t);
    ClauseLenByParts(prev, ch.verb, ch.gap, x);
  }

  lemma {:induction false} ClauseThenStop(prev: string, s: string) returns (outer: Chain, t: string)
    requires ClauseLen(prev, s) > 0
    ensures ValidChain(outer) && s == Render(outer) + t && LinkLen(t) == 0 && IdRun(t) == 0
    ensures |Render(outer)| == ClauseLen(prev, s)
    ensures ChainIds(outer) == FindIds(s[..ClauseLen(prev, s)])
  {
    outer := ParseChain(prev, s);
    t := s[ClauseLen(prev, s)..];
    ClauseStops(prev, s);
    IdsOfWholeChain(outer);
  }

  lemma {:induction false} PrefixChainIds(ch: Chain, r: string, inner: Chain)
    requires ValidChain(ch) && ValidChain(inner) && Render(inner) == Render(ch) + r && IdRun(r) == 0
    ensures ChainIds(inner) == ChainIds(ch) + FindIds(r)
  {
    IdsOfChain(ch, r);
    IdsOfWholeChain(inner);
  }

  lemma {:induction false} PrefixRemainder(a: string, t: string, b: string) returns (r: string)
    requires |b| <= |a| && HasPrefix(a + t, b) && IdRun((a + t)[|b|..]) == 0
    ensures a == b + r && IdRun(r) == 0
  {
    r := a[|b|..];
    assert (a + t)[..|b|] == a[..|b|];
    if r != [] { assert r[0] == (a + t)[|b|..][0]; }
  }

  lemma {:induction false} SameVerb(a: Chain, b: Chain, s: string)
    requires ValidChain(a) && IsVerb(b.verb) && HasPrefix(s, Render(a)) && HasPrefix(s, Render(b))
    ensures a.verb == b.verb
  {
    VerbPrefix(a, s);
    VerbPrefix(b, s);
  }

  lemma {:induction false} VerbPrefix(a: Chain, s: string)
    requires IsVerb(a.verb) && HasPrefix(s, Render(a))
    ensures VerbLen(s) == |a.verb| && s[..|a.verb|] == a.verb
  {
    hide VerbLen, RenderLinks;
    var u := a.gap + a.first + RenderLinks(a.links) + s[|Render(a)|..];
    assert s == Render(a) + s[|Render(a)|..];
    assert s == a.verb + u;
    VerbLenOf(a.verb, u);
    Cat(a.verb, u);
  }

  /** Soundness: an extracted id belongs to a closing chain that stands in the body at a
      word boundary. */
  lemma {:induction false} ExtractionSound(body: string, id: string)
    requires id in CitedIds(body)
    ensures exists pre, ch :: ValidChain(ch) && StandsAt(body, pre, ch) && id in ChainIds(ch) &&
                              AtBoundary(pre)
  {
    assert "" + body == body;
    var pre, ch := FoundIdIsInChain("", body, id);
  }

  /** A printed chain, and nothing else, gives back exactly its ids in order. */
  lemma {:induction false} PrintedChainRoundTrip(ch: Chain)
    requires ValidChain(ch)
    ensures CitedIds(Render(ch)) == ChainIds(ch)
  {
    LoneChainThen(ch, []);
    assert Render(ch) + [] == Render(ch);
  }

  lemma RenderSome(ch: Chain)
    requires ValidChain(ch)
    ensures |Render(ch)| > |ch.verb| > 0
  {
    hide RenderLinks;
  }

  /** A chain followed by text that neither continues it nor holds another clause. */
  lemma {:induction false} LoneChainThen(ch: Chain, t: string)
    requires ValidChain(ch) && LinkLen(t) == 0 && IdRun(t) == 0 && FindClauses(Render(ch), t) == []
    ensures CitedIds(Render(ch) + t) == ChainIds(ch)
  {
    hide Render, ClauseLen, FindClauses, FindIds, LinkLen, IdRun, ValidChain, ChainIds;
    ClauseLenExact("", ch, t);
    RenderSome(ch);
    ClauseStep("", Render(ch) + t);
    Cat(Render(ch), t);
    assert "" + Render(ch) == Render(ch);
    IdsOfWholeChain(ch);
    assert IdsIn([]) == [];
  }
}
