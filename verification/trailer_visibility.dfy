/** Which closing chains of a commit body the search of cmd/bdaudit/trailers.go reads as
    such: the exact condition, and that every id of a chain so read is extracted. */
module TrailerVisibility {
  import opened Text
  import opened TrailerGrammar
  import opened TrailerSearch

  // Where a chain can hide. A clause swallows the verb of a chain that begins inside the
  // body of one of the clause's ids.

  /** An id cut anywhere in its body, possibly right after its hyphen. */
  ghost predicate OpenId(x: string) {
    |ID_PREFIX| <= |x| && MatchesFold(x, ID_PREFIX) && forall i :: |ID_PREFIX| <= i < |x| ==> IsIdChar(x[i])
  }

  /** The chain with its last id replaced. */
  function WithLastId(ch: Chain, x: string): Chain {
    if ch.links == [] then ch.(first := x)
    else
      var n := |ch.links| - 1;
      ch.(links := ch.links[..n] + [ch.links[n].(id := x)])
  }

  /** `c` is the text of a chain cut inside the body of its last id. */
  ghost predicate CutChain(c: string) {
    exists ch, x :: ValidChain(ch) && OpenId(x) && c == Render(WithLastId(ch, x))
  }

  /** Nothing before this place turns a closing verb that stands here into id text: the place
      is at a word boundary, and the text before it does not end in a cut chain that itself
      starts at such a place. */
  ghost predicate Visible(pre: string)
    decreases |pre|
  {
    AtBoundary(pre) && forall j :: 0 <= j < |pre| && Visible(pre[..j]) ==> !CutChain(pre[j..])
  }

  lemma {:induction false} LinksAppend(a: seq<Link>, b: seq<Link>)
    ensures RenderLinks(a + b) == RenderLinks(a) + RenderLinks(b)
  {
    hide RenderLink;
    if a == [] {
      assert a + b == b;
    } else {
      assert (a + b)[1..] == a[1..] + b;
      LinksAppend(a[1..], b);
    }
  }

  lemma LinksOfOne(l: Link)
    ensures RenderLinks([l]) == RenderLink(l)
  {
    assert [l][1..] == [];
  }

  lemma LastLinkText(front: seq<Link>, l: Link, x: string)
    ensures RenderLinks(front + [l.(id := x)]) == RenderLinks(front + [l.(id := "")]) + x
  {
    hide RenderSep, RenderAgain;
    var a, e := l.(id := x), l.(id := "");
    LinksAppend(front, [a]);
    LinksAppend(front, [e]);
    LinksOfOne(a);
    LinksOfOne(e);
    hide RenderLinks;
    assert RenderLink(a) == RenderLink(e) + x;
  }

  /** The text before the last id does not depend on that id. */
  lemma LastIdText(ch: Chain, x: string)
    ensures Render(WithLastId(ch, x)) == Render(WithLastId(ch, "")) + x
  {
    hide RenderLinks;
    if ch.links == [] {
      NoLinks();
    } else {
      var n := |ch.links| - 1;
      LastLinkText(ch.links[..n], ch.links[n], x);
    }
  }

  lemma NoLinks()
    ensures RenderLinks([]) == []
  {
  }

  /** Id characters after a cut chain complete it. */
  lemma CutChainCompleted(c: string, w: string) returns (ch: Chain)
    requires CutChain(c) && w != [] && forall i :: 0 <= i < |w| ==> IsIdChar(w[i])
    ensures ValidChain(ch) && Render(ch) == c + w
  {
    hide Render, IsIdChar;
    var c0, x :| ValidChain(c0) && OpenId(x) && c == Render(WithLastId(c0, x));
    LastIdText(c0, x);
    LastIdText(c0, x + w);
    ch := WithLastId(c0, x + w);
    assert IsId(x + w);
  }

  lemma CutChainEndsOpen(pre: string, j: nat)
    requires j <= |pre| && CutChain(pre[j..])
    ensures exists k :: 0 <= k <= |pre| && OpenId(pre[k..])
  {
    hide OpenId, Render;
    var ch, x :| ValidChain(ch) && OpenId(x) && pre[j..] == Render(WithLastId(ch, x));
    LastIdText(ch, x);
    assert pre[j + |Render(WithLastId(ch, ""))|..] == x;
  }

  /** A place at a word boundary that no open id precedes is visible. */
  lemma NoOpenIdIsVisible(pre: string)
    requires AtBoundary(pre) && forall k :: 0 <= k <= |pre| ==> !OpenId(pre[k..])
    ensures Visible(pre)
  {
    hide OpenId, CutChain;
    forall j | 0 <= j < |pre| && Visible(pre[..j]) ensures !CutChain(pre[j..]) {
      if CutChain(pre[j..]) {
        CutChainEndsOpen(pre, j);
        assert false;
      }
    }
  }

  // Where a verb can start inside a chain's text.

  lemma {:induction false} VerbStartsOnce(v: string, q: nat)
    requires IsVerb(v) && 0 < q < |v|
    ensures !StartsVerb(v[q])
  {
    if |v| == 6 { assert FoldsTo(v[q], "closes"[q]); }
    else if |v| == 5 { assert FoldsTo(v[q], "fixes"[q]); }
    else { assert FoldsTo(v[q], "resolves"[q]); }
  }

  lemma {:induction false} SepHasNoVerbStart(p: Sep, q: nat)
    requires IsSep(p) && q < |RenderSep(p)|
    ensures !StartsVerb(RenderSep(p)[q])
  {
    if p.And? {
      var o := q - |p.before|;
      if 0 <= o < 3 {
        assert RenderSep(p)[q] == p.word[o] && FoldsTo(p.word[o], "and"[o]);
      }
    }
  }

  lemma {:induction false} AgainStartsOnce(r: Again, q: nat)
    requires IsAgain(r) && 0 < q < |RenderAgain(r)|
    ensures !StartsVerb(RenderAgain(r)[q])
  {
    if q < |r.verb| {
      VerbStartsOnce(r.verb, q);
    }
  }

  /** The second letter of a closing verb. */
  predicate FollowsStart(c: char) {
    var l := LowerChar(c);
    l == 'l' || l == 'i' || l == 'e'
  }

  lemma VerbSecond(v: string)
    requires IsVerb(v)
    ensures StartsVerb(v[0]) && FollowsStart(v[1])
  {
    if |v| == 6 { assert FoldsTo(v[1], "closes"[1]); }
    else if |v| == 5 { assert FoldsTo(v[1], "fixes"[1]); }
    else { assert FoldsTo(v[1], "resolves"[1]); }
  }

  lemma PrefixLetters(x: string, o: nat)
    requires MatchesFold(x, ID_PREFIX) && o < |ID_PREFIX|
    ensures StartsVerb(x[o]) ==> o == 5 || o == 9
    ensures !FollowsStart(x[6]) && !FollowsStart(x[10])
  {
    assert FoldsTo(x[o], ID_PREFIX[o]) && FoldsTo(x[6], ID_PREFIX[6]) && FoldsTo(x[10], ID_PREFIX[10]);
  }

  /** The fixed part of an id holds no closing verb. */
  lemma {:induction false} VerbOnlyInIdBody(x: string, o: nat)
    requires IsId(x) && o < |x| && StartsVerb(x[o]) && (o + 1 < |x| ==> FollowsStart(x[o + 1]))
    ensures o >= |ID_PREFIX| && OpenId(x[..o])
  {
    if o < |ID_PREFIX| {
      PrefixLetters(x, o);
    }
  }

  /** Offset of link `k`'s repeated verb in the text of `links`. */
  function AgainOffset(links: seq<Link>, k: nat): nat
    requires k < |links|
  {
    if k == 0 then |RenderSep(links[0].sep)| else |RenderLink(links[0])| + AgainOffset(links[1..], k - 1)
  }

  ghost predicate ValidLinks(links: seq<Link>) {
    forall k :: 0 <= k < |links| ==> ValidLink(links[k])
  }

  /** `text` is that of some links, the last one cut inside the body of its id. */
  ghost predicate CutLinks(text: string) {
    exists links, l, x :: ValidLinks(links) && ValidLink(l) && OpenId(x) && text == RenderLinks(links + [l.(id := x)])
  }

  lemma {:induction false} InsideLink(l: Link, q: nat)
    requires ValidLink(l) && q < |RenderLink(l)|
    requires StartsVerb(RenderLink(l)[q]) && (q + 1 < |RenderLink(l)| ==> FollowsStart(RenderLink(l)[q + 1]))
    ensures CutLinks(RenderLink(l)[..q]) || (q == |RenderSep(l.sep)| && l.again.Repeated?)
  {
    hide StartsVerb, FollowsStart, RenderSep, RenderAgain, RenderLinks;
    var s, p, r := RenderLink(l), RenderSep(l.sep), RenderAgain(l.again);
    if q < |p| {
      assert s[q] == p[q];
      SepHasNoVerbStart(l.sep, q);
    } else if q < |p| + |r| {
      assert s[q] == r[q - |p|];
      if q > |p| { AgainStartsOnce(l.again, q - |p|); }
      AgainOfRepeated(l.again);
    } else {
      var o := q - |p| - |r|;
      assert s[q] == l.id[o] && (o + 1 < |l.id| ==> s[q + 1] == l.id[o + 1]);
      VerbOnlyInIdBody(l.id, o);
      CutLink(l, o);
    }
  }

  lemma CutLink(l: Link, o: nat)
    requires ValidLink(l) && o < |l.id| && OpenId(l.id[..o])
    ensures CutLinks(RenderLink(l)[..|RenderSep(l.sep)| + |RenderAgain(l.again)| + o])
  {
    hide ValidLink, OpenId, RenderSep, RenderAgain, RenderLinks;
    var e := l.(id := l.id[..o]);
    LinksOfOne(e);
    assert [] + [e] == [e];
    assert RenderLink(l)[..|RenderSep(l.sep)| + |RenderAgain(l.again)| + o] == RenderLink(e);
    assert ValidLinks([]);
  }

  lemma AgainOfRepeated(r: Again)
    ensures RenderAgain(r) != [] ==> r.Repeated?
  {
  }

  lemma {:induction false} CutLinksCons(l: Link, text: string)
    requires ValidLink(l) && CutLinks(text)
    ensures CutLinks(RenderLink(l) + text)
  {
    hide ValidLink, OpenId, RenderLink;
    var links, last, x :| ValidLinks(links) && ValidLink(last) && OpenId(x) && text == RenderLinks(links + [last.(id := x)]);
    var more := [l] + links;
    assert more + [last.(id := x)] == [l] + (links + [last.(id := x)]);
    RenderCons(l, links + [last.(id := x)]);
    assert ValidLinks(more) && RenderLink(l) + text == RenderLinks(more + [last.(id := x)]);
  }

  lemma {:induction false} InsideLinks(links: seq<Link>, q: nat) returns (k: nat)
    requires ValidLinks(links) && q < |RenderLinks(links)|
    requires StartsVerb(RenderLinks(links)[q])
    requires q + 1 < |RenderLinks(links)| ==> FollowsStart(RenderLinks(links)[q + 1])
    ensures CutLinks(RenderLinks(links)[..q]) || (k < |links| && links[k].again.Repeated? && q == AgainOffset(links, k))
  {
    hide StartsVerb, FollowsStart, RenderLink, RenderSep, CutLinks, ValidLink;
    var head, rest := RenderLink(links[0]), RenderLinks(links[1..]);
    assert RenderLinks(links) == head + rest;
    if q < |head| {
      assert RenderLinks(links)[q] == head[q] && (q + 1 < |head| ==> RenderLinks(links)[q + 1] == head[q + 1]);
      assert RenderLinks(links)[..q] == head[..q];
      InsideLink(links[0], q);
      k := 0;
    } else {
      assert RenderLinks(links)[q] == rest[q - |head|];
      assert q + 1 < |RenderLinks(links)| ==> RenderLinks(links)[q + 1] == rest[q + 1 - |head|];
      assert RenderLinks(links)[..q] == head + rest[..q - |head|];
      var j := InsideLinks(links[1..], q - |head|);
      if CutLinks(rest[..q - |head|]) { CutLinksCons(links[0], rest[..q - |head|]); }
      k := j + 1;
    }
  }

  lemma HeadLetter(v: string, g: string, x: string, d: nat)
    requires d < |v + g + x|
    ensures (v + g + x)[d] == if d < |v| then v[d] else if d < |v| + |g| then g[d - |v|] else x[d - |v| - |g|]
  {
  }

  lemma {:induction false} InsideHead(ch: Chain, d: nat)
    requires ValidChain(ch) && 0 < d < |ch.verb + ch.gap + ch.first|
    requires var s := ch.verb + ch.gap + ch.first; StartsVerb(s[d]) && (d + 1 < |s| ==> FollowsStart(s[d + 1]))
    ensures CutChain((ch.verb + ch.gap + ch.first)[..d])
  {
    var s := ch.verb + ch.gap + ch.first;
    var n := |ch.verb| + |ch.gap|;
    HeadLetter(ch.verb, ch.gap, ch.first, d);
    if d < |ch.verb| {
      VerbStartsOnce(ch.verb, d);
    } else if d >= n {
      var o := d - n;
      assert o + 1 < |ch.first| ==> s[d + 1] == ch.first[o + 1];
      VerbOnlyInIdBody(ch.first, o);
      var c0 := ch.(links := []);
      assert s[..d] == Render(WithLastId(c0, ch.first[..o]));
    }
  }

  lemma {:induction false} CutLinksOfChain(ch: Chain, text: string)
    requires ValidChain(ch) && CutLinks(text)
    ensures CutChain(ch.verb + ch.gap + ch.first + text)
  {
    hide ValidLink, OpenId, RenderLinks;
    var links, l, x :| ValidLinks(links) && ValidLink(l) && OpenId(x) && text == RenderLinks(links + [l.(id := x)]);
    var c0 := ch.(links := links + [l]);
    assert c0.links[..|links|] == links;
    assert WithLastId(c0, x) == ch.(links := links + [l.(id := x)]);
  }

  lemma {:induction false} LinksSuffix(links: seq<Link>, k: nat)
    requires k < |links|
    ensures AgainOffset(links, k) <= |RenderLinks(links)|
    ensures RenderLinks(links)[AgainOffset(links, k)..] ==
            RenderAgain(links[k].again) + links[k].id + RenderLinks(links[k + 1..])
  {
    hide RenderSep, RenderAgain;
    var l, rest := links[0], RenderLinks(links[1..]);
    if k == 0 {
      assert RenderLinks(links) == RenderSep(l.sep) + (RenderAgain(l.again) + l.id + rest);
    } else {
      LinksSuffix(links[1..], k - 1);
      var o := AgainOffset(links[1..], k - 1);
      assert (RenderLink(l) + rest)[|RenderLink(l)| + o..] == rest[o..];
      assert links[1..][k..] == links[k + 1..];
    }
  }

  lemma {:induction false} LinkIdsSuffix(links: seq<Link>, k: nat, id: string)
    requires k < |links| && id in [links[k].id] + LinkIds(links[k + 1..])
    ensures id in LinkIds(links)
  {
    if k > 0 {
      assert links[1..][k..] == links[k + 1..];
      LinkIdsSuffix(links[1..], k - 1, id);
    }
  }

  /** Where a closing verb can start inside a chain's text: in the body of an id, so that the
      text before it is a cut chain, or where the chain repeats its verb, and then a chain
      over the remaining ids starts there. */
  lemma {:induction false} InsideChain(ch: Chain, d: nat) returns (inner: Chain)
    requires ValidChain(ch) && 0 < d < |Render(ch)| && StartsVerb(Render(ch)[d])
    requires d + 1 < |Render(ch)| ==> FollowsStart(Render(ch)[d + 1])
    ensures CutChain(Render(ch)[..d]) ||
            (Render(ch)[d..] == Render(inner) && !IsWord(Render(ch)[d - 1]) && IsVerb(inner.verb) &&
             (inner.verb[|inner.verb| - 1] != LONG_S ==> ValidChain(inner)) &&
             forall id :: id in ChainIds(inner) ==> id in ChainIds(ch))
  {
    hide StartsVerb, FollowsStart, RenderLink, IsVerb, IsGap, AgainOffset, CutChain, CutLinks, IsWord;
    inner := ch;
    var head, tail := ch.verb + ch.gap + ch.first, RenderLinks(ch.links);
    assert Render(ch) == head + tail;
    if d < |head| {
      assert head[d] == Render(ch)[d] && (d + 1 < |head| ==> head[d + 1] == Render(ch)[d + 1]);
      assert Render(ch)[..d] == head[..d];
      InsideHead(ch, d);
    } else {
      var q := d - |head|;
      assert tail[q] == Render(ch)[d] && (q + 1 < |tail| ==> tail[q + 1] == Render(ch)[d + 1]);
      assert Render(ch)[..d] == head + tail[..q];
      var k := InsideLinks(ch.links, q);
      if CutLinks(tail[..q]) {
        CutLinksOfChain(ch, tail[..q]);
      } else {
        LinksSuffix(ch.links, k);
        BeforeRepeat(ch.links, k);
        var l := ch.links[k];
        inner := Chain(l.again.verb, l.again.gap, l.id, ch.links[k + 1..]);
        assert Render(ch)[d..] == tail[q..];
        assert Render(ch)[d - 1] == tail[q - 1];
        forall id | id in ChainIds(inner) ensures id in ChainIds(ch) {
          LinkIdsSuffix(ch.links, k, id);
        }
      }
    }
  }

  /** A repeated verb follows a comma or white space. */
  lemma {:induction false} BeforeRepeat(links: seq<Link>, k: nat)
    requires k < |links| && ValidLinks(links)
    ensures 0 < AgainOffset(links, k) <= |RenderLinks(links)| && !IsWord(RenderLinks(links)[AgainOffset(links, k) - 1])
  {
    hide IsWord, RenderAgain, RenderSep, RenderLinks, ValidLink;
    var head, rest := RenderLink(links[0]), RenderLinks(links[1..]);
    LinksText(links);
    LinkEnds(links[0]);
    if k == 0 {
      var o := |RenderSep(links[0].sep)|;
      assert (head + rest)[o - 1] == head[o - 1];
    } else {
      BeforeRepeat(links[1..], k - 1);
      var o := AgainOffset(links[1..], k - 1);
      assert (head + rest)[|head| + o - 1] == rest[o - 1];
    }
  }

  lemma LinksText(links: seq<Link>)
    requires links != []
    ensures RenderLinks(links) == RenderLink(links[0]) + RenderLinks(links[1..])
  {
  }

  lemma SepEnd(p: Sep)
    requires IsSep(p)
    ensures RenderSep(p) != [] && !IsWord(RenderSep(p)[|RenderSep(p)| - 1])
  {
  }

  lemma LinkEnds(l: Link)
    requires ValidLink(l)
    ensures 0 < |RenderSep(l.sep)| <= |RenderLink(l)| && !IsWord(RenderLink(l)[|RenderSep(l.sep)| - 1])
  {
    hide IsWord, RenderAgain, RenderSep;
    SepEnd(l.sep);
  }

  // The places of the clauses found.

  datatype Span = Span(from: nat, to: nat)

  function Spans(prev: string, s: string): seq<Span>
    decreases |s|
  {
    if s == [] then []
    else
      var n := ClauseLen(prev, s);
      if n > 0 then [Span(|prev|, |prev| + n)] + Spans(prev + s[..n], s[n..])
      else Spans(prev + [s[0]], s[1..])
  }

  /** A clause the search finds contains this part of the body. */
  ghost predicate Covered(body: string, from: nat, to: nat) {
    exists sp :: sp in Spans("", body) && sp.from <= from && to <= sp.to
  }

  /** How far one step of the clause search moves. */
  function Advance(prev: string, s: string): (m: nat)
    requires s != []
    ensures 0 < m <= |s|
  {
    var n := ClauseLen(prev, s);
    if n > 0 then n else 1
  }

  lemma SpansStep(prev: string, s: string)
    requires s != []
    ensures var n, m := ClauseLen(prev, s), Advance(prev, s);
            Spans(prev, s) == (if n > 0 then [Span(|prev|, |prev| + n)] else []) + Spans(prev + s[..m], s[m..])
  {
    hide ClauseLen;
    assert s[..1] == [s[0]];
  }

  lemma {:induction false} SpansAreClauses(prev: string, s: string)
    ensures |Spans(prev, s)| == |FindClauses(prev, s)|
    ensures forall k :: 0 <= k < |Spans(prev, s)| ==>
              var sp := Spans(prev, s)[k];
              |prev| <= sp.from <= sp.to <= |prev| + |s| && FindClauses(prev, s)[k] == (prev + s)[sp.from..sp.to]
    decreases |s|
  {
    hide ClauseLen;
    if s != [] {
      var m := Advance(prev, s);
      assert s[..1] == [s[0]];
      SpansAreClauses(prev + s[..m], s[m..]);
      Regroup(prev, s, m);
      if ClauseLen(prev, s) > 0 {
        assert (prev + s)[|prev|..|prev| + m] == s[..m];
      }
    }
  }

  /** A clause is as long as the matcher says at its place. */
  lemma {:induction false} SpanIsMatch(prev: string, s: string, sp: Span)
    requires sp in Spans(prev, s)
    ensures |prev| <= sp.from < sp.to <= |prev + s|
    ensures sp.to - sp.from == ClauseLen((prev + s)[..sp.from], (prev + s)[sp.from..])
    decreases |s|
  {
    hide ClauseLen;
    var m := Advance(prev, s);
    SpansStep(prev, s);
    Regroup(prev, s, m);
    assert (prev + s)[..|prev|] == prev && (prev + s)[|prev|..] == s;
    if sp in Spans(prev + s[..m], s[m..]) {
      SpanIsMatch(prev + s[..m], s[m..], sp);
    }
  }

  /** Clauses do not overlap. */
  lemma {:induction false} OneSpan(prev: string, s: string, a: Span, b: Span, p: nat)
    requires a in Spans(prev, s) && b in Spans(prev, s) && a.from <= p < a.to && b.from <= p < b.to
    ensures a == b
    decreases |s|
  {
    hide ClauseLen;
    var m := Advance(prev, s);
    SpansStep(prev, s);
    var rest := Spans(prev + s[..m], s[m..]);
    if a in rest { SpanIsMatch(prev + s[..m], s[m..], a); }
    if b in rest { SpanIsMatch(prev + s[..m], s[m..], b); }
    if a in rest && b in rest { OneSpan(prev + s[..m], s[m..], a, b, p); }
  }

  /** The search tries the matcher at every place that is not strictly inside a clause. */
  lemma {:induction false} InsideOrTried(body: string, prev: string, s: string, p: nat)
    requires body == prev + s && |prev| <= p < |body| && ClauseLen(body[..p], body[p..]) > 0
    ensures Span(p, p + ClauseLen(body[..p], body[p..])) in Spans(prev, s) ||
            exists sp :: sp in Spans(prev, s) && sp.from < p < sp.to
    decreases |s|
  {
    hide ClauseLen;
    var m := Advance(prev, s);
    SpansStep(prev, s);
    Regroup(prev, s, m);
    assert body[..|prev|] == prev && body[|prev|..] == s;
    if p >= |prev| + m {
      InsideOrTried(body, prev + s[..m], s[m..], p);
    } else if p > |prev| {
      assert Span(|prev|, |prev| + m) in Spans(prev, s);
    }
  }

  // What happens to a chain that begins inside a clause.

  lemma {:induction false} VerbIsIdText(v: string)
    requires IsVerb(v)
    ensures IsId(ID_PREFIX + v)
  {
    forall i | 0 <= i < |v| ensures IsIdChar(v[i]) {
      if |v| == 6 { assert FoldsTo(v[i], "closes"[i]); }
      else if |v| == 5 { assert FoldsTo(v[i], "fixes"[i]); }
      else { assert FoldsTo(v[i], "resolves"[i]); }
    }
  }

  lemma {:induction false} NoLinkAtId(gap: string, x: string)
    requires IsGap(gap) && x != [] && LowerChar(x[0]) == 'g'
    ensures LinkLen(gap + x) == 0 && IdRun(gap + x) == 0
  {
    SpaceRunOf(gap, x);
    Cat(gap, x);
    assert (gap + x)[0] == gap[0];
  }

  lemma {:induction false} AfterVerb(s: string, ch: Chain)
    requires ValidChain(ch) && HasPrefix(s, Render(ch))
    ensures HasPrefix(s, ch.verb) && LinkLen(s[|ch.verb|..]) == 0 && IdRun(s[|ch.verb|..]) == 0
  {
    hide LinkLen, IdRun;
    var t := s[|Render(ch)|..];
    assert s == Render(ch) + t;
    RenderThen(ch, t);
    var x := ch.first + (RenderLinks(ch.links) + t);
    Cat(ch.verb, ch.gap + x);
    assert x[0] == ch.first[0] && FoldsTo(x[0], ID_PREFIX[0]);
    NoLinkAtId(ch.gap, x);
  }

  /** After a cut chain the verb is read as the rest of the id, and the clause ends there. */
  lemma {:induction false} SwallowedVerb(prev: string, s: string, d: nat, ch: Chain)
    requires AtBoundary(prev) && d <= |s| && CutChain(s[..d]) && ValidChain(ch) && HasPrefix(s[d..], Render(ch))
    ensures ClauseLen(prev, s) == d + |ch.verb|
  {
    hide ClauseLen, CutChain, Render, LinkLen, IdRun;
    AfterVerb(s[d..], ch);
    VerbIsIdText(ch.verb);
    var whole := CutChainCompleted(s[..d], ch.verb);
    var t := s[d..][|ch.verb|..];
    assert s == Render(whole) + t;
    ClauseLenExact(prev, whole, t);
  }

  /** A chain standing inside a found clause: either the clause swallows its verb and ends
      there, or the clause goes on, from the chain's verb on, as a chain over its own ids. */
  lemma {:induction false} InsideSpan(body: string, sp: Span, p: nat, ch: Chain) returns (inner: Chain)
    requires sp in Spans("", body) && sp.from <= p < sp.to <= |body|
    requires ValidChain(ch) && HasPrefix(body[p..], Render(ch))
    ensures AtBoundary(body[..sp.from])
    ensures (sp.from < p && CutChain(body[sp.from..p]) && sp.to == p + |ch.verb|) ||
            (AtBoundary(body[..p]) && ValidChain(inner) && Render(inner) == body[p..sp.to] &&
             LinkLen(body[sp.to..]) == 0 && IdRun(body[sp.to..]) == 0 &&
             forall id :: id in ChainIds(inner) ==> id in FindIds(body[sp.from..sp.to]))
  {
    hide *;
    var outer := SpanChain(body, sp);
    inner := outer;
    Slices(body, sp.from, p, sp.to);
    if sp.from < p {
      inner := InsideOuter(body, sp, p, ch, outer);
    }
  }

  lemma {:induction false} InsideOuter(body: string, sp: Span, p: nat, ch: Chain, outer: Chain) returns (inner: Chain)
    requires sp in Spans("", body) && sp.from < p < sp.to <= |body| && ValidChain(outer) && AtBoundary(body[..sp.from])
    requires Render(outer) == body[sp.from..sp.to] && ValidChain(ch) && HasPrefix(body[p..], Render(ch))
    ensures (CutChain(body[sp.from..p]) && sp.to == p + |ch.verb|) ||
            (AtBoundary(body[..p]) && ValidChain(inner) && Render(inner) == body[p..sp.to] &&
             forall id :: id in ChainIds(inner) ==> id in ChainIds(outer))
  {
    hide *;
    var d := p - sp.from;
    Slices(body, sp.from, p, sp.to);
    InsideText(body[sp.from..], d, outer, ch, body[sp.to..]);
    inner := InsideChain(outer, d);
    if CutChain(body[sp.from..p]) {
      SpanLength(body, sp);
      SwallowedVerb(body[..sp.from], body[sp.from..], d, ch);
    } else {
      BoundaryAfter(body, p);
      InnerIsValid(ch, inner, body[p..], body[sp.to..]);
    }
  }

  lemma WholeBody(body: string, sp: Span)
    requires sp in Spans("", body)
    ensures sp.from < sp.to <= |body|
  {
    hide *;
    assert "" + body == body;
    SpanIsMatch("", body, sp);
  }

  lemma SpanLength(body: string, sp: Span)
    requires sp in Spans("", body) && sp.from <= |body|
    ensures ClauseLen(body[..sp.from], body[sp.from..]) == sp.to - sp.from
  {
    hide *;
    assert "" + body == body;
    SpanIsMatch("", body, sp);
  }

  lemma Slices(body: string, from: nat, p: nat, to: nat)
    requires from <= p <= to <= |body|
    ensures body[from..] == body[from..to] + body[to..] && body[p..] == body[p..to] + body[to..]
    ensures body[from..to][..p - from] == body[from..p] == body[from..][..p - from]
    ensures body[from..to][p - from..] == body[p..to] && body[from..][p - from..] == body[p..]
    ensures from < p <= to ==> body[from..to][p - from - 1] == body[p - 1]
    ensures body[from..][..to - from] == body[from..to] && body[from..][to - from..] == body[to..]
  {
  }

  lemma InnerIsValid(ch: Chain, inner: Chain, s: string, t: string)
    requires ValidChain(ch) && IsVerb(inner.verb) && HasPrefix(s, Render(ch)) && s == Render(inner) + t
    requires inner.verb[|inner.verb| - 1] != LONG_S ==> ValidChain(inner)
    ensures ValidChain(inner)
  {
    hide IsVerb, Render, VerbLen;
    Cat(Render(inner), t);
    SameVerb(ch, inner, s);
  }

  lemma ClauseAtBoundary(prev: string, s: string)
    requires ClauseLen(prev, s) > 0
    ensures AtBoundary(prev)
  {
    LeadVerbOfMatch(prev, s);
  }

  lemma BoundaryAfter(body: string, p: nat)
    requires 0 < p <= |body| && !IsWord(body[p - 1])
    ensures AtBoundary(body[..p])
  {
  }

  /** The chain a found clause is. */
  lemma SpanChain(body: string, sp: Span) returns (outer: Chain)
    requires sp in Spans("", body)
    ensures sp.from < sp.to <= |body| && AtBoundary(body[..sp.from])
    ensures ValidChain(outer) && Render(outer) == body[sp.from..sp.to]
    ensures LinkLen(body[sp.to..]) == 0 && IdRun(body[sp.to..]) == 0
    ensures ChainIds(outer) == FindIds(body[sp.from..sp.to])
  {
    hide *;
    WholeBody(body, sp);
    SpanLength(body, sp);
    ClauseAtBoundary(body[..sp.from], body[sp.from..]);
    var t := "";
    outer, t := ClauseThenStop(body[..sp.from], body[sp.from..]);
    Cat(Render(outer), t);
    Slices(body, sp.from, sp.to, sp.to);
  }

  lemma {:induction false} InsideText(s: string, d: nat, outer: Chain, ch: Chain, t: string)
    requires s == Render(outer) + t && 0 < d < |Render(outer)|
    requires ValidChain(ch) && HasPrefix(s[d..], Render(ch))
    ensures StartsVerb(Render(outer)[d]) && (d + 1 < |Render(outer)| ==> FollowsStart(Render(outer)[d + 1]))
  {
    hide StartsVerb, FollowsStart, RenderLinks, VerbLen;
    VerbPrefix(ch, s[d..]);
    VerbSecond(ch.verb);
    assert s[d..][..|ch.verb|][0] == s[d] && s[d..][..|ch.verb|][1] == s[d + 1];
  }

  lemma StandsFacts(body: string, pre: string, ch: Chain)
    requires StandsAt(body, pre, ch)
    ensures pre == body[..|pre|] && HasPrefix(body[|pre|..], Render(ch)) && |pre| + |Render(ch)| <= |body|
  {
    hide Render;
    var p := |pre|;
    assert (pre + Render(ch))[..p] == pre && (pre + Render(ch))[p..] == Render(ch);
    assert body[p..][..|Render(ch)|] == body[..p + |Render(ch)|][p..];
  }

  lemma CoveringSpan(body: string, from: nat, to: nat) returns (sp: Span)
    requires Covered(body, from, to)
    ensures sp in Spans("", body) && sp.from <= from && to <= sp.to <= |body|
  {
    hide Spans, ClauseLen;
    assert "" + body == body;
    sp :| sp in Spans("", body) && sp.from <= from && to <= sp.to;
    SpanIsMatch("", body, sp);
  }

  lemma {:induction false} VisibleIsCovered(body: string, pre: string, ch: Chain)
    requires ValidChain(ch) && StandsAt(body, pre, ch) && Visible(pre)
    ensures Covered(body, |pre|, |pre| + |Render(ch)|)
    decreases |pre|, 1
  {
    hide *;
    StandsFacts(body, pre, ch);
    RenderSome(ch);
    var p := |pre|;
    if sp :| sp in Spans("", body) && sp.from < p < sp.to {
      SpanStartIsVisible(body, sp);
      Slices(body, sp.from, p, sp.to);
      assert pre[..sp.from] == body[..sp.from] && pre[sp.from..] == body[sp.from..p];
      NotSwallowed(pre, sp.from);
      var inner := InsideSpan(body, sp, p, ch);
      ClauseLenExact(pre, inner, body[sp.to..]);
      LongestAtPlace(pre, body[p..], ch);
      CoveredBy(body, sp, p, p + |Render(ch)|);
    } else {
      LongestAtPlace(pre, body[p..], ch);
      VisibleAtBoundary(pre);
      TriedAt(body, p);
      var sp := Span(p, p + ClauseLen(pre, body[p..]));
      CoveredBy(body, sp, p, p + |Render(ch)|);
    }
  }

  lemma NotSwallowed(pre: string, j: nat)
    requires Visible(pre) && j < |pre| && Visible(pre[..j])
    ensures !CutChain(pre[j..]) && AtBoundary(pre)
  {
    hide CutChain;
  }

  lemma VisibleAtBoundary(pre: string)
    requires Visible(pre)
    ensures AtBoundary(pre)
  {
  }

  lemma LongestAtPlace(pre: string, s: string, ch: Chain)
    requires ValidChain(ch) && HasPrefix(s, Render(ch))
    ensures AtBoundary(pre) ==> |Render(ch)| <= ClauseLen(pre, s)
  {
    hide ClauseLen, Render;
    ClauseIsLongestChain(pre, s);
  }

  lemma CoveredBy(body: string, sp: Span, from: nat, to: nat)
    requires sp in Spans("", body) && sp.from <= from && to <= sp.to
    ensures Covered(body, from, to)
  {
    hide Spans;
  }

  lemma TriedAt(body: string, p: nat)
    requires p < |body| && ClauseLen(body[..p], body[p..]) > 0
    requires forall sp :: sp in Spans("", body) ==> !(sp.from < p < sp.to)
    ensures Span(p, p + ClauseLen(body[..p], body[p..])) in Spans("", body)
  {
    hide *;
    assert body == "" + body;
    InsideOrTried(body, "", body, p);
  }

  /** Every found clause starts at a visible place. */
  lemma {:induction false} SpanStartIsVisible(body: string, sp: Span)
    requires sp in Spans("", body)
    ensures sp.from <= sp.to <= |body| && Visible(body[..sp.from])
    decreases sp.from, 3
  {
    hide Render, ClauseLen, CutChain, Spans, Visible;
    assert "" + body == body;
    SpanIsMatch("", body, sp);
    var prev := body[..sp.from];
    var outer := ParseChain(prev, body[sp.from..]);
    assert body[..sp.to] == prev + Render(outer);
    CoveredIsVisible(body, prev, outer);
  }

  /** If a cut chain starts at a visible place and ends here, the clause found there ends with
      the verb that stands here. */
  lemma {:induction false} SwallowingSpan(body: string, pre: string, j: nat, ch: Chain) returns (sp: Span)
    requires ValidChain(ch) && StandsAt(body, pre, ch) && j < |pre| && Visible(pre[..j]) && CutChain(pre[j..])
    ensures sp in Spans("", body) && sp.from <= j && sp.to == |pre| + |ch.verb|
    decreases |pre|, 0
  {
    hide *;
    var p := |pre|;
    StandsFacts(body, pre, ch);
    RenderSome(ch);
    var whole := CutWithVerb(pre, j, ch);
    StandsFromCut(body, pre, j, ch, whole);
    VisibleIsCovered(body, pre[..j], whole);
    RenderSome(whole);
    sp := CoveringSpan(body, j, p + |ch.verb|);
    StandsFacts(body, pre[..j], whole);
    var inner := InsideSpan(body, sp, j, whole);
    Slices(body, j, p, |body|);
    Slices(body, j, j, sp.to);
    ClauseLenExact(pre[..j], inner, body[sp.to..]);
    VisibleAtBoundary(pre[..j]);
    assert body[j..p] == pre[j..];
    SwallowedVerb(pre[..j], body[j..], p - j, ch);
  }

  lemma CutWithVerb(pre: string, j: nat, ch: Chain) returns (whole: Chain)
    requires j <= |pre| && CutChain(pre[j..]) && ValidChain(ch)
    ensures ValidChain(whole) && Render(whole) == pre[j..] + ch.verb
  {
    hide CutChain, Render;
    VerbIsIdText(ch.verb);
    whole := CutChainCompleted(pre[j..], ch.verb);
  }

  lemma StandsFromCut(body: string, pre: string, j: nat, ch: Chain, whole: Chain)
    requires StandsAt(body, pre, ch) && ValidChain(ch) && j <= |pre| && Render(whole) == pre[j..] + ch.verb
    ensures StandsAt(body, pre[..j], whole)
  {
    hide Render, LinkLen, IdRun, IsVerb;
    StandsFacts(body, pre, ch);
    AfterVerb(body[|pre|..], ch);
    assert body[|pre|..][..|ch.verb|] == ch.verb;
    assert body[..|pre| + |ch.verb|] == pre[..j] + Render(whole);
  }

  lemma {:induction false} CoveredIsVisible(body: string, pre: string, ch: Chain)
    requires ValidChain(ch) && StandsAt(body, pre, ch) && Covered(body, |pre|, |pre| + |Render(ch)|)
    ensures Visible(pre)
    decreases |pre|, 2
  {
    hide Render, ClauseLen, CutChain, Spans, LinkLen, IdRun, FindIds, Covered;
    var p := |pre|;
    StandsFacts(body, pre, ch);
    RenderSome(ch);
    var sp := CoveringSpan(body, p, p + |Render(ch)|);
    var inner := InsideSpan(body, sp, p, ch);
    assert AtBoundary(pre);
    forall j | 0 <= j < |pre| && Visible(pre[..j]) ensures !CutChain(pre[j..]) {
      if CutChain(pre[j..]) {
        var other := SwallowingSpan(body, pre, j, ch);
        OneSpan("", body, sp, other, p);
        assert false;
      }
    }
  }

  /** The exact condition: a closing chain that stands in the body lies within a clause the
      search finds if and only if its place is visible. */
  lemma {:induction false} VisibleIffCovered(body: string, pre: string, ch: Chain)
    requires ValidChain(ch) && StandsAt(body, pre, ch)
    ensures Covered(body, |pre|, |pre| + |Render(ch)|) <==> Visible(pre)
  {
    hide Render, Covered, Visible;
    if Visible(pre) {
      VisibleIsCovered(body, pre, ch);
    }
    if Covered(body, |pre|, |pre| + |Render(ch)|) {
      CoveredIsVisible(body, pre, ch);
    }
  }

  /** At a word boundary, a chain's place is not visible if and only if a clause that begins
      earlier ends with the chain's verb: the search reads the verb as the end of an id. */
  lemma {:induction false} HiddenIffSwallowed(body: string, pre: string, ch: Chain)
    requires ValidChain(ch) && StandsAt(body, pre, ch) && AtBoundary(pre)
    ensures !Visible(pre) <==> exists sp :: sp in Spans("", body) && sp.from < |pre| && sp.to == |pre| + |ch.verb|
  {
    hide Render, ClauseLen, CutChain, Spans, Covered;
    RenderSome(ch);
    if !Visible(pre) {
      var j :| 0 <= j < |pre| && Visible(pre[..j]) && CutChain(pre[j..]);
      var sp := SwallowingSpan(body, pre, j, ch);
    } else {
      VisibleIsCovered(body, pre, ch);
      var cover := CoveringSpan(body, |pre|, |pre| + |Render(ch)|);
      forall sp | sp in Spans("", body) && sp.from < |pre| ensures sp.to != |pre| + |ch.verb| {
        if sp.to == |pre| + |ch.verb| {
          OneSpan("", body, sp, cover, |pre|);
          assert false;
        }
      }
    }
  }

  // Completeness.

  lemma {:induction false} InnerIds(pre: string, inner: Chain, ch: Chain, t: string)
    requires ValidChain(inner) && ValidChain(ch) && HasPrefix(Render(inner) + t, Render(ch)) && AtBoundary(pre)
    requires LinkLen(t) == 0 && IdRun(t) == 0 && IdRun((Render(inner) + t)[|Render(ch)|..]) == 0
    ensures forall id :: id in ChainIds(ch) ==> id in ChainIds(inner)
  {
    ClauseLenExact(pre, inner, t);
    ClauseIsLongestChain(pre, Render(inner) + t);
    var r := PrefixRemainder(Render(inner), t, Render(ch));
    PrefixChainIds(ch, r, inner);
  }

  lemma {:induction false} SpanIds(body: string, sp: Span, id: string)
    requires sp in Spans("", body) && sp.from <= sp.to <= |body| && id in FindIds(body[sp.from..sp.to])
    ensures id in CitedIds(body)
  {
    hide Spans, FindClauses, FindIds;
    assert "" + body == body;
    SpansAreClauses("", body);
    var k :| 0 <= k < |Spans("", body)| && Spans("", body)[k] == sp;
    IdsInHas(FindClauses("", body), k, id);
  }

  lemma {:induction false} IdsInHas(clauses: seq<string>, k: nat, id: string)
    requires k < |clauses| && id in FindIds(clauses[k])
    ensures id in IdsIn(clauses)
  {
    hide FindIds;
    if k > 0 {
      IdsInHas(clauses[1..], k - 1, id);
    }
  }

  /** Completeness: every id of a closing chain that stands at a visible place of the body is
      extracted, provided its last id is not cut short. */
  lemma {:induction false} ExtractionComplete(body: string, pre: string, ch: Chain)
    requires ValidChain(ch) && StandsAt(body, pre, ch) && Visible(pre)
    requires IdRun(body[|pre| + |Render(ch)|..]) == 0
    ensures forall id :: id in ChainIds(ch) ==> id in CitedIds(body)
  {
    hide Render, CutChain, Spans, LinkLen, IdRun, FindIds, Covered, CitedIds, ChainIds;
    var p := |pre|;
    StandsFacts(body, pre, ch);
    RenderSome(ch);
    VisibleIsCovered(body, pre, ch);
    var sp := CoveringSpan(body, p, p + |Render(ch)|);
    var inner := InsideSpan(body, sp, p, ch);
    assert body[p..] == Render(inner) + body[sp.to..];
    assert body[p..][|Render(ch)|..] == body[p + |Render(ch)|..];
    InnerIds(pre, inner, ch, body[sp.to..]);
    forall id | id in ChainIds(ch) ensures id in CitedIds(body) {
      SpanIds(body, sp, id);
    }
  }

  /** A family of hidden trailers. An id whose body is a closing verb hides the trailer that
      begins at that verb: the trailer stands at a word boundary and ends with the body, yet
      only the hiding id is extracted. */
  lemma {:induction false} HiddenTrailer(outerVerb: string, gap: string, ch: Chain)
    requires ValidChain(ch) && ch.links == []
    requires IsVerb(outerVerb) && outerVerb[|outerVerb| - 1] != LONG_S && IsGap(gap)
    ensures var hiding := ID_PREFIX + ch.verb;
            var pre := outerVerb + gap + ID_PREFIX;
            !IsWord(pre[|pre| - 1]) && StandsAt(pre + Render(ch), pre, ch) &&
            CitedIds(pre + Render(ch)) == [hiding]
  {
    var outer := Chain(outerVerb, gap, ID_PREFIX + ch.verb, []);
    VerbIsIdText(ch.verb);
    HiddenRegroup(outerVerb, gap, ch);
    assert FoldsTo(ch.first[0], ID_PREFIX[0]);
    NoLinkAtId(ch.gap, ch.first);
    NoClauseInGap(Render(outer), ch.gap, ch.first);
    LoneChainThen(outer, ch.gap + ch.first);
  }

  lemma {:induction false} HiddenRegroup(outerVerb: string, gap: string, ch: Chain)
    requires ch.links == []
    ensures outerVerb + gap + ID_PREFIX + Render(ch) ==
            Render(Chain(outerVerb, gap, ID_PREFIX + ch.verb, [])) + (ch.gap + ch.first)
  {
  }

  lemma {:induction false} NoClauseInGap(prev: string, g: string, x: string)
    requires AllSpace(g) && IsId(x)
    ensures FindClauses(prev, g + x) == []
    decreases |g|
  {
    forall i | 0 <= i < |x| ensures !IsSpace(x[i]) {
      if i < |ID_PREFIX| { assert FoldsTo(x[i], ID_PREFIX[i]); }
    }
    if g == [] {
      assert g + x == x;
      NoClauseInWord(prev, x);
    } else {
      assert (g + x)[0] == g[0] && (g + x)[1..] == g[1..] + x;
      assert VerbLen(g + x) == 0;
      NoClauseInGap(prev + [g[0]], g[1..], x);
    }
  }

  lemma {:induction false} NoClauseInWord(prev: string, x: string)
    requires forall i :: 0 <= i < |x| ==> !IsSpace(x[i])
    ensures FindClauses(prev, x) == []
    decreases |x|
  {
    if x != [] {
      var u := x[VerbLen(x)..];
      assert u != [] ==> u[0] == x[VerbLen(x)];
      assert ClauseLen(prev, x) == 0;
      NoClauseInWord(prev + [x[0]], x[1..]);
    }
  }
}
