/** cmd/bdaudit/trailers.go: the two regular expressions that find closing trailers,
    written out as matchers, and the grammar of closing chains they accept.

    RE2's `(?i)` folds KELVIN SIGN with `k` and LATIN SMALL LETTER LONG S with `s`;
    `\s`, `\b` and the word characters are ASCII. */
module TrailerGrammar {
  import opened Text

  // Matching one piece of the pattern.

  const LONG_S: char := '\U{17F}'
  const ID_PREFIX: string := "gopherstack-"

  /** Under `(?i)`, does `c` match the lower-case pattern character `l`? */
  predicate FoldsTo(c: char, l: char) {
    LowerChar(c) == l || (l == 's' && c == LONG_S)
  }

  predicate MatchesFold(s: string, lit: string) {
    |lit| <= |s| && forall i :: 0 <= i < |lit| ==> FoldsTo(s[i], lit[i])
  }

  /** `c` is pattern letter `l`, in either case, or the one other character that folds with it. */
  ghost predicate IsLetterOf(c: char, l: char) {
    || c == l
    || ('a' <= l <= 'z' && c == l - ('a' - 'A'))
    || (l == 'k' && c == '\U{212A}')
    || (l == 's' && c == '\U{17F}')
  }

  /** A word of the pattern matches exactly its spellings. */
  lemma MatchesFoldExact(s: string, lit: string)
    requires forall i :: 0 <= i < |lit| ==> 'a' <= lit[i] <= 'z' || lit[i] == '-'
    ensures MatchesFold(s, lit) <==> |lit| <= |s| && forall i :: 0 <= i < |lit| ==> IsLetterOf(s[i], lit[i])
  {
    forall i | 0 <= i < |lit| && i < |s| ensures FoldsTo(s[i], lit[i]) <==> IsLetterOf(s[i], lit[i]) {}
  }

  /** `[0-9a-zA-Z]` under `(?i)`. */
  predicate IsIdChar(c: char) {
    IsDigit(c) || IsLetter(c) || c == '\U{212A}' || c == LONG_S
  }

  lemma IdCharExact(c: char)
    ensures IsIdChar(c) <==>
            InRange(c, 48, 57) || InRange(c, 65, 90) || InRange(c, 97, 122) || c as int == 0x17F || c as int == 0x212A
  {
    AsciiClasses(c);
  }

  /** Length of the longest run of id characters `s` starts with. */
  function IdRun(s: string): (n: nat)
    ensures n <= |s| && (n < |s| ==> !IsIdChar(s[n]))
    ensures forall i :: 0 <= i < n ==> IsIdChar(s[i])
  {
    if s == [] || !IsIdChar(s[0]) then 0 else 1 + IdRun(s[1..])
  }

  function SpaceRun(s: string): (n: nat)
    ensures n <= |s| && (n < |s| ==> !IsSpace(s[n]))
    ensures forall i :: 0 <= i < n ==> IsSpace(s[i])
  {
    if s == [] || !IsSpace(s[0]) then 0 else 1 + SpaceRun(s[1..])
  }

  /** `\b` between the character before `s`, if any, and `s`. */
  predicate Boundary(prev: string, s: string) {
    (prev != [] && IsWord(prev[|prev| - 1])) != (s != [] && IsWord(s[0]))
  }

  /** A verb can follow this text without continuing a word. */
  ghost predicate AtBoundary(prev: string) {
    prev == [] || !IsWord(prev[|prev| - 1])
  }

  // Each function below gives the length its piece matches at the start of `s`,
  // 0 when it does not match (no piece matches the empty text).

  /** `closes|fixes|resolves` */
  function VerbLen(s: string): (n: nat)
    ensures n <= |s|
  {
    if MatchesFold(s, "closes") then 6
    else if MatchesFold(s, "fixes") then 5
    else if MatchesFold(s, "resolves") then 8
    else 0
  }

  /** `gopherstack-[0-9a-zA-Z]+` */
  function IdLen(s: string): (n: nat)
    ensures n <= |s|
  {
    if MatchesFold(s, ID_PREFIX) && IdRun(s[|ID_PREFIX|..]) > 0
    then |ID_PREFIX| + IdRun(s[|ID_PREFIX|..]) else 0
  }

  /** `,\s*|\s+and\s+` */
  function SepLen(s: string): (n: nat)
    ensures n <= |s|
  {
    if s != [] && s[0] == ',' then 1 + SpaceRun(s[1..])
    else
      var a := SpaceRun(s);
      var m := s[a..];
      if a > 0 && MatchesFold(m, "and") && SpaceRun(m[3..]) > 0
      then a + 3 + SpaceRun(m[3..]) else 0
  }

  /** `(?:closes|fixes|resolves)\s+`, taken when present. */
  function RepeatLen(s: string): (n: nat)
    ensures n <= |s|
  {
    var v := VerbLen(s);
    if v > 0 && SpaceRun(s[v..]) > 0 then v + SpaceRun(s[v..]) else 0
  }

  /** One round of the starred group. */
  function LinkLen(s: string): (n: nat)
    ensures n <= |s|
  {
    var c := SepLen(s);
    if c == 0 then 0
    else
      var u := s[c..];
      var r := RepeatLen(u);
      var i := IdLen(u[r..]);
      if i == 0 then 0 else c + r + i
  }

  /** The starred group, greedily. */
  function TailLen(s: string): (n: nat)
    ensures n <= |s|
  {
    var l := LinkLen(s);
    if l == 0 then 0 else l + TailLen(s[l..])
  }

  /** `trailerClauseRe` anchored at `s`, with `prev` the text before it. */
  function ClauseLen(prev: string, s: string): (n: nat)
    ensures n <= |s|
  {
    var v := VerbLen(s);
    if v == 0 || !Boundary(prev, s) || !Boundary(s[..v], s[v..]) then 0
    else
      var u := s[v..];
      var w := SpaceRun(u);
      var x := u[w..];
      var i := IdLen(x);
      if w == 0 || i == 0 then 0 else v + w + i + TailLen(x[i..])
  }

  /** `trailerClauseRe.FindAllString(body, -1)`, from the point where `prev` is behind. */
  function FindClauses(prev: string, s: string): seq<string>
    decreases |s|
  {
    if s == [] then []
    else
      var n := ClauseLen(prev, s);
      if n > 0 then [s[..n]] + FindClauses(prev + s[..n], s[n..])
      else FindClauses(prev + [s[0]], s[1..])
  }

  /** `idRe.FindAllString(clause, -1)`. */
  function FindIds(s: string): seq<string>
    decreases |s|
  {
    if s == [] then []
    else
      var n := IdLen(s);
      if n > 0 then [s[..n]] + FindIds(s[n..]) else FindIds(s[1..])
  }

  // The declarative grammar of closing chains.

  /** What joins two ids: a comma and optional white space, or "and" between white space. */
  datatype Sep = Comma(after: string) | And(before: string, word: string, after: string)

  /** The verb repeated before an id, or nothing. */
  datatype Again = Once | Repeated(verb: string, gap: string)

  datatype Link = Link(sep: Sep, again: Again, id: string)
  datatype Chain = Chain(verb: string, gap: string, first: string, links: seq<Link>)

  predicate StartsVerb(c: char) {
    var l := LowerChar(c);
    l == 'c' || l == 'f' || l == 'r'
  }

  ghost predicate IsVerb(v: string) {
    (|v| == 6 && MatchesFold(v, "closes")) || (|v| == 5 && MatchesFold(v, "fixes")) ||
    (|v| == 8 && MatchesFold(v, "resolves"))
  }

  ghost predicate AllSpace(g: string) {
    forall i :: 0 <= i < |g| ==> IsSpace(g[i])
  }

  ghost predicate IsGap(g: string) {
    g != [] && AllSpace(g)
  }

  ghost predicate IsId(x: string) {
    |ID_PREFIX| < |x| && MatchesFold(x, ID_PREFIX) && forall i :: |ID_PREFIX| <= i < |x| ==> IsIdChar(x[i])
  }

  ghost predicate IsSep(p: Sep) {
    match p
    case Comma(after) => AllSpace(after)
    case And(before, word, after) => IsGap(before) && |word| == 3 && MatchesFold(word, "and") && IsGap(after)
  }

  ghost predicate IsAgain(r: Again) {
    r.Repeated? ==> IsVerb(r.verb) && IsGap(r.gap)
  }

  ghost predicate ValidLink(l: Link) {
    IsSep(l.sep) && IsAgain(l.again) && IsId(l.id)
  }

  /** Only the leading verb must end in an ASCII `s`: it alone is followed by `\b`. */
  ghost predicate ValidChain(ch: Chain) {
    IsVerb(ch.verb) && ch.verb[|ch.verb| - 1] != LONG_S && IsGap(ch.gap) && IsId(ch.first) &&
    forall k :: 0 <= k < |ch.links| ==> ValidLink(ch.links[k])
  }

  function RenderSep(p: Sep): string {
    match p
    case Comma(after) => "," + after
    case And(before, word, after) => before + (word + after)
  }

  function RenderAgain(r: Again): string {
    match r
    case Once => ""
    case Repeated(verb, gap) => verb + gap
  }

  function RenderLink(l: Link): string {
    RenderSep(l.sep) + RenderAgain(l.again) + l.id
  }

  function RenderLinks(links: seq<Link>): string {
    if links == [] then [] else RenderLink(links[0]) + RenderLinks(links[1..])
  }

  /** The text a chain stands for. */
  function Render(ch: Chain): string {
    ch.verb + ch.gap + ch.first + RenderLinks(ch.links)
  }

  function LinkIds(links: seq<Link>): seq<string> {
    if links == [] then [] else [links[0].id] + LinkIds(links[1..])
  }

  function ChainIds(ch: Chain): seq<string> {
    [ch.first] + LinkIds(ch.links)
  }

  // Exactness of the pieces: what a grammar piece followed by other text matches.

  lemma {:induction false} Cat(a: string, t: string)
    ensures (a + t)[|a|..] == t && (a + t)[..|a|] == a
  {
  }

  lemma {:induction false} SpaceRunOf(g: string, t: string)
    requires AllSpace(g) && (t == [] || !IsSpace(t[0]))
    ensures SpaceRun(g + t) == |g|
  {
    if g == [] {
      assert g + t == t;
    } else {
      assert (g + t)[1..] == g[1..] + t;
      SpaceRunOf(g[1..], t);
    }
  }

  lemma {:induction false} IdRunOf(x: string, t: string)
    requires forall i :: 0 <= i < |x| ==> IsIdChar(x[i])
    ensures IdRun(x + t) == |x| + IdRun(t)
  {
    if x == [] {
      assert x + t == t;
    } else {
      assert (x + t)[1..] == x[1..] + t;
      IdRunOf(x[1..], t);
    }
  }

  lemma {:induction false} IdLenOf(x: string, t: string)
    requires IsId(x)
    ensures IdLen(x + t) == |x| + IdRun(t)
  {
    assert (x + t)[|ID_PREFIX|..] == x[|ID_PREFIX|..] + t;
    IdRunOf(x[|ID_PREFIX|..], t);
  }

  lemma {:induction false} VerbLenOf(v: string, t: string)
    requires IsVerb(v)
    ensures VerbLen(v + t) == |v|
  {
    assert StartsVerb(v[0]) && (v + t)[0] == v[0];
  }

  /** No verb starts where an id starts: the optional repetition is decided by one character. */
  lemma {:induction false} NoVerbAtId(x: string, t: string)
    requires IsId(x)
    ensures VerbLen(x + t) == 0
  {
    assert LowerChar((x + t)[0]) == 'g';
  }

  lemma {:induction false} AgainThenId(r: Again, x: string, t: string)
    requires IsAgain(r) && IsId(x)
    ensures RepeatLen(RenderAgain(r) + (x + t)) == |RenderAgain(r)|
    ensures !IsSpace((RenderAgain(r) + (x + t))[0])
  {
    hide *;
    match r
    case Once => OnceThenId(x, t);
    case Repeated(verb, gap) =>
      IdStartsWithG(x);
      AgainParts(r);
      assert (x + t)[0] == x[0];
      VerbThenGap(verb, gap, x + t);
  }

  lemma AgainParts(r: Again)
    requires IsAgain(r) && r.Repeated?
    ensures IsVerb(r.verb) && IsGap(r.gap) && RenderAgain(r) == r.verb + r.gap
  {
  }

  lemma OnceThenId(x: string, t: string)
    requires IsId(x)
    ensures RepeatLen(RenderAgain(Once) + (x + t)) == |RenderAgain(Once)|
    ensures !IsSpace((RenderAgain(Once) + (x + t))[0])
  {
    IdStartsWithG(x);
    hide MatchesFold, VerbLen, IsSpace;
    assert RenderAgain(Once) + (x + t) == x + t;
    NoVerbAtId(x, t);
  }

  lemma IdStartsWithG(x: string)
    requires IsId(x)
    ensures x != [] && LowerChar(x[0]) == 'g' && !IsSpace(x[0])
  {
    assert FoldsTo(x[0], ID_PREFIX[0]);
  }

  lemma {:induction false} VerbThenGap(v: string, g: string, w: string)
    requires IsVerb(v) && IsGap(g) && w != [] && !IsSpace(w[0])
    ensures RepeatLen(v + g + w) == |v| + |g| && !IsSpace((v + g + w)[0])
  {
    assert v + g + w == v + (g + w);
    VerbLenOf(v, g + w);
    Cat(v, g + w);
    SpaceRunOf(g, w);
    assert StartsVerb(v[0]);
  }

  lemma {:induction false} AndSepLenOf(a: string, m: string, b: string, t: string)
    requires IsGap(a) && |m| == 3 && MatchesFold(m, "and") && IsGap(b)
    requires t != [] && !IsSpace(t[0])
    ensures SepLen(a + (m + (b + t))) == |a| + 3 + |b|
  {
    var u := m + (b + t);
    assert LowerChar(u[0]) == 'a';
    SpaceRunOf(a, u);
    Cat(a, u);
    assert (a + u)[0] == a[0];
    Cat(m, b + t);
    SpaceRunOf(b, t);
  }

  lemma {:induction false} SepLenOf(p: Sep, t: string)
    requires IsSep(p) && t != [] && !IsSpace(t[0])
    ensures SepLen(RenderSep(p) + t) == |RenderSep(p)|
  {
    match p
    case Comma(after) =>
      SpaceRunOf(after, t);
      assert ("," + after + t)[1..] == after + t;
    case And(before, word, after) =>
      assert before + (word + after) + t == before + (word + (after + t));
      AndSepLenOf(before, word, after, t);
  }

  lemma {:induction false} Assoc4(a: string, b: string, c: string, d: string, t: string)
    ensures a + b + c + d + t == a + (b + (c + (d + t)))
  {
  }

  /** A chain followed by other text, regrouped the way the matcher reads it. */
  lemma {:induction false} RenderThen(ch: Chain, t: string)
    ensures Render(ch) + t == ch.verb + (ch.gap + (ch.first + (RenderLinks(ch.links) + t)))
  {
    Assoc4(ch.verb, ch.gap, ch.first, RenderLinks(ch.links), t);
  }

  lemma {:induction false} RenderLinksThen(links: seq<Link>, t: string)
    requires links != []
    ensures RenderLinks(links) + t == RenderLink(links[0]) + (RenderLinks(links[1..]) + t)
  {
  }

  lemma {:induction false} Assoc(a: string, b: string, c: string, t: string)
    ensures a + b + c + t == a + (b + (c + t))
  {
  }

  lemma {:induction false} LinkLenByParts(a: string, b: string, w: string)
    requires a != [] && SepLen(a + (b + w)) == |a| && RepeatLen(b + w) == |b| && IdLen(w) > 0
    ensures LinkLen(a + (b + w)) == |a| + |b| + IdLen(w)
  {
    Cat(a, b + w);
    Cat(b, w);
  }

  lemma {:induction false} LinkLenOf(l: Link, t: string)
    requires ValidLink(l)
    ensures LinkLen(RenderLink(l) + t) == |RenderLink(l)| + IdRun(t)
  {
    var w := l.id + t;
    Assoc(RenderSep(l.sep), RenderAgain(l.again), l.id, t);
    AgainThenId(l.again, l.id, t);
    SepLenOf(l.sep, RenderAgain(l.again) + w);
    SepStart(l.sep);
    IdLenOf(l.id, t);
    LinkLenByParts(RenderSep(l.sep), RenderAgain(l.again), w);
  }

  lemma {:induction false} SepStart(p: Sep)
    requires IsSep(p)
    ensures RenderSep(p) != [] && (RenderSep(p)[0] == ',' || IsSpace(RenderSep(p)[0]))
  {
  }

  lemma {:induction false} LinksStart(links: seq<Link>, t: string)
    requires links != [] && ValidLink(links[0])
    ensures RenderLinks(links) + t != [] && IdRun(RenderLinks(links) + t) == 0
  {
    SepStart(links[0].sep);
    assert (RenderLinks(links) + t)[0] == RenderSep(links[0].sep)[0];
  }

  lemma {:induction false} TailLenCovers(links: seq<Link>, t: string)
    requires forall k :: 0 <= k < |links| ==> ValidLink(links[k])
    ensures TailLen(RenderLinks(links) + t) >= |RenderLinks(links)|
  {
    hide LinkLen, IdRun, RenderLink, ValidLink;
    if links != [] {
      var head, rest := RenderLink(links[0]), RenderLinks(links[1..]) + t;
      RenderLinksThen(links, t);
      LinkLenOf(links[0], rest);
      if |links| > 1 {
        LinksStart(links[1..], t);
        TailLenCovers(links[1..], t);
        Cat(head, rest);
      }
    }
  }

  /** The matcher never stops short of a chain the grammar reads at the same place. */
  lemma {:induction false} ClauseLenCovers(prev: string, ch: Chain, t: string)
    requires ValidChain(ch) && AtBoundary(prev)
    ensures ClauseLen(prev, Render(ch) + t) >= |Render(ch)|
  {
    var rest := RenderLinks(ch.links) + t;
    var x := ch.first + rest;
    RenderThen(ch, t);
    FirstIdLen(ch, t);
    LeadVerb(prev, ch.verb, ch.gap + x);
    assert LowerChar(x[0]) == 'g' by { assert x[0] == ch.first[0]; }
    SpaceRunOf(ch.gap, x);
    ClauseLenByParts(prev, ch.verb, ch.gap, x);
  }

  lemma {:induction false} FirstIdLen(ch: Chain, t: string)
    requires ValidChain(ch)
    ensures var x := ch.first + (RenderLinks(ch.links) + t);
            IdLen(x) > 0 && IdLen(x) + TailLen(x[IdLen(x)..]) >= |ch.first| + |RenderLinks(ch.links)|
  {
    var rest := RenderLinks(ch.links) + t;
    IdLenOf(ch.first, rest);
    if ch.links != [] {
      LinksStart(ch.links, t);
      Cat(ch.first, rest);
      TailLenCovers(ch.links, t);
    }
  }

  lemma {:induction false} ClauseLenByParts(prev: string, v: string, g: string, x: string)
    requires v != [] && g != [] && VerbLen(v + (g + x)) == |v| && SpaceRun(g + x) == |g| && IdLen(x) > 0
    requires Boundary(prev, v + (g + x)) && Boundary((v + (g + x))[..|v|], (v + (g + x))[|v|..])
    ensures ClauseLen(prev, v + (g + x)) == |v| + |g| + IdLen(x) + TailLen(x[IdLen(x)..])
  {
    Cat(v, g + x);
    Cat(g, x);
  }

  lemma {:induction false} LeadVerb(prev: string, v: string, u: string)
    requires IsVerb(v) && v[|v| - 1] != LONG_S && AtBoundary(prev)
    requires u != [] && IsSpace(u[0])
    ensures VerbLen(v + u) == |v| && Boundary(prev, v + u) && Boundary((v + u)[..|v|], (v + u)[|v|..])
  {
    VerbLenOf(v, u);
    Cat(v, u);
    assert StartsVerb((v + u)[0]) by { assert (v + u)[0] == v[0]; }
    assert LowerChar(v[|v| - 1]) == 's';
  }

  // Conversely, whatever is matched is a chain.

  lemma {:induction false} VerbOfMatch(s: string)
    requires VerbLen(s) > 0
    ensures IsVerb(s[..VerbLen(s)])
  {
  }

  lemma {:induction false} IdOfMatch(s: string)
    requires IdLen(s) > 0
    ensures IsId(s[..IdLen(s)])
  {
    var n := IdLen(s);
    forall i | |ID_PREFIX| <= i < n ensures IsIdChar(s[..n][i]) {
      assert s[i] == s[|ID_PREFIX|..][i - |ID_PREFIX|];
    }
  }

  ghost function ParseSep(s: string): Sep
    requires SepLen(s) > 0
  {
    if s[0] == ',' then Comma(s[1..][..SpaceRun(s[1..])])
    else
      var a := SpaceRun(s);
      var m := s[a..];
      And(s[..a], m[..3], m[3..][..SpaceRun(m[3..])])
  }

  lemma {:induction false} SepOfMatch(s: string)
    requires SepLen(s) > 0
    ensures IsSep(ParseSep(s)) && RenderSep(ParseSep(s)) == s[..SepLen(s)]
  {
    hide MatchesFold, IsSpace;
    if s[0] == ',' {
      Take2(s, 1, SpaceRun(s[1..]));
    } else {
      var a := SpaceRun(s);
      AndWord(s[a..]);
      Take3(s, a, 3, SpaceRun(s[a..][3..]));
    }
  }

  lemma AndWord(m: string)
    requires MatchesFold(m, "and")
    ensures |m| >= 3 && MatchesFold(m[..3], "and")
  {
  }

  ghost function ParseAgain(s: string): Again {
    var v := VerbLen(s);
    if RepeatLen(s) == 0 then Once else Repeated(s[..v], s[v..][..SpaceRun(s[v..])])
  }

  lemma {:induction false} AgainOfMatch(s: string)
    ensures IsAgain(ParseAgain(s)) && RenderAgain(ParseAgain(s)) == s[..RepeatLen(s)]
  {
    if RepeatLen(s) > 0 {
      var v := VerbLen(s);
      VerbOfMatch(s);
      Take2(s, v, SpaceRun(s[v..]));
    }
  }

  ghost function ParseLink(s: string): Link
    requires LinkLen(s) > 0
  {
    var u := s[SepLen(s)..];
    var w := u[RepeatLen(u)..];
    Link(ParseSep(s), ParseAgain(u), w[..IdLen(w)])
  }

  lemma {:induction false} LinkOfMatch(s: string)
    requires LinkLen(s) > 0
    ensures ValidLink(ParseLink(s)) && RenderLink(ParseLink(s)) == s[..LinkLen(s)]
  {
    hide SepLen, RepeatLen, IdLen, ParseSep, ParseAgain, RenderSep, RenderAgain, IsSep, IsAgain, IsId;
    var u := s[SepLen(s)..];
    var w := u[RepeatLen(u)..];
    SepOfMatch(s);
    AgainOfMatch(u);
    IdOfMatch(w);
    Take3(s, SepLen(s), RepeatLen(u), IdLen(w));
  }

  lemma {:induction false} Take2(s: string, a: nat, b: nat)
    requires a + b <= |s|
    ensures s[..a + b] == s[..a] + s[a..][..b]
  {
  }

  lemma {:induction false} Take3(s: string, a: nat, b: nat, c: nat)
    requires a + b + c <= |s|
    ensures s[..a + b + c] == s[..a] + s[a..][..b] + s[a..][b..][..c]
  {
    Take2(s, a, b + c);
    Take2(s[a..], b, c);
  }

  ghost function ParseLinks(s: string): (ls: seq<Link>)
  {
    var l := LinkLen(s);
    if l == 0 then [] else [ParseLink(s)] + ParseLinks(s[l..])
  }

  lemma {:induction false} ParseLinksRenders(s: string)
    ensures forall k :: 0 <= k < |ParseLinks(s)| ==> ValidLink(ParseLinks(s)[k])
    ensures RenderLinks(ParseLinks(s)) == s[..TailLen(s)]
    decreases |s|
  {
    hide LinkLen, ParseLink, ValidLink, RenderLink;
    var l := LinkLen(s);
    if l > 0 {
      ParseLinksRenders(s[l..]);
      LinkOfMatch(s);
      ParseStep(s, ParseLinks(s[l..]));
    }
  }

  lemma {:induction false} ParseStep(s: string, ls: seq<Link>)
    requires LinkLen(s) > 0 && RenderLinks(ls) == s[LinkLen(s)..][..TailLen(s[LinkLen(s)..])]
    ensures RenderLinks([ParseLink(s)] + ls) == s[..TailLen(s)]
  {
    hide LinkLen, ParseLink, ValidLink, RenderLink;
    LinkOfMatch(s);
    Take2(s, LinkLen(s), TailLen(s[LinkLen(s)..]));
    RenderCons(ParseLink(s), ls);
  }

  lemma {:induction false} RenderCons(l: Link, ls: seq<Link>)
    ensures RenderLinks([l] + ls) == RenderLink(l) + RenderLinks(ls)
  {
    assert ([l] + ls)[1..] == ls;
  }

  lemma {:induction false} ClauseParts(prev: string, s: string) returns (v: nat, w: nat, i: nat, l: nat)
    requires ClauseLen(prev, s) > 0
    ensures v == VerbLen(s) > 0 && w == SpaceRun(s[v..]) > 0 && i == IdLen(s[v..][w..]) > 0
    ensures l == TailLen(s[v..][w..][i..])
    ensures ClauseLen(prev, s) == v + w + i + l
    ensures IsSpace(s[v]) && Boundary(prev, s) && Boundary(s[..v], s[v..])
  {
    v := VerbLen(s);
    w := SpaceRun(s[v..]);
    i := IdLen(s[v..][w..]);
    l := TailLen(s[v..][w..][i..]);
    assert s[v..][0] == s[v];
  }

  lemma {:induction false} ParseChain(prev: string, s: string) returns (ch: Chain)
    requires ClauseLen(prev, s) > 0
    ensures ValidChain(ch) && Render(ch) == s[..ClauseLen(prev, s)]
  {
    hide VerbLen, IdLen, SpaceRun, TailLen, LinkLen, ClauseLen, IdRun, RenderLinks, IsVerb, IsId;
    var v, w, i, l := ClauseParts(prev, s);
    var u := s[v..];
    var x := u[w..];
    LeadVerbOfMatch(prev, s);
    IdOfMatch(x);
    ClauseTextOfParts(s, v, w, i, l);
    ParseLinksRenders(x[i..]);
    ch := Chain(s[..v], u[..w], x[..i], ParseLinks(x[i..]));
    assert IsGap(u[..w]);
  }

  lemma {:induction false} ClauseTextOfParts(s: string, v: nat, w: nat, i: nat, l: nat)
    requires v + w + i + l <= |s|
    ensures s[..v + w + i + l] == s[..v] + s[v..][..w] + s[v..][w..][..i] + s[v..][w..][i..][..l]
  {
    Take3(s, v, w, i + l);
    Take2(s[v..][w..], i, l);
  }

  lemma {:induction false} VerbFirst(s: string)
    requires VerbLen(s) > 0
    ensures s != [] && StartsVerb(s[0])
  {
  }

  lemma {:induction false} LeadVerbOfMatch(prev: string, s: string)
    requires ClauseLen(prev, s) > 0
    ensures IsVerb(s[..VerbLen(s)]) && s[..VerbLen(s)][VerbLen(s) - 1] != LONG_S
    ensures AtBoundary(prev)
  {
    var v, w, i, l := ClauseParts(prev, s);
    VerbFirst(s);
    LeadBoundary(prev, s, v);
    VerbOfMatch(s);
  }

  lemma {:induction false} LeadBoundary(prev: string, s: string, v: nat)
    requires 0 < v < |s| && IsSpace(s[v]) && StartsVerb(s[0])
    requires Boundary(prev, s) && Boundary(s[..v], s[v..])
    ensures s[..v][v - 1] != LONG_S
    ensures AtBoundary(prev)
  {
    assert s[v..][0] == s[v];
  }

  /** The clause expression finds exactly the longest chain that starts at a word boundary:
      it matches there iff some chain does, what it matches is a chain, and no chain
      starting there is longer. */
  lemma {:induction false} ClauseIsLongestChain(prev: string, s: string)
    ensures ClauseLen(prev, s) > 0 ==>
              AtBoundary(prev) &&
              exists ch :: ValidChain(ch) && Render(ch) == s[..ClauseLen(prev, s)]
    ensures AtBoundary(prev) ==>
              forall ch :: ValidChain(ch) && HasPrefix(s, Render(ch)) ==> |Render(ch)| <= ClauseLen(prev, s)
  {
    if ClauseLen(prev, s) > 0 {
      var ch := ParseChain(prev, s);
      LeadVerbOfMatch(prev, s);
    }
    if AtBoundary(prev) {
      forall ch | ValidChain(ch) && HasPrefix(s, Render(ch)) ensures |Render(ch)| <= ClauseLen(prev, s) {
        assert s == Render(ch) + s[|Render(ch)|..];
        ClauseLenCovers(prev, ch, s[|Render(ch)|..]);
      }
    }
  }

  // The ids inside a clause.

  ghost predicate NoG(p: string) {
    forall i :: 0 <= i < |p| ==> LowerChar(p[i]) != 'g'
  }

  lemma {:induction false} SkipNonId(p: string, t: string)
    requires NoG(p)
    ensures FindIds(p + t) == FindIds(t)
  {
    if p == [] {
      assert p + t == t;
    } else {
      assert (p + t)[0] == p[0];
      assert (p + t)[1..] == p[1..] + t;
      SkipNonId(p[1..], t);
    }
  }

  lemma {:induction false} TakeId(x: string, t: string)
    requires IsId(x) && IdRun(t) == 0
    ensures FindIds(x + t) == [x] + FindIds(t)
  {
    IdLenOf(x, t);
    assert (x + t)[..|x|] == x;
    assert (x + t)[|x|..] == t;
  }

  lemma {:induction false} VerbHasNoG(v: string)
    requires IsVerb(v)
    ensures NoG(v)
  {
    forall i | 0 <= i < |v| ensures LowerChar(v[i]) != 'g' {
      if |v| == 6 { assert FoldsTo(v[i], "closes"[i]); }
      else if |v| == 5 { assert FoldsTo(v[i], "fixes"[i]); }
      else { assert FoldsTo(v[i], "resolves"[i]); }
    }
  }

  lemma {:induction false} SepHasNoG(p: Sep)
    requires IsSep(p)
    ensures NoG(RenderSep(p))
  {
    if p.And? {
      forall i | 0 <= i < 3 ensures LowerChar(p.word[i]) != 'g' { assert FoldsTo(p.word[i], "and"[i]); }
    }
  }

  lemma {:induction false} AgainHasNoG(r: Again)
    requires IsAgain(r)
    ensures NoG(RenderAgain(r))
  {
    if r.Repeated? {
      VerbHasNoG(r.verb);
    }
  }

  lemma {:induction false} IdsOfLinks(links: seq<Link>, t: string)
    requires forall k :: 0 <= k < |links| ==> ValidLink(links[k])
    requires IdRun(t) == 0
    ensures FindIds(RenderLinks(links) + t) == LinkIds(links) + FindIds(t)
  {
    if links == [] {
      assert RenderLinks(links) + t == t;
    } else {
      var rest := RenderLinks(links[1..]) + t;
      RenderLinksThen(links, t);
      RestStart(links[1..], t);
      IdOfLink(links[0], rest);
      IdsOfLinks(links[1..], t);
      ConsThenCat(links[0].id, LinkIds(links[1..]), FindIds(t));
    }
  }

  lemma {:induction false} IdOfLink(l: Link, rest: string)
    requires ValidLink(l) && IdRun(rest) == 0
    ensures FindIds(RenderLink(l) + rest) == [l.id] + FindIds(rest)
  {
    Assoc(RenderSep(l.sep), RenderAgain(l.again), l.id, rest);
    SepHasNoG(l.sep);
    AgainHasNoG(l.again);
    SkipThenId(RenderSep(l.sep), RenderAgain(l.again), l.id, rest);
  }

  lemma {:induction false} SkipThenId(p: string, q: string, x: string, rest: string)
    requires NoG(p) && NoG(q) && IsId(x) && IdRun(rest) == 0
    ensures FindIds(p + (q + (x + rest))) == [x] + FindIds(rest)
  {
    SkipNonId(p, q + (x + rest));
    SkipNonId(q, x + rest);
    TakeId(x, rest);
  }

  lemma {:induction false} RestStart(links: seq<Link>, t: string)
    requires links != [] ==> ValidLink(links[0])
    requires IdRun(t) == 0
    ensures IdRun(RenderLinks(links) + t) == 0
  {
    if links == [] {
      assert RenderLinks(links) + t == t;
    } else {
      LinksStart(links, t);
    }
  }

  /** Scanning a chain's text for ids gives the chain's ids, in order. */
  lemma {:induction false} IdsOfChain(ch: Chain, t: string)
    requires ValidChain(ch) && IdRun(t) == 0
    ensures FindIds(Render(ch) + t) == ChainIds(ch) + FindIds(t)
  {
    var rest := RenderLinks(ch.links) + t;
    RenderThen(ch, t);
    VerbHasNoG(ch.verb);
    RestStart(ch.links, t);
    SkipThenId(ch.verb, ch.gap, ch.first, rest);
    IdsOfLinks(ch.links, t);
    ConsThenCat(ch.first, LinkIds(ch.links), FindIds(t));
  }

  lemma {:induction false} IdsOfWholeChain(ch: Chain)
    requires ValidChain(ch)
    ensures FindIds(Render(ch)) == ChainIds(ch)
  {
    IdsOfChain(ch, []);
    assert Render(ch) + [] == Render(ch);
  }

  lemma {:induction false} ConsThenCat(x: string, a: seq<string>, b: seq<string>)
    ensures [x] + (a + b) == ([x] + a) + b
  {
  }
}
