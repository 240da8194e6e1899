/** Byte-free string operations shared by the other modules: the parts of Go's
    `strings` package the modelled code calls, over `seq<char>`. */
module Text {

  /** `strings.Index(s, c)` for a one-character needle. */
  function IndexOf(s: string, c: char): (i: int)
    ensures -1 <= i < |s|
    ensures i >= 0 ==> s[i] == c && c !in s[..i]
    ensures i < 0 ==> c !in s
  {
    if s == [] then -1
    else if s[0] == c then 0
    else
      var r := IndexOf(s[1..], c);
      if r < 0 then
        assert s == [s[0]] + s[1..];
        -1
      else
        assert s[..r + 1] == [s[0]] + s[1..][..r];
        r + 1
  }

  lemma IndexOfUnique(s: string, c: char, i: nat)
    requires i < |s| && s[i] == c && c !in s[..i]
    ensures IndexOf(s, c) == i
  {
    if i > 0 {
      assert s[0] != c by { assert s[..i][0] == s[0]; }
      assert s[1..][..i - 1] == s[..i][1..];
      IndexOfUnique(s[1..], c, i - 1);
    }
  }

  /** `strings.Split(s, c)`: every field between occurrences of `c`. */
  function Split(s: string, c: char): (fields: seq<string>)
    ensures |fields| >= 1
    decreases |s|
  {
    var i := IndexOf(s, c);
    if i < 0 then [s] else [s[..i]] + Split(s[i + 1..], c)
  }

  /** `strings.SplitN(s, c, n)` for positive `n`: at most `n` fields, the last unsplit. */
  function SplitN(s: string, c: char, n: nat): (fields: seq<string>)
    requires n >= 1
    ensures 1 <= |fields| <= n
    decreases n
  {
    var i := IndexOf(s, c);
    if i < 0 || n == 1 then [s] else [s[..i]] + SplitN(s[i + 1..], c, n - 1)
  }

  /** `strings.Join(parts, sep)`. */
  function Join(parts: seq<string>, sep: string): string {
    if parts == [] then ""
    else if |parts| == 1 then parts[0]
    else parts[0] + sep + Join(parts[1..], sep)
  }

  lemma JoinCons(head: string, rest: seq<string>, sep: string)
    requires rest != []
    ensures Join([head] + rest, sep) == head + sep + Join(rest, sep)
  {
    assert ([head] + rest)[1..] == rest;
  }

  ghost predicate NoneContain(parts: seq<string>, c: char) {
    forall k :: 0 <= k < |parts| ==> c !in parts[k]
  }

  /** Reading back a text that starts with a field and a separator. */
  lemma SplitStep(head: string, c: char, tail: string)
    requires c !in head
    ensures Split(head + [c] + tail, c) == [head] + Split(tail, c)
    ensures forall n :: n >= 2 ==> SplitN(head + [c] + tail, c, n) == [head] + SplitN(tail, c, n - 1)
  {
    var s := head + [c] + tail;
    assert s[..|head|] == head;
    IndexOfUnique(s, c, |head|);
    assert s[|head| + 1..] == tail;
  }

  lemma {:induction false} SplitOfJoin(parts: seq<string>, c: char)
    requires parts != [] && NoneContain(parts, c)
    ensures Split(Join(parts, [c]), c) == parts
  {
    if |parts| > 1 {
      assert NoneContain(parts[1..], c) by {
        forall k | 0 <= k < |parts[1..]| ensures c !in parts[1..][k] { assert parts[1..][k] == parts[k + 1]; }
      }
      SplitOfJoin(parts[1..], c);
      SplitStep(parts[0], c, Join(parts[1..], [c]));
      assert Join(parts, [c]) == parts[0] + [c] + Join(parts[1..], [c]);
      assert parts == [parts[0]] + parts[1..];
    } else {
      assert parts[0] == Join(parts, [c]);
      assert c !in parts[0];
    }
  }

  /** What SplitN gives for a text with fewer separators than it may cut at: all fields. */
  lemma {:induction false} SplitNIsSplit(s: string, c: char, n: nat)
    requires n >= 1 && |Split(s, c)| <= n
    ensures SplitN(s, c, n) == Split(s, c)
    decreases n
  {
    hide IndexOf;
    var i := IndexOf(s, c);
    if i >= 0 && n > 1 {
      SplitNIsSplit(s[i + 1..], c, n - 1);
    }
  }

  /** Splitting loses nothing. */
  lemma SplitUnfold(s: string, c: char)
    ensures Split(s, c) == if IndexOf(s, c) < 0 then [s] else [s[..IndexOf(s, c)]] + Split(s[IndexOf(s, c) + 1..], c)
  {
  }

  lemma {:induction false} SplitFieldsClean(s: string, c: char)
    ensures NoneContain(Split(s, c), c)
    decreases |s|
  {
    hide Split, IndexOf;
    var i := IndexOf(s, c);
    SplitUnfold(s, c);
    if i >= 0 {
      SplitFieldsClean(s[i + 1..], c);
    }
  }

  predicate HasPrefix(s: string, p: string) {
    |p| <= |s| && s[..|p|] == p
  }

  /** `strings.Contains`. */
  predicate Contains(s: string, sub: string) {
    HasPrefix(s, sub) || (s != [] && Contains(s[1..], sub))
  }

  lemma {:induction false} OccursIsContained(before: string, sub: string, after: string)
    ensures Contains(before + sub + after, sub)
  {
    var s := before + sub + after;
    if before == [] {
      assert s[..|sub|] == sub;
    } else {
      assert s[1..] == before[1..] + sub + after;
      OccursIsContained(before[1..], sub, after);
    }
  }

  lemma {:induction false} ContainsOccurs(s: string, sub: string) returns (before: string, after: string)
    requires Contains(s, sub)
    ensures s == before + sub + after
  {
    if HasPrefix(s, sub) {
      before, after := [], s[|sub|..];
    } else {
      before, after := ContainsOccurs(s[1..], sub);
      before := [s[0]] + before;
    }
  }

  lemma ContainsExact(s: string, sub: string)
    ensures Contains(s, sub) <==> exists before, after :: s == before + sub + after
  {
    hide Contains;
    if Contains(s, sub) {
      var before, after := ContainsOccurs(s, sub);
    }
    if before, after :| s == before + sub + after {
      OccursIsContained(before, sub, after);
    }
  }

  function TrimLeft(s: string, cut: char -> bool): (r: string)
    ensures |r| <= |s| && s[|s| - |r|..] == r
    ensures r != [] ==> !cut(r[0])
    ensures forall i :: 0 <= i < |s| - |r| ==> cut(s[i])
  {
    if s != [] && cut(s[0]) then TrimLeft(s[1..], cut) else s
  }

  function TrimRight(s: string, cut: char -> bool): (r: string)
    ensures r <= s
    ensures r != [] ==> !cut(r[|r| - 1])
    ensures forall i :: |r| <= i < |s| ==> cut(s[i])
  {
    if s != [] && cut(s[|s| - 1]) then TrimRight(s[..|s| - 1], cut) else s
  }

  /** `strings.TrimFunc`. */
  function Trim(s: string, cut: char -> bool): string {
    TrimRight(TrimLeft(s, cut), cut)
  }

  /** What is left is the text between the longest paddings made of the cut set. */
  lemma TrimExact(s: string, cut: char -> bool, r: string)
    ensures Trim(s, cut) == r <==> TrimsTo(s, r, cut)
  {
    hide Trim, Padded;
    var before, after := TrimPads(s, cut);
    if a, b :| Padded(s, a, r, b, cut) {
      PaddedTrims(s, a, r, b, cut);
    }
  }

  lemma TrimPads(s: string, cut: char -> bool) returns (a: string, b: string)
    ensures Padded(s, a, Trim(s, cut), b, cut)
  {
    hide TrimLeft, TrimRight;
    var l := TrimLeft(s, cut);
    var t := TrimRight(l, cut);
    a, b := s[..|s| - |l|], l[|t|..];
    assert l == t + b;
    assert s == a + t + b by { assert s == a + l; }
    forall i | 0 <= i < |a| ensures cut(a[i]) { assert a[i] == s[i]; }
    forall i | 0 <= i < |b| ensures cut(b[i]) { assert b[i] == l[|t| + i]; }
    assert t != [] ==> t[0] == l[0];
  }

  lemma PaddedTrims(s: string, a: string, r: string, b: string, cut: char -> bool)
    requires Padded(s, a, r, b, cut)
    ensures Trim(s, cut) == r
  {
    hide Trim;
    TrimOf(a, r, b, cut);
  }

  ghost predicate TrimsTo(s: string, r: string, cut: char -> bool) {
    exists a, b :: Padded(s, a, r, b, cut)
  }

  ghost predicate Padded(s: string, a: string, r: string, b: string, cut: char -> bool) {
    s == a + r + b && (forall i :: 0 <= i < |a| ==> cut(a[i])) && (forall i :: 0 <= i < |b| ==> cut(b[i])) &&
    (r == [] || (!cut(r[0]) && !cut(r[|r| - 1])))
  }

  lemma {:induction false} TrimLeftOf(a: string, s: string, cut: char -> bool)
    requires (forall i :: 0 <= i < |a| ==> cut(a[i])) && (s == [] || !cut(s[0]))
    ensures TrimLeft(a + s, cut) == s
  {
    if a == [] {
      assert a + s == s;
    } else {
      assert (a + s)[1..] == a[1..] + s;
      TrimLeftOf(a[1..], s, cut);
    }
  }

  lemma {:induction false} TrimRightOf(s: string, b: string, cut: char -> bool)
    requires (forall i :: 0 <= i < |b| ==> cut(b[i])) && (s == [] || !cut(s[|s| - 1]))
    ensures TrimRight(s + b, cut) == s
  {
    if b == [] {
      assert s + b == s;
    } else {
      assert (s + b)[..|s + b| - 1] == s + b[..|b| - 1];
      TrimRightOf(s, b[..|b| - 1], cut);
    }
  }

  /** Trimming takes off exactly the padding around a text that neither starts nor ends with
      a character of the cut set. */
  lemma TrimOf(a: string, s: string, b: string, cut: char -> bool)
    requires (forall i :: 0 <= i < |a| ==> cut(a[i])) && (forall i :: 0 <= i < |b| ==> cut(b[i]))
    requires s == [] || (!cut(s[0]) && !cut(s[|s| - 1]))
    ensures Trim(a + s + b, cut) == s
  {
    if s == [] {
      assert a + s + b == (a + b) + [];
      TrimLeftOf(a + b, [], cut);
    } else {
      assert a + s + b == a + (s + b) && (s + b)[0] == s[0];
      TrimLeftOf(a, s + b, cut);
      TrimRightOf(s, b, cut);
    }
  }

  predicate IsDigit(c: char) { '0' <= c <= '9' }

  predicate IsLetter(c: char) { 'a' <= c <= 'z' || 'A' <= c <= 'Z' }

  /** RE2's `\s`. */
  predicate IsSpace(c: char) { c == ' ' || c == '\t' || c == '\n' || c == '\r' || c == '\U{0C}' }

  /** RE2's ASCII word character, the one `\b` looks at. */
  predicate IsWord(c: char) { IsDigit(c) || IsLetter(c) || c == '_' }

  ghost predicate InRange(c: char, lo: int, hi: int) {
    lo <= c as int <= hi
  }

  /** The character classes by code point. */
  lemma AsciiClasses(c: char)
    ensures IsDigit(c) <==> InRange(c, 48, 57)
    ensures IsLetter(c) <==> InRange(c, 65, 90) || InRange(c, 97, 122)
    ensures IsSpace(c) <==> InRange(c, 9, 10) || InRange(c, 12, 13) || c as int == 32
    ensures IsWord(c) <==> InRange(c, 48, 57) || InRange(c, 65, 90) || c as int == 95 || InRange(c, 97, 122)
  {
  }

  /** `unicode.ToLower` on ASCII and on KELVIN SIGN, the only other character the
      modelled patterns let through whose lower case differs from it. */
  function LowerChar(c: char): char {
    if 'A' <= c <= 'Z' then c + ('a' - 'A')
    else if c == '\U{212A}' then 'k'
    else c
  }

  function Lower(s: string): (r: string)
    ensures |r| == |s|
    ensures forall i :: 0 <= i < |s| ==> r[i] == LowerChar(s[i])
  {
    if s == [] then [] else [LowerChar(s[0])] + Lower(s[1..])
  }

  /** Two spellings of one letter, or the same other character. */
  predicate SameLetter(a: char, b: char) {
    || a == b
    || ('A' <= a <= 'Z' && b == a + ('a' - 'A'))
    || ('A' <= b <= 'Z' && a == b + ('a' - 'A'))
    || (a in {'k', 'K', '\U{212A}'} && b in {'k', 'K', '\U{212A}'})
  }

  /** Equal up to the case of their letters. */
  predicate SameLetters(a: string, b: string) {
    |a| == |b| && forall k :: 0 <= k < |a| ==> SameLetter(a[k], b[k])
  }

  /** Lower case forgets the case of letters and nothing else. */
  lemma LowerIgnoresCase(a: string, b: string)
    ensures Lower(a) == Lower(b) <==> SameLetters(a, b)
  {
    hide Lower;
    if Lower(a) == Lower(b) {
      assert |a| == |b|;
      forall k | 0 <= k < |a| ensures SameLetter(a[k], b[k]) {
        assert LowerChar(a[k]) == LowerChar(b[k]);
      }
    }
  }

  lemma LowerIsIdempotent(s: string)
    ensures Lower(Lower(s)) == Lower(s) && SameLetters(Lower(s), s)
    ensures forall i :: 0 <= i < |s| ==> !('A' <= Lower(s)[i] <= 'Z') && Lower(s)[i] != '\U{212A}'
  {
    LowerIgnoresCase(Lower(s), s);
  }
}
