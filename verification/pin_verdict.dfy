/** cmd/checkpins/main.go: comparing a recorded pin with go.mod. */
module PinVerdict {
  import opened Text
  import opened CheckPins
  import opened Wrappers

  const AWS: string := "aws-sdk-go-v2/service/"
  const AZURE: string := "azure-sdk-for-go/sdk/"
  const HASHICORP: string := "hashicorp/"
  const CACHE_ONLY: string := "not a go.mod dependency"

  predicate IsNameChar(c: char, slash: bool) {
    IsLetter(c) || IsDigit(c) || c == '_' || c == '-' || (slash && c == '/')
  }

  predicate IsVersionChar(c: char) {
    IsLetter(c) || IsDigit(c) || c == '.' || c == '-' || c == '+'
  }

  /** Names hold ASCII letters and digits, "_", "-" and where allowed "/"; versions hold
      letters, digits, ".", "-" and "+". */
  lemma PinCharsExact(c: char, slash: bool)
    ensures IsNameChar(c, slash) <==>
            InRange(c, 48, 57) || InRange(c, 65, 90) || InRange(c, 97, 122) || c as int in {45, 95} || (slash && c as int == 47)
    ensures IsVersionChar(c) <==>
            InRange(c, 48, 57) || InRange(c, 65, 90) || InRange(c, 97, 122) || c as int in {43, 45, 46}
  {
    AsciiClasses(c);
  }

  predicate IsName(s: string, slash: bool) {
    s != [] && forall i :: 0 <= i < |s| ==> IsNameChar(s[i], slash)
  }

  predicate IsVersion(s: string) {
    |s| >= 2 && s[0] == 'v' && IsDigit(s[1]) && forall i :: 2 <= i < |s| ==> IsVersionChar(s[i])
  }

  datatype Pin = Pin(name: string, version: string)

  /** One of the anchored pin expressions: a fixed prefix, a name, "@" and a version. */
  function MatchPin(v: string, prefix: string, slash: bool): Option<Pin> {
    if !HasPrefix(v, prefix) then None
    else
      var r := v[|prefix|..];
      var i := IndexOf(r, '@');
      if i >= 0 && IsName(r[..i], slash) && IsVersion(r[i + 1..]) then Some(Pin(r[..i], r[i + 1..])) else None
  }

  /** The expression matches exactly the texts made of its parts, in one way only. */
  lemma MatchPinExact(v: string, prefix: string, slash: bool, name: string, version: string)
    ensures MatchPin(v, prefix, slash) == Some(Pin(name, version)) <==>
            v == prefix + name + "@" + version && IsName(name, slash) && IsVersion(version)
  {
    hide IndexOf, IsVersion;
    if v == prefix + name + "@" + version && IsName(name, slash) && IsVersion(version) {
      var r := name + "@" + version;
      assert v == prefix + r;
      assert v[|prefix|..] == r && v[..|prefix|] == prefix;
      assert '@' !in name;
      assert r[..|name|] == name && r[|name| + 1..] == version;
      IndexOfUnique(r, '@', |name|);
    }
    if MatchPin(v, prefix, slash) == Some(Pin(name, version)) {
      assert v == v[..|prefix|] + v[|prefix|..];
      var r := v[|prefix|..];
      assert r == name + "@" + version;
    }
  }

  function Unquote(value: string): string {
    Trim(TrimSpace(value), c => c == '"' || c == '\'')
  }

  function ParsePinValue(value: string): Option<Pin> {
    var v := Unquote(value);
    var aws := MatchPin(v, AWS, false);
    if aws.Some? then aws else MatchPin(v, AZURE, true)
  }

  predicate IsModuleCacheOnly(comment: string) {
    Contains(Lower(comment), CACHE_ONLY)
  }

  /** The comment holds the phrase, in any mixture of cases. */
  ghost predicate SaysCacheOnly(comment: string) {
    exists before, phrase, after :: Holds(comment, before, phrase, after)
  }

  ghost predicate Holds(comment: string, before: string, phrase: string, after: string) {
    comment == before + phrase + after && SameLetters(phrase, "not a go.mod dependency")
  }

  lemma CacheOnlyExact(comment: string)
    ensures IsModuleCacheOnly(comment) <==> SaysCacheOnly(comment)
  {
    hide Contains, SameLetters, Lower;
    var l := Lower(comment);
    if Contains(l, CACHE_ONLY) {
      var b, a := ContainsOccurs(l, CACHE_ONLY);
      var i, j := |b|, |b| + |CACHE_ONLY|;
      PhraseAt(comment, b, a);
      assert Holds(comment, comment[..i], comment[i..j], comment[j..]) by {
        assert comment == comment[..i] + comment[i..j] + comment[j..];
      }
    }
    if before, phrase, after :| Holds(comment, before, phrase, after) {
      LowerIgnoresCase(phrase, CACHE_ONLY);
      PhraseIsLower();
      assert l == Lower(before) + CACHE_ONLY + Lower(after);
      OccursIsContained(Lower(before), CACHE_ONLY, Lower(after));
    }
  }

  lemma PhraseIsLower()
    ensures Lower(CACHE_ONLY) == CACHE_ONLY
  {
    hide Lower;
    var l := Lower(CACHE_ONLY);
    forall k | 0 <= k < |CACHE_ONLY| ensures l[k] == CACHE_ONLY[k] {
      assert l[k] == LowerChar(CACHE_ONLY[k]);
    }
  }

  lemma PhraseAt(comment: string, b: string, a: string)
    requires Lower(comment) == b + CACHE_ONLY + a
    ensures SameLetters(comment[|b|..|b| + |CACHE_ONLY|], "not a go.mod dependency")
  {
    hide Lower, SameLetters;
    var phrase := comment[|b|..|b| + |CACHE_ONLY|];
    assert Lower(phrase) == CACHE_ONLY by {
      forall k | 0 <= k < |CACHE_ONLY| ensures Lower(phrase)[k] == CACHE_ONLY[k] {
        assert Lower(comment)[|b| + k] == CACHE_ONLY[k];
      }
    }
    PhraseIsLower();
    LowerIgnoresCase(phrase, CACHE_ONLY);
  }

  ghost predicate WithoutBlanks(value: string, v: string) {
    TrimsTo(value, v, c => IsBlank(c))
  }

  /** `v` is `value` without the blanks around it and then without the quotes around that. */
  ghost predicate IsUnquoted(value: string, v: string) {
    exists quoted :: WithoutBlanks(value, quoted) && TrimsTo(quoted, v, c => c == '"' || c == '\'')
  }

  lemma UnquoteExact(value: string, v: string)
    ensures Unquote(value) == v <==> IsUnquoted(value, v)
  {
    hide TrimsTo, Trim;
    forall t ensures WithoutBlanks(value, t) <==> t == TrimSpace(value) {
      TrimExact(value, c => IsBlank(c), t);
    }
    TrimExact(TrimSpace(value), c => c == '"' || c == '\'', v);
    assert WithoutBlanks(value, TrimSpace(value));
  }

  /** The message's wording is not kept. */
  datatype Verdict =
    | Good
    | NoField
    | NoVersion(value: string)
    | NotInGoMod(name: string)
    | Disagrees(recorded: string, actual: string)

  function Judge(m: Module, goMod: map<string, string>): Verdict {
    if MatchPin(Unquote(m.value), HASHICORP, false).Some? then Good
    else
      match ParsePinValue(m.value)
      case None => NoVersion(TrimSpace(m.value))
      case Some(pin) =>
        if pin.name !in goMod then
          if IsModuleCacheOnly(m.comment) then Good else NotInGoMod(pin.name)
        else if goMod[pin.name] != pin.version then Disagrees(pin.version, goMod[pin.name])
        else Good
  }

  function EvaluatePin(content: string, goMod: map<string, string>): Verdict {
    match SdkModule(content)
    case None => NoField
    case Some(m) => Judge(m, goMod)
  }

  lemma SpaceBeforeMatters(t: string)
    ensures IsModuleCacheOnly(" " + t) <==> IsModuleCacheOnly(t)
  {
    assert (" " + t)[1..] == t;
    var l := Lower(" " + t);
    assert l[0] == ' ' && l[1..] == Lower(t);
    assert CACHE_ONLY[0] == 'n';
    assert !HasPrefix(l, CACHE_ONLY) by {
      if |l| >= |CACHE_ONLY| { assert l[..|CACHE_ONLY|][0] == ' '; }
    }
  }

  /** The verdict depends on the value and on the words of the comment, not on how the
      comment is wrapped or on what surrounds the field. */
  lemma VerdictIgnoresWrapping(before: seq<string>, w: Wrapped, after: seq<string>,
                               before2: seq<string>, w2: Wrapped, after2: seq<string>, goMod: map<string, string>)
    requires ValidFile(before, w, after) && ValidFile(before2, w2, after2)
    requires w.value == w2.value && AllWords(w) == AllWords(w2)
    ensures EvaluatePin(PrintFile(before, w, after), goMod) == EvaluatePin(PrintFile(before2, w2, after2), goMod)
  {
    hide ValidFile, PrintFile, SdkModule, IsModuleCacheOnly, ParsePinValue, MatchPin, Unquote, TrimSpace;
    WrappedFieldIsRecovered(before, w, after);
    WrappedFieldIsRecovered(before2, w2, after2);
    SpaceBeforeMatters(PrintWords(AllWords(w)));
    assert "" + PrintWords(AllWords(w)) == PrintWords(AllWords(w));
  }

  lemma PrintedPinUnquoted(prefix: string, name: string, version: string)
    requires prefix == AWS || prefix == AZURE || prefix == HASHICORP
    requires IsVersion(version)
    ensures Unquote(prefix + name + "@" + version) == prefix + name + "@" + version
  {
    var v := prefix + name + "@" + version;
    assert v[0] == prefix[0] && IsLetter(prefix[0]);
    var last := version[|version| - 1];
    assert v[|v| - 1] == last && (IsDigit(last) || IsVersionChar(last));
    hide IsVersion, AWS, AZURE, HASHICORP;
    NothingToStrip(v);
  }

  lemma NothingToStrip(v: string)
    requires v != [] && IsLetter(v[0]) && (IsDigit(v[|v| - 1]) || IsVersionChar(v[|v| - 1]))
    ensures Unquote(v) == v
  {
    hide Trim;
    assert [] + v + [] == v;
    TrimOf([], v, [], c => IsBlank(c));
    TrimOf([], v, [], c => c == '"' || c == '\'');
  }

  /** What a file recording a well-formed AWS or Azure pin gets: good when go.mod requires
      that version, or when go.mod does not require the module and the comment's words say
      so; otherwise the mismatch is named. */
  lemma RecordedPinVerdict(before: seq<string>, w: Wrapped, after: seq<string>, azure: bool, pin: Pin, goMod: map<string, string>)
    requires ValidFile(before, w, after)
    requires w.value == (if azure then AZURE else AWS) + pin.name + "@" + pin.version
    requires IsName(pin.name, azure) && IsVersion(pin.version)
    ensures EvaluatePin(PrintFile(before, w, after), goMod) ==
            if pin.name in goMod then
              if goMod[pin.name] == pin.version then Good else Disagrees(pin.version, goMod[pin.name])
            else if SaysCacheOnly(PrintWords(AllWords(w))) then Good else NotInGoMod(pin.name)
  {
    CacheOnlyExact(PrintWords(AllWords(w)));
    hide ValidFile, PrintFile, SdkModule, IsModuleCacheOnly, SaysCacheOnly, IsName, IsVersion, MatchPin, Unquote, TrimSpace;
    WrappedFieldIsRecovered(before, w, after);
    SpaceBeforeMatters(PrintWords(AllWords(w)));
    assert "" + PrintWords(AllWords(w)) == PrintWords(AllWords(w));
    var prefix := if azure then AZURE else AWS;
    PrintedPinUnquoted(prefix, pin.name, pin.version);
    MatchPinExact(w.value, prefix, azure, pin.name, pin.version);
    OtherPrefixes(w.value, azure);
  }

  lemma OtherPrefixes(v: string, azure: bool)
    requires HasPrefix(v, if azure then AZURE else AWS)
    ensures MatchPin(v, HASHICORP, false) == None
    ensures azure ==> MatchPin(v, AWS, false) == None
  {
    var p := if azure then AZURE else AWS;
    assert v[0] == 'a' && v[1] == p[1] by { assert v[..|p|][0] == v[0] && v[..|p|][1] == v[1]; }
    if |v| >= |HASHICORP| { assert v[..|HASHICORP|][0] == 'a'; }
    if azure && |v| >= |AWS| { assert v[..|AWS|][1] == 'z'; }
  }

  /** The value is written in one of the recognised forms. */
  ghost predicate Written(v: string, prefix: string, slash: bool, pin: Pin) {
    v == prefix + pin.name + "@" + pin.version && IsName(pin.name, slash) && IsVersion(pin.version)
  }

  ghost predicate WrittenPin(v: string, pin: Pin) {
    Written(v, AWS, false, pin) || Written(v, AZURE, true, pin)
  }

  lemma MatchPinWritten(v: string, prefix: string, slash: bool)
    ensures forall pin :: MatchPin(v, prefix, slash) == Some(pin) <==> Written(v, prefix, slash, pin)
    ensures MatchPin(v, prefix, slash).Some? <==> exists pin :: Written(v, prefix, slash, pin)
  {
    hide MatchPin, IsName, IsVersion;
    forall pin ensures MatchPin(v, prefix, slash) == Some(pin) <==> Written(v, prefix, slash, pin) {
      MatchPinExact(v, prefix, slash, pin.name, pin.version);
    }
    if MatchPin(v, prefix, slash).Some? {
      assert Written(v, prefix, slash, MatchPin(v, prefix, slash).value);
    }
  }

  lemma ParsedIsWritten(value: string)
    ensures forall pin :: ParsePinValue(value) == Some(pin) <==> WrittenPin(Unquote(value), pin)
  {
    hide MatchPin, Written, Unquote, TrimSpace;
    var v := Unquote(value);
    MatchPinWritten(v, AWS, false);
    MatchPinWritten(v, AZURE, true);
    if MatchPin(v, AZURE, true).Some? {
      AzureHasPrefix(v);
      OtherPrefixes(v, true);
    }
  }

  lemma AzureHasPrefix(v: string)
    requires MatchPin(v, AZURE, true).Some?
    ensures HasPrefix(v, AZURE)
  {
    hide HasPrefix;
  }

  /** For every file: it is good iff it records a HashiCorp pin, or an AWS or Azure pin that
      go.mod requires at that version or, when go.mod does not require the module at all,
      whose comment says so; its value is called unreadable iff it is in none of the forms. */
  lemma VerdictExact(content: string, goMod: map<string, string>, m: Module, v: string)
    ensures EvaluatePin(content, goMod) == NoField <==>
            forall line :: line in Split(content, '\n') ==> !HasPrefix(line, "sdk_module:")
    ensures IsModule(Split(content, '\n'), m) && IsUnquoted(m.value, v) ==>
              (EvaluatePin(content, goMod) == Good <==>
                 (exists pin :: Written(v, HASHICORP, false, pin)) ||
                 exists pin :: WrittenPin(v, pin) &&
                   if pin.name in goMod then goMod[pin.name] == pin.version else SaysCacheOnly(m.comment)) &&
              (EvaluatePin(content, goMod).NoVersion? <==>
                 forall pin :: !Written(v, HASHICORP, false, pin) && !WrittenPin(v, pin)) &&
              (forall name :: EvaluatePin(content, goMod) == NotInGoMod(name) <==>
                 (exists pin :: WrittenPin(v, pin) && pin.name == name) && name !in goMod && !SaysCacheOnly(m.comment)) &&
              (forall recorded, actual :: EvaluatePin(content, goMod) == Disagrees(recorded, actual) <==>
                 exists pin :: WrittenPin(v, pin) && pin.version == recorded && pin.name in goMod &&
                               goMod[pin.name] == actual != recorded)
  {
    hide MatchPin, Written, WrittenPin, Unquote, IsUnquoted, IsModule, SdkModule, IsModuleCacheOnly, SaysCacheOnly;
    hide ParsePinValue, Judge, Split;
    NoFieldOf(content);
    FieldIsJudged(content, goMod);
    ModuleExact(content, m);
    UnquoteExact(m.value, v);
    if IsModule(Split(content, '\n'), m) && IsUnquoted(m.value, v) {
      JudgeExact(m, v, goMod);
    }
  }

  lemma FieldIsJudged(content: string, goMod: map<string, string>)
    ensures EvaluatePin(content, goMod) == NoField <==> SdkModule(content) == None
  {
    hide *;
    if SdkModule(content).Some? {
      NotNoField(SdkModule(content).value, goMod);
    }
    EvaluateIs(content, goMod);
  }

  lemma NotNoField(m: Module, goMod: map<string, string>)
    ensures Judge(m, goMod) != NoField
  {
    hide ParsePinValue, MatchPin, IsModuleCacheOnly, TrimSpace, Unquote;
  }

  lemma EvaluateIs(content: string, goMod: map<string, string>)
    ensures EvaluatePin(content, goMod) ==
            if SdkModule(content).None? then NoField else Judge(SdkModule(content).value, goMod)
  {
    hide SdkModule, Judge;
  }

  lemma NoFieldOf(content: string)
    ensures SdkModule(content) == None <==> forall line :: line in Split(content, '\n') ==> !HasPrefix(line, "sdk_module:")
  {
    hide Split, ModuleIn, HasPrefix;
    NoFieldExact(Split(content, '\n'));
  }

  lemma JudgeExact(m: Module, v: string, goMod: map<string, string>)
    requires Unquote(m.value) == v
    ensures Judge(m, goMod) == Good <==>
            (exists pin :: Written(v, HASHICORP, false, pin)) ||
            exists pin :: WrittenPin(v, pin) &&
              if pin.name in goMod then goMod[pin.name] == pin.version else SaysCacheOnly(m.comment)
    ensures Judge(m, goMod).NoVersion? <==> forall pin :: !Written(v, HASHICORP, false, pin) && !WrittenPin(v, pin)
    ensures forall name :: Judge(m, goMod) == NotInGoMod(name) <==>
              (exists pin :: WrittenPin(v, pin) && pin.name == name) && name !in goMod && !SaysCacheOnly(m.comment)
    ensures forall recorded, actual :: Judge(m, goMod) == Disagrees(recorded, actual) <==>
              exists pin :: WrittenPin(v, pin) && pin.version == recorded && pin.name in goMod &&
                            goMod[pin.name] == actual != recorded
  {
    hide MatchPin, Written, WrittenPin, Unquote, TrimSpace, IsModuleCacheOnly, SaysCacheOnly, ParsePinValue;
    CacheOnlyExact(m.comment);
    MatchPinWritten(v, HASHICORP, false);
    ParsedIsWritten(m.value);
    if ParsePinValue(m.value).Some? {
      assert WrittenPin(v, ParsePinValue(m.value).value);
      NoHashicorp(v, ParsePinValue(m.value).value);
    }
  }

  lemma NoHashicorp(v: string, pin: Pin)
    requires WrittenPin(v, pin)
    ensures MatchPin(v, HASHICORP, false) == None
  {
    hide MatchPin, IsName, IsVersion;
    var azure := !Written(v, AWS, false, pin);
    var p := if azure then AZURE else AWS;
    assert v[..|p|] == p;
    OtherPrefixes(v, azure);
  }
}
