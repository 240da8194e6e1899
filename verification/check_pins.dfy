/** cmd/checkpins/main.go: the sdk_module pin of a PARITY.md file and its verdict. */
module CheckPins {
  import opened Text
  import opened Wrappers

  const FIELD: string := "sdk_module:"

  /** `unicode.IsSpace`. */
  predicate IsBlank(c: char) {
    IsSpace(c) || c == '\U{0B}' || c == '\U{85}' || c == '\U{A0}' || c == '\U{1680}' || '\U{2000}' <= c <= '\U{200A}' ||
    c == '\U{2028}' || c == '\U{2029}' || c == '\U{202F}' || c == '\U{205F}' || c == '\U{3000}'
  }

  /** The white space of Unicode, by code point. */
  lemma BlankExact(c: char)
    ensures IsBlank(c) <==>
            InRange(c, 9, 13) || c as int in {0x20, 0x85, 0xA0, 0x1680, 0x2028, 0x2029, 0x202F, 0x205F, 0x3000} ||
            InRange(c, 0x2000, 0x200A)
  {
    AsciiClasses(c);
  }

  function TrimSpace(s: string): string {
    Trim(s, c => IsBlank(c))
  }

  // Reading the field.

  /** " #" stands at `k`. */
  predicate HashAt(s: string, k: int) {
    0 <= k < |s| - 1 && s[k] == ' ' && s[k + 1] == '#'
  }

  /** Index of the first " #". */
  function CommentStart(s: string): (i: int)
    ensures -1 <= i <= |s| - 2 || i == -1
    ensures i >= 0 ==> HashAt(s, i)
    ensures forall k :: HashAt(s, k) ==> 0 <= i <= k
  {
    assert forall k :: HashAt(s, k) ==> k == 0 || HashAt(s[1..], k - 1);
    assert |s| > 0 ==> forall k :: HashAt(s[1..], k) ==> HashAt(s, k + 1);
    if |s| < 2 then -1
    else if s[0] == ' ' && s[1] == '#' then 0
    else
      var r := CommentStart(s[1..]);
      if r < 0 then -1 else r + 1
  }

  function SplitValueComment(rest: string): (string, string) {
    var i := CommentStart(rest);
    if i < 0 then (TrimSpace(rest), "") else (TrimSpace(rest[..i]), TrimSpace(rest[i + 2..]))
  }

  /** The comment text of a continuation line, None if the line ends the comment. */
  function Continuation(line: string): Option<string> {
    var cont := TrimSpace(line);
    if cont == "" || !(HasPrefix(line, " ") || HasPrefix(line, "\t")) then None
    else Some(TrimSpace(if HasPrefix(cont, "#") then cont[1..] else cont))
  }

  function Continuations(lines: seq<string>): seq<string> {
    if lines == [] then []
    else
      match Continuation(lines[0])
      case None => []
      case Some(text) => [text] + Continuations(lines[1..])
  }

  datatype Module = Module(value: string, comment: string)

  function ModuleIn(lines: seq<string>): Option<Module> {
    if lines == [] then None
    else if HasPrefix(lines[0], FIELD) then
      var (value, comment) := SplitValueComment(lines[0][|FIELD|..]);
      Some(Module(value, Join([comment] + Continuations(lines[1..]), " ")))
    else ModuleIn(lines[1..])
  }

  function SdkModule(content: string): Option<Module> {
    ModuleIn(Split(content, '\n'))
  }

  method ExtractSdkModule(content: string) returns (m: Option<Module>)
    ensures m == SdkModule(content)
  {
    hide SplitValueComment, Continuation, Split, HasPrefix;
    var lines := Split(content, '\n');
    for i := 0 to |lines|
      invariant ModuleIn(lines) == ModuleIn(lines[i..])
    {
      assert lines[i..][1..] == lines[i + 1..];
      if HasPrefix(lines[i], FIELD) {
        FieldLineIsLongEnough(lines[i]);
        var (value, comment) := SplitValueComment(lines[i][|FIELD|..]);
        var parts := [comment];
        var j := i + 1;
        while j < |lines|
          invariant i < j <= |lines|
          invariant [comment] + Continuations(lines[i + 1..]) == parts + Continuations(lines[j..])
        {
          var text := Continuation(lines[j]);
          assert lines[j..][1..] == lines[j + 1..];
          if text.None? {
            break;
          }
          assert parts + ([text.value] + Continuations(lines[j + 1..])) == (parts + [text.value]) + Continuations(lines[j + 1..]);
          parts := parts + [text.value];
          j := j + 1;
        }
        assert Continuations(lines[j..]) == [];
        assert parts + [] == parts;
        return Some(Module(value, Join(parts, " ")));
      }
    }
    return None;
  }

  lemma FieldLineIsLongEnough(line: string)
    requires HasPrefix(line, FIELD)
    ensures |FIELD| <= |line|
  {
  }

  // The field of any file, said without the functions that read it.

  ghost predicate IsTrimOf(s: string, t: string) {
    TrimsTo(s, t, c => IsBlank(c))
  }

  ghost predicate NoHash(s: string) {
    forall k :: !HashAt(s, k)
  }

  /** The text behind the field's name is its value, and the first " #", if there is one,
      starts the comment. */
  ghost predicate IsFieldText(rest: string, value: string, comment: string) {
    (NoHash(rest) && IsTrimOf(rest, value) && comment == "") ||
    exists k :: HashAt(rest, k) && NoHash(rest[..k]) && IsTrimOf(rest[..k], value) && IsTrimOf(rest[k + 2..], comment)
  }

  /** An indented line that is not blank; one "#" in front of its text is not part of it. */
  ghost predicate IsContinuation(line: string, text: string) {
    line != "" && (line[0] == ' ' || line[0] == '\t') &&
    exists core :: IsTrimOf(line, core) && core != "" && IsTrimOf(if core[0] == '#' then core[1..] else core, text)
  }

  ghost predicate Continues(line: string) {
    line != "" && (line[0] == ' ' || line[0] == '\t') && exists i :: 0 <= i < |line| && !IsBlank(line[i])
  }

  /** The lines up to the first that is no continuation. */
  ghost predicate AreContinuations(lines: seq<string>, texts: seq<string>) {
    |texts| <= |lines| && (forall j :: 0 <= j < |texts| ==> IsContinuation(lines[j], texts[j])) &&
    (|texts| < |lines| ==> !Continues(lines[|texts|]))
  }

  /** The first field line is line `at`. */
  ghost predicate FieldAt(lines: seq<string>, at: nat) {
    at < |lines| && HasPrefix(lines[at], "sdk_module:") && forall j :: 0 <= j < at ==> !HasPrefix(lines[j], "sdk_module:")
  }

  ghost predicate IsModuleAt(lines: seq<string>, at: nat, comment: string, texts: seq<string>, m: Module) {
    FieldAt(lines, at) && IsFieldText(lines[at][|"sdk_module:"|..], m.value, comment) &&
    AreContinuations(lines[at + 1..], texts) && m.comment == Join([comment] + texts, " ")
  }

  ghost predicate IsModule(lines: seq<string>, m: Module) {
    exists at: nat, comment, texts :: IsModuleAt(lines, at, comment, texts, m)
  }

  lemma FieldTextExact(rest: string, value: string, comment: string)
    ensures SplitValueComment(rest) == (value, comment) <==> IsFieldText(rest, value, comment)
  {
    hide Trim, TrimsTo, CommentStart, IsBlank;
    var i := CommentStart(rest);
    forall k, t ensures 0 <= k <= |rest| ==> (TrimSpace(rest[..k]) == t <==> IsTrimOf(rest[..k], t)) {
      if 0 <= k <= |rest| { TrimExact(rest[..k], c => IsBlank(c), t); }
    }
    TrimExact(rest, c => IsBlank(c), value);
    if i >= 0 {
      TrimExact(rest[i + 2..], c => IsBlank(c), comment);
      assert NoHash(rest[..i]) by {
        forall k ensures !HashAt(rest[..i], k) { assert HashAt(rest[..i], k) ==> HashAt(rest, k); }
      }
      forall k | HashAt(rest, k) && i < k ensures !NoHash(rest[..k]) {
        assert HashAt(rest[..k], i);
      }
    }
  }

  lemma ContinuationExact(line: string, text: string)
    ensures Continuation(line) == Some(text) <==> IsContinuation(line, text)
    ensures Continuation(line) == None <==> !Continues(line)
  {
    hide Trim, TrimsTo, IsBlank;
    var core := TrimSpace(line);
    forall t ensures IsTrimOf(line, t) <==> t == core { TrimExact(line, c => IsBlank(c), t); }
    var body := if HasPrefix(core, "#") then core[1..] else core;
    TrimExact(body, c => IsBlank(c), text);
    assert HasPrefix(core, "#") <==> core != "" && core[0] == '#' by {
      if core != "" { assert core[..1] == [core[0]]; }
    }
    assert line != "" ==> line[..1] == [line[0]];
    BlankLine(line);
  }

  lemma BlankLine(line: string)
    ensures TrimSpace(line) != "" <==> exists i :: 0 <= i < |line| && !IsBlank(line[i])
  {
    hide IsBlank, Trim;
    var cut: char -> bool := c => IsBlank(c);
    var a, b := TrimPads(line, cut);
    var t := Trim(line, cut);
    assert line == a + t + b;
    if t != "" {
      assert line[|a|] == t[0];
    } else {
      forall i | 0 <= i < |line| ensures IsBlank(line[i]) {
        if i < |a| { assert line[i] == a[i] && cut(a[i]); } else { assert line[i] == b[i - |a|] && cut(b[i - |a|]); }
      }
    }
  }

  lemma {:induction false} ContinuationsExact(lines: seq<string>, texts: seq<string>)
    ensures Continuations(lines) == texts <==> AreContinuations(lines, texts)
  {
    hide Continuation, IsContinuation, Continues;
    if lines != [] {
      ContinuationExact(lines[0], "");
      if texts != [] {
        ContinuationExact(lines[0], texts[0]);
        ContinuationsExact(lines[1..], texts[1..]);
        assert texts == [texts[0]] + texts[1..];
        assert AreContinuations(lines, texts) <==>
               IsContinuation(lines[0], texts[0]) && AreContinuations(lines[1..], texts[1..]) by {
          TailContinuations(lines, texts);
        }
      }
    }
  }

  lemma TailContinuations(lines: seq<string>, texts: seq<string>)
    requires lines != [] && texts != []
    ensures AreContinuations(lines, texts) <==>
            IsContinuation(lines[0], texts[0]) && AreContinuations(lines[1..], texts[1..])
  {
    hide IsContinuation, Continues;
    if IsContinuation(lines[0], texts[0]) && AreContinuations(lines[1..], texts[1..]) {
      forall j | 0 <= j < |texts| ensures IsContinuation(lines[j], texts[j]) {
        if j > 0 { assert IsContinuation(lines[1..][j - 1], texts[1..][j - 1]); }
      }
    }
  }

  lemma {:induction false} ModuleInExact(lines: seq<string>, at: nat)
    requires FieldAt(lines, at)
    ensures var (value, comment) := SplitValueComment(lines[at][|FIELD|..]);
            ModuleIn(lines) == Some(Module(value, Join([comment] + Continuations(lines[at + 1..]), " ")))
    decreases at
  {
    hide SplitValueComment, Continuations, Join;
    if at > 0 {
      assert lines[1..][at - 1] == lines[at];
      assert lines[1..][at..] == lines[at + 1..];
      ModuleInExact(lines[1..], at - 1);
    }
  }

  lemma {:induction false} SomeField(lines: seq<string>) returns (at: nat)
    requires ModuleIn(lines).Some?
    ensures FieldAt(lines, at)
  {
    hide SplitValueComment, Continuations, Join;
    if HasPrefix(lines[0], FIELD) {
      at := 0;
    } else {
      at := SomeField(lines[1..]);
      at := at + 1;
    }
  }

  /** For every file: the module is that of the first field line, its value what stands before
      the first " #", its comment what follows, joined with the text of the indented lines
      up to the first blank or unindented one. */
  lemma ModuleExact(content: string, m: Module)
    ensures SdkModule(content) == Some(m) <==> IsModule(Split(content, '\n'), m)
  {
    hide Split, ModuleIn, FieldAt, IsFieldText, AreContinuations, SplitValueComment, Continuations, Join;
    var lines := Split(content, '\n');
    if SdkModule(content) == Some(m) {
      var at := SomeField(lines);
      ModuleInExact(lines, at);
      FieldIsLine(lines, at);
      var (value, comment) := SplitValueComment(lines[at][|FIELD|..]);
      var texts := Continuations(lines[at + 1..]);
      FieldTextExact(lines[at][|FIELD|..], value, comment);
      ContinuationsExact(lines[at + 1..], texts);
      assert IsModuleAt(lines, at, comment, texts, m);
    }
    if at: nat, comment, texts :| IsModuleAt(lines, at, comment, texts, m) {
      FieldIsLine(lines, at);
      ModuleInExact(lines, at);
      FieldTextExact(lines[at][|FIELD|..], m.value, comment);
      ContinuationsExact(lines[at + 1..], texts);
      assert m == Module(m.value, m.comment);
    }
  }

  lemma {:induction false} NoFieldExact(lines: seq<string>)
    ensures ModuleIn(lines) == None <==> forall line :: line in lines ==> !HasPrefix(line, "sdk_module:")
  {
    hide SplitValueComment, Continuations, Join, HasPrefix;
    if lines != [] {
      NoFieldExact(lines[1..]);
      assert lines == [lines[0]] + lines[1..];
    }
  }

  lemma FieldIsLine(lines: seq<string>, at: nat)
    requires FieldAt(lines, at)
    ensures at < |lines| && |FIELD| <= |lines[at]|
  {
  }

  // Printing a field with its comment wrapped over any number of lines.

  ghost predicate IsWord(w: string) {
    w != [] && forall i :: 0 <= i < |w| ==> !IsBlank(w[i])
  }

  ghost predicate AreWords(ws: seq<string>) {
    forall k :: 0 <= k < |ws| ==> IsWord(ws[k])
  }

  /** White space that does not end a line. */
  ghost predicate IsPad(s: string) {
    forall i :: 0 <= i < |s| ==> IsBlank(s[i]) && s[i] != '\n'
  }

  /** A continuation line: indentation, an optional "#", words, trailing white space. */
  datatype ContLine = ContLine(indent: string, hash: bool, gap: string, words: seq<string>, trail: string)

  ghost predicate ValidCont(l: ContLine) {
    l.indent != [] && (l.indent[0] == ' ' || l.indent[0] == '\t') && IsPad(l.indent) && IsPad(l.gap) && IsPad(l.trail) &&
    l.words != [] && AreWords(l.words) && (!l.hash ==> l.gap == [] && l.words[0][0] != '#')
  }

  function PrintWords(ws: seq<string>): string {
    Join(ws, " ")
  }

  function PrintCont(l: ContLine): string {
    l.indent + ((if l.hash then "#" else "") + (l.gap + PrintWords(l.words)) + l.trail)
  }

  /** The whole field: value, the words after "#" on its own line, then the wrapped rest. */
  datatype Wrapped = Wrapped(pad: string, value: string, trail: string, hash: bool, gap: string, first: seq<string>,
                             endPad: string, conts: seq<ContLine>)

  ghost predicate ValidWrapped(w: Wrapped) {
    IsPad(w.pad) && IsPad(w.trail) && IsPad(w.gap) && IsPad(w.endPad) && AreWords(w.first) &&
    IsTrimmed(w.value) && '\n' !in w.value && NoHash(w.pad + w.value + w.trail) &&
    (!w.hash ==> w.first == [] && w.gap == [] && w.endPad == []) &&
    forall k :: 0 <= k < |w.conts| ==> ValidCont(w.conts[k])
  }

  ghost predicate IsTrimmed(s: string) {
    s != [] ==> !IsBlank(s[0]) && !IsBlank(s[|s| - 1])
  }

  function PrintField(w: Wrapped): string {
    FIELD + (w.pad + w.value + w.trail + if w.hash then " #" + (w.gap + PrintWords(w.first) + w.endPad) else "")
  }

  function PrintConts(ls: seq<ContLine>): (r: seq<string>)
    ensures |r| == |ls| && forall k :: 0 <= k < |ls| ==> r[k] == PrintCont(ls[k])
  {
    seq(|ls|, k requires 0 <= k < |ls| => PrintCont(ls[k]))
  }

  /** All the words of the comment, in order. */
  function ContWords(ls: seq<ContLine>): seq<string> {
    if ls == [] then [] else ls[0].words + ContWords(ls[1..])
  }

  function AllWords(w: Wrapped): seq<string> {
    w.first + ContWords(w.conts)
  }

  // Trimming.

  lemma TrimPadded(a: string, s: string, b: string)
    requires (forall i :: 0 <= i < |a| ==> IsBlank(a[i])) && (forall i :: 0 <= i < |b| ==> IsBlank(b[i])) && IsTrimmed(s)
    ensures TrimSpace(a + s + b) == s
  {
    hide IsBlank;
    TrimOf(a, s, b, c => IsBlank(c));
  }

  // Recovering the value and the words.

  lemma {:induction false} WordsPrintTrimmed(ws: seq<string>)
    requires ws != [] && AreWords(ws)
    ensures var p := PrintWords(ws);
            p != [] && p[0] == ws[0][0] && !IsBlank(p[0]) && !IsBlank(p[|p| - 1]) && '\n' !in p
  {
    assert IsWord(ws[0]);
    assert '\n' !in ws[0];
    if |ws| > 1 {
      var rest := ws[1..];
      assert AreWords(rest) by { forall k | 0 <= k < |rest| ensures IsWord(rest[k]) { assert rest[k] == ws[k + 1]; } }
      WordsPrintTrimmed(rest);
      assert PrintWords(ws) == ws[0] + " " + PrintWords(rest);
    }
  }

  lemma {:induction false} CommentStartOf(x: string, c: string)
    requires CommentStart(x) < 0
    ensures CommentStart(x + " #" + c) == |x|
  {
    var s := x + " #" + c;
    if x == [] {
      assert s[0] == ' ' && s[1] == '#';
    } else {
      assert s[1..] == x[1..] + " #" + c;
      if |x| >= 2 { assert s[1] == x[1]; } else { assert s[1] == ' '; }
      assert s[0] == x[0];
      CommentStartOf(x[1..], c);
    }
  }

  lemma SplitPrinted(x: string, comment: string)
    requires CommentStart(x) < 0
    ensures SplitValueComment(x + (" #" + comment)) == (TrimSpace(x), TrimSpace(comment))
    ensures SplitValueComment(x) == (TrimSpace(x), "")
  {
    hide TrimSpace;
    CommentStartOf(x, comment);
    var s := x + " #" + comment;
    assert s == x + (" #" + comment);
    assert s[..|x|] == x && s[|x| + 2..] == comment;
  }

  lemma PadIsBlank(p: string)
    requires IsPad(p)
    ensures forall i :: 0 <= i < |p| ==> IsBlank(p[i])
  {
  }

  lemma WordsTrimBack(a: string, ws: seq<string>, b: string)
    requires IsPad(a) && IsPad(b) && AreWords(ws)
    ensures TrimSpace(a + PrintWords(ws) + b) == PrintWords(ws)
  {
    hide IsBlank, TrimSpace, Join;
    PadIsBlank(a);
    PadIsBlank(b);
    if ws != [] { WordsPrintTrimmed(ws); } else { NoWordsPrintNothing(); }
    TrimPadded(a, PrintWords(ws), b);
  }

  lemma NoWordsPrintNothing()
    ensures PrintWords([]) == ""
  {
  }

  lemma FieldSplits(w: Wrapped)
    requires ValidWrapped(w)
    ensures SplitValueComment(PrintField(w)[|FIELD|..]) == (w.value, PrintWords(w.first))
  {
    hide IsBlank, TrimSpace, SplitValueComment, Join, CommentStart;
    var x := w.pad + w.value + w.trail;
    var comment := w.gap + PrintWords(w.first) + w.endPad;
    SplitPrinted(x, comment);
    PadIsBlank(w.pad);
    PadIsBlank(w.trail);
    TrimPadded(w.pad, w.value, w.trail);
    WordsTrimBack(w.gap, w.first, w.endPad);
    DropField(x + if w.hash then " #" + comment else "");
    if !w.hash {
      assert x + "" == x;
      NoWordsPrintNothing();
    }
  }

  lemma DropField(s: string)
    ensures (FIELD + s)[|FIELD|..] == s && HasPrefix(FIELD + s, FIELD)
  {
  }

  lemma ContCore(l: ContLine) returns (core: string)
    requires ValidCont(l)
    ensures core == (if l.hash then "#" else "") + (l.gap + PrintWords(l.words))
    ensures PrintCont(l) == l.indent + core + l.trail && core != [] && IsTrimmed(core)
    ensures l.hash ==> core[0] == '#' && core[1..] == l.gap + PrintWords(l.words)
    ensures !l.hash ==> core == PrintWords(l.words) && core[0] != '#'
  {
    hide Join;
    WordsPrintTrimmed(l.words);
    var words := PrintWords(l.words);
    if l.hash {
      core := "#" + (l.gap + words);
      assert core[|core| - 1] == words[|words| - 1];
    } else {
      core := words;
      assert "" + (l.gap + words) == words;
    }
  }

  lemma ContinuationOf(l: ContLine)
    requires ValidCont(l)
    ensures Continuation(PrintCont(l)) == Some(PrintWords(l.words))
  {
    hide IsBlank, TrimSpace, PrintWords;
    var core := ContCore(l);
    PadIsBlank(l.indent);
    PadIsBlank(l.trail);
    TrimPadded(l.indent, core, l.trail);
    assert PrintCont(l)[0] == l.indent[0];
    assert PrintCont(l)[..1] == [l.indent[0]];
    if l.hash {
      assert core[..1] == "#";
      WordsTrimBack(l.gap, l.words, "");
      assert l.gap + PrintWords(l.words) + "" == l.gap + PrintWords(l.words);
    } else {
      assert core[..1] == [core[0]];
      WordsTrimBack("", l.words, "");
      assert "" + PrintWords(l.words) + "" == PrintWords(l.words);
    }
  }

  function Texts(ls: seq<ContLine>): seq<string> {
    if ls == [] then [] else [PrintWords(ls[0].words)] + Texts(ls[1..])
  }

  lemma {:induction false} ContinuationsOf(ls: seq<ContLine>, tail: seq<string>)
    requires (forall k :: 0 <= k < |ls| ==> ValidCont(ls[k])) && (tail == [] || Continuation(tail[0]) == None)
    ensures Continuations(PrintConts(ls) + tail) == Texts(ls)
  {
    hide Continuation, PrintCont, ValidCont, PrintWords;
    if ls == [] {
      assert PrintConts(ls) + tail == tail;
    } else {
      ContinuationOf(ls[0]);
      var lines := PrintConts(ls) + tail;
      assert lines[0] == PrintCont(ls[0]) && lines[1..] == PrintConts(ls[1..]) + tail;
      ContinuationsOf(ls[1..], tail);
    }
  }

  lemma {:induction false} JoinAppend(a: seq<string>, b: seq<string>)
    requires a != [] && b != []
    ensures Join(a + b, " ") == Join(a, " ") + " " + Join(b, " ")
  {
    if |a| == 1 {
      assert (a + b)[1..] == b;
    } else {
      assert (a + b)[1..] == a[1..] + b && (a + b)[0] == a[0];
      JoinAppend(a[1..], b);
      assert Join(a + b, " ") == a[0] + " " + (Join(a[1..], " ") + " " + Join(b, " "));
    }
  }

  lemma {:induction false} JoinTexts(first: string, ls: seq<ContLine>)
    requires forall k :: 0 <= k < |ls| ==> ls[k].words != []
    ensures Join([first] + Texts(ls), " ") == if ls == [] then first else first + " " + PrintWords(ContWords(ls))
    ensures ls != [] ==> ContWords(ls) != []
    decreases |ls|
  {
    if ls == [] {
      assert [first] + Texts(ls) == [first];
    } else {
      var head := PrintWords(ls[0].words);
      JoinTexts(head, ls[1..]);
      JoinCons(first, [head] + Texts(ls[1..]), " ");
      assert [first] + Texts(ls) == [first] + ([head] + Texts(ls[1..]));
      if |ls| > 1 {
        JoinAppend(ls[0].words, ContWords(ls[1..]));
      } else {
        assert ContWords(ls[1..]) == [];
        assert ls[0].words + [] == ls[0].words;
      }
    }
  }

  /** The comment text a wrapped field yields: its words single-spaced, after one extra
      space when the first line has none of them. */
  function CommentText(w: Wrapped): string {
    (if w.first == [] && w.conts != [] then " " else "") + PrintWords(AllWords(w))
  }

  lemma CommentJoined(w: Wrapped)
    requires ValidWrapped(w)
    ensures Join([PrintWords(w.first)] + Texts(w.conts), " ") == CommentText(w)
  {
    hide Join, IsPad, CommentStart;
    JoinTexts(PrintWords(w.first), w.conts);
    if w.conts == [] {
      assert ContWords([]) == [];
      assert w.first + [] == w.first;
    } else if w.first == [] {
      NoWordsPrintNothing();
      assert [] + ContWords(w.conts) == ContWords(w.conts);
    } else {
      JoinAppend(w.first, ContWords(w.conts));
    }
  }

  /** A file: lines before the field, the field, its continuation lines, and what ends them. */
  ghost predicate ValidFile(before: seq<string>, w: Wrapped, after: seq<string>) {
    ValidWrapped(w) && NoneContain(before, '\n') && NoneContain(after, '\n') &&
    (forall k :: 0 <= k < |before| ==> !HasPrefix(before[k], FIELD)) &&
    (after == [] || !Continues(after[0]))
  }

  function PrintFile(before: seq<string>, w: Wrapped, after: seq<string>): string {
    Join(before + [PrintField(w)] + (PrintConts(w.conts) + after), "\n")
  }

  lemma FieldIsOneLine(w: Wrapped)
    requires ValidWrapped(w)
    ensures '\n' !in PrintField(w)
    ensures NoneContain(PrintConts(w.conts), '\n')
  {
    hide Join, CommentStart;
    if w.first != [] { WordsPrintTrimmed(w.first); } else { NoWordsPrintNothing(); }
    forall k | 0 <= k < |w.conts| ensures '\n' !in PrintCont(w.conts[k]) {
      assert ValidCont(w.conts[k]);
      ContIsOneLine(w.conts[k]);
    }
  }

  lemma ContIsOneLine(l: ContLine)
    requires ValidCont(l)
    ensures '\n' !in PrintCont(l)
  {
    hide Join;
    WordsPrintTrimmed(l.words);
  }

  lemma {:induction false} ModuleAfter(before: seq<string>, rest: seq<string>)
    requires forall k :: 0 <= k < |before| ==> !HasPrefix(before[k], FIELD)
    ensures ModuleIn(before + rest) == ModuleIn(rest)
  {
    hide HasPrefix, SplitValueComment, Continuations;
    if before == [] {
      assert before + rest == rest;
    } else {
      assert (before + rest)[1..] == before[1..] + rest;
      ModuleAfter(before[1..], rest);
    }
  }

  lemma ModuleAtField(w: Wrapped, after: seq<string>)
    requires ValidWrapped(w) && (after == [] || !Continues(after[0]))
    ensures ModuleIn([PrintField(w)] + (PrintConts(w.conts) + after)) == Some(Module(w.value, CommentText(w)))
  {
    hide SplitValueComment, Continuations, Continuation, Continues, CommentText, PrintWords, CommentStart, IsPad, ValidCont;
    if after != [] { ContinuationExact(after[0], ""); }
    var lines := [PrintField(w)] + (PrintConts(w.conts) + after);
    assert lines[1..] == PrintConts(w.conts) + after;
    DropField(w.pad + w.value + w.trail + if w.hash then " #" + (w.gap + PrintWords(w.first) + w.endPad) else "");
    FieldSplits(w);
    ContinuationsOf(w.conts, after);
    CommentJoined(w);
  }

  /** However the words of the comment are wrapped, the value and the single-spaced words
      come back. */
  lemma WrappedFieldIsRecovered(before: seq<string>, w: Wrapped, after: seq<string>)
    requires ValidFile(before, w, after)
    ensures SdkModule(PrintFile(before, w, after)) == Some(Module(w.value, CommentText(w)))
  {
    hide PrintField, PrintConts, Split, Join, CommentText, ModuleIn, ValidWrapped, Continuation;
    var rest := [PrintField(w)] + (PrintConts(w.conts) + after);
    var lines := before + [PrintField(w)] + (PrintConts(w.conts) + after);
    assert lines == before + rest;
    FieldIsOneLine(w);
    assert NoneContain(lines, '\n');
    SplitOfJoin(lines, '\n');
    assert "\n" == ['\n'];
    ModuleAfter(before, rest);
    ModuleAtField(w, after);
  }
}
