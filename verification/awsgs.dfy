/** cmd/awsgs/main.go: stripping the wrapper's own flags and injecting the endpoint. */
module Awsgs {
  import opened Text

  const FLAG_PORT: string := "--awsgs-port"
  const FLAG_HOST: string := "--awsgs-host"
  const FLAG_ENDPOINT: string := "--endpoint-url"
  const DEFAULT_HOST: string := "localhost"

  datatype Parsed = Parsed(host: string, port: string, rest: seq<string>)

  /** What one argument is to parseAwsgsFlags. */
  datatype Shape = PortFlag | PortSetting(port: string) | HostFlag | HostSetting(host: string) | AwsArg

  function ShapeOf(arg: string): Shape {
    if arg == FLAG_PORT then PortFlag
    else if HasPrefix(arg, FLAG_PORT + "=") then PortSetting(arg[|FLAG_PORT| + 1..])
    else if arg == FLAG_HOST then HostFlag
    else if HasPrefix(arg, FLAG_HOST + "=") then HostSetting(arg[|FLAG_HOST| + 1..])
    else AwsArg
  }

  /** `port` is the one resolvePort found in the environment. */
  method ParseAwsgsFlags(args: seq<string>, port: string) returns (p: Parsed)
    ensures p == ParseFrom(args, Parsed(DEFAULT_HOST, port, []))
  {
    hide HasPrefix;
    p := Parsed(DEFAULT_HOST, port, []);
    var i := 0;
    while i < |args|
      invariant 0 <= i <= |args|
      invariant ParseFrom(args, Parsed(DEFAULT_HOST, port, [])) == ParseFrom(args[i..], p)
    {
      var arg := args[i];
      assert args[i..][1..] == args[i + 1..];
      assert i + 1 < |args| ==> args[i..][2..] == args[i + 2..];
      if arg == FLAG_PORT {
        if i + 1 < |args| {
          p := p.(port := args[i + 1]);
          i := i + 1;
        }
      } else if HasPrefix(arg, FLAG_PORT + "=") {
        PrefixLength(arg, FLAG_PORT + "=");
        p := p.(port := arg[|FLAG_PORT| + 1..]);
      } else if arg == FLAG_HOST {
        if i + 1 < |args| {
          p := p.(host := args[i + 1]);
          i := i + 1;
        }
      } else if HasPrefix(arg, FLAG_HOST + "=") {
        PrefixLength(arg, FLAG_HOST + "=");
        p := p.(host := arg[|FLAG_HOST| + 1..]);
      } else {
        p := p.(rest := p.rest + [arg]);
      }
      i := i + 1;
    }
  }

  lemma PrefixLength(s: string, p: string)
    requires HasPrefix(s, p)
    ensures |p| <= |s|
  {
  }

  /** The loop as a function: a flag without a following argument sets nothing. */
  function ParseFrom(args: seq<string>, p: Parsed): Parsed
    decreases |args|
  {
    if args == [] then p
    else
      match ShapeOf(args[0])
      case PortFlag => if |args| == 1 then p else ParseFrom(args[2..], p.(port := args[1]))
      case PortSetting(v) => ParseFrom(args[1..], p.(port := v))
      case HostFlag => if |args| == 1 then p else ParseFrom(args[2..], p.(host := args[1]))
      case HostSetting(v) => ParseFrom(args[1..], p.(host := v))
      case AwsArg => ParseFrom(args[1..], p.(rest := p.rest + [args[0]]))
  }

  // Command lines put together from settings and aws arguments.

  /** A setting, in the two-word or the "=" form, or an argument for aws. */
  datatype Piece =
    | PortWords(value: string)
    | PortEquals(value: string)
    | HostWords(value: string)
    | HostEquals(value: string)
    | Aws(arg: string)

  /** Neither flag, nor either flag with a value behind "=". */
  ghost predicate IsAwsArg(arg: string) {
    arg != "--awsgs-port" && arg != "--awsgs-host" &&
    forall value: string :: arg != "--awsgs-port=" + value && arg != "--awsgs-host=" + value
  }

  ghost predicate ValidPiece(p: Piece) {
    p.Aws? ==> IsAwsArg(p.arg)
  }

  lemma AwsArgExact(arg: string)
    ensures ShapeOf(arg) == AwsArg <==> IsAwsArg(arg)
  {
    if ShapeOf(arg) == AwsArg {
      forall value: string ensures arg != "--awsgs-port=" + value && arg != "--awsgs-host=" + value {
        ShapeOfEquals(value);
      }
    } else if HasPrefix(arg, FLAG_PORT + "=") {
      assert arg == "--awsgs-port=" + arg[|FLAG_PORT| + 1..];
    } else if HasPrefix(arg, FLAG_HOST + "=") {
      assert arg == "--awsgs-host=" + arg[|FLAG_HOST| + 1..];
    }
  }

  ghost predicate ValidPieces(ps: seq<Piece>) {
    forall k :: 0 <= k < |ps| ==> ValidPiece(ps[k])
  }

  function PrintPiece(p: Piece): (r: seq<string>)
    ensures r != []
  {
    match p
    case PortWords(v) => [FLAG_PORT, v]
    case PortEquals(v) => [FLAG_PORT + "=" + v]
    case HostWords(v) => [FLAG_HOST, v]
    case HostEquals(v) => [FLAG_HOST + "=" + v]
    case Aws(arg) => [arg]
  }

  function Print(ps: seq<Piece>): seq<string> {
    if ps == [] then [] else PrintPiece(ps[0]) + Print(ps[1..])
  }

  function AwsArgs(ps: seq<Piece>): seq<string> {
    if ps == [] then [] else (if ps[0].Aws? then [ps[0].arg] else []) + AwsArgs(ps[1..])
  }

  function LastPort(ps: seq<Piece>, default: string): string {
    if ps == [] then default
    else LastPort(ps[1..], if ps[0].PortWords? || ps[0].PortEquals? then ps[0].value else default)
  }

  function LastHost(ps: seq<Piece>, default: string): string {
    if ps == [] then default
    else LastHost(ps[1..], if ps[0].HostWords? || ps[0].HostEquals? then ps[0].value else default)
  }

  lemma ShapeOfEquals(v: string)
    ensures ShapeOf(FLAG_PORT + "=" + v) == PortSetting(v)
    ensures ShapeOf(FLAG_HOST + "=" + v) == HostSetting(v)
  {
    var p := FLAG_PORT + "=" + v;
    var h := FLAG_HOST + "=" + v;
    assert p[..|FLAG_PORT| + 1] == FLAG_PORT + "=" && p[|FLAG_PORT| + 1..] == v;
    assert h[..|FLAG_HOST| + 1] == FLAG_HOST + "=" && h[|FLAG_HOST| + 1..] == v;
    assert h[8] == 'h' && FLAG_PORT[8] == 'p';
    assert !HasPrefix(h, FLAG_PORT + "=") by {
      if |h| > |FLAG_PORT| { assert h[..|FLAG_PORT| + 1][8] == 'h'; }
    }
  }

  lemma ShapeOfFlags()
    ensures ShapeOf(FLAG_PORT) == PortFlag && ShapeOf(FLAG_HOST) == HostFlag
  {
    assert FLAG_HOST[8] == 'h' && FLAG_PORT[8] == 'p';
  }

  lemma ParsePiece(p: Piece, more: seq<string>, acc: Parsed)
    requires ValidPiece(p)
    ensures ParseFrom(PrintPiece(p) + more, acc) ==
            ParseFrom(more, match p
                            case PortWords(v) => acc.(port := v)
                            case PortEquals(v) => acc.(port := v)
                            case HostWords(v) => acc.(host := v)
                            case HostEquals(v) => acc.(host := v)
                            case Aws(arg) => acc.(rest := acc.rest + [arg]))
  {
    hide ShapeOf, IsAwsArg;
    ShapeOfFlags();
    if p.Aws? { AwsArgExact(p.arg); }
    var args := PrintPiece(p) + more;
    if p.PortWords? || p.HostWords? {
      assert args[2..] == more && args[1] == p.value;
    } else {
      assert args[1..] == more;
      if !p.Aws? { ShapeOfEquals(p.value); }
    }
  }

  lemma {:induction false} ParsePrinted(ps: seq<Piece>, tail: seq<string>, acc: Parsed)
    requires ValidPieces(ps)
    ensures ParseFrom(Print(ps) + tail, acc) ==
            ParseFrom(tail, Parsed(LastHost(ps, acc.host), LastPort(ps, acc.port), acc.rest + AwsArgs(ps)))
    decreases |ps|
  {
    hide ParseFrom, PrintPiece, ValidPiece;
    if ps == [] {
      assert Print(ps) + tail == tail;
      assert acc.rest + AwsArgs(ps) == acc.rest;
    } else {
      var p, more := ps[0], Print(ps[1..]) + tail;
      assert Print(ps) + tail == PrintPiece(p) + more;
      ParsePiece(p, more, acc);
      var next := match p
                  case PortWords(v) => acc.(port := v)
                  case PortEquals(v) => acc.(port := v)
                  case HostWords(v) => acc.(host := v)
                  case HostEquals(v) => acc.(host := v)
                  case Aws(arg) => acc.(rest := acc.rest + [arg]);
      ParsePrinted(ps[1..], tail, next);
      if p.Aws? {
        assert acc.rest + [p.arg] + AwsArgs(ps[1..]) == acc.rest + AwsArgs(ps);
      } else {
        assert AwsArgs(ps) == AwsArgs(ps[1..]);
      }
    }
  }

  /** Settings scattered anywhere among aws arguments leave those arguments verbatim and in
      order, and the last setting of each flag wins. */
  lemma SettingsAreStripped(ps: seq<Piece>, port: string)
    requires ValidPieces(ps)
    ensures ParseFrom(Print(ps), Parsed(DEFAULT_HOST, port, [])) ==
            Parsed(LastHost(ps, DEFAULT_HOST), LastPort(ps, port), AwsArgs(ps))
  {
    ParsePrinted(ps, [], Parsed(DEFAULT_HOST, port, []));
    assert Print(ps) + [] == Print(ps);
    assert [] + AwsArgs(ps) == AwsArgs(ps);
  }

  // Every command line has that form, apart from a flag left dangling at its end.

  datatype Read = Read(pieces: seq<Piece>, dangling: seq<string>)

  function ReadPieces(args: seq<string>): Read
    decreases |args|
  {
    if args == [] then Read([], [])
    else
      match ShapeOf(args[0])
      case PortFlag =>
        if |args| == 1 then Read([], args)
        else var r := ReadPieces(args[2..]); r.(pieces := [PortWords(args[1])] + r.pieces)
      case HostFlag =>
        if |args| == 1 then Read([], args)
        else var r := ReadPieces(args[2..]); r.(pieces := [HostWords(args[1])] + r.pieces)
      case PortSetting(v) => var r := ReadPieces(args[1..]); r.(pieces := [PortEquals(v)] + r.pieces)
      case HostSetting(v) => var r := ReadPieces(args[1..]); r.(pieces := [HostEquals(v)] + r.pieces)
      case AwsArg => var r := ReadPieces(args[1..]); r.(pieces := [Aws(args[0])] + r.pieces)
  }

  /** A word that is a setting of its own, or an aws argument, is that piece printed. */
  lemma SettingText(arg: string)
    ensures var s := ShapeOf(arg);
            (s.PortSetting? ==> ValidPiece(PortEquals(s.port)) && PrintPiece(PortEquals(s.port)) == [arg]) &&
            (s.HostSetting? ==> ValidPiece(HostEquals(s.host)) && PrintPiece(HostEquals(s.host)) == [arg]) &&
            (s.AwsArg? ==> ValidPiece(Aws(arg)) && PrintPiece(Aws(arg)) == [arg])
  {
    AwsArgExact(arg);
    hide IsAwsArg;
    if ShapeOf(arg).PortSetting? {
      assert arg == arg[..|FLAG_PORT| + 1] + arg[|FLAG_PORT| + 1..];
    }
    if ShapeOf(arg).HostSetting? {
      assert arg == arg[..|FLAG_HOST| + 1] + arg[|FLAG_HOST| + 1..];
    }
  }

  lemma PrintCons(p: Piece, ps: seq<Piece>)
    ensures Print([p] + ps) == PrintPiece(p) + Print(ps)
    ensures ValidPiece(p) && ValidPieces(ps) ==> ValidPieces([p] + ps)
  {
    assert ([p] + ps)[1..] == ps;
  }

  lemma {:induction false} ReadExact(args: seq<string>)
    ensures var r := ReadPieces(args);
            ValidPieces(r.pieces) && Print(r.pieces) + r.dangling == args &&
            (r.dangling == [] || (|r.dangling| == 1 && (r.dangling[0] == FLAG_PORT || r.dangling[0] == FLAG_HOST)))
    decreases |args|
  {
    hide ShapeOf, ValidPieces, Print, ValidPiece, PrintPiece;
    NothingPrinted();
    if args != [] {
      var s := ShapeOf(args[0]);
      if (s.PortFlag? || s.HostFlag?) && |args| > 1 {
        ReadExact(args[2..]);
        var r := ReadPieces(args[2..]);
        var p := if s.PortFlag? then PortWords(args[1]) else HostWords(args[1]);
        FlagText(args[0], args[1]);
        assert args == [args[0], args[1]] + args[2..];
        PrintedFirst(p, r.pieces, r.dangling);
      } else if !s.PortFlag? && !s.HostFlag? {
        ReadExact(args[1..]);
        var r := ReadPieces(args[1..]);
        var p := if s.PortSetting? then PortEquals(s.port) else if s.HostSetting? then HostEquals(s.host) else Aws(args[0]);
        SettingText(args[0]);
        assert args == [args[0]] + args[1..];
        PrintedFirst(p, r.pieces, r.dangling);
      } else {
        DanglingText(args[0]);
        assert [] + args == args;
      }
    }
  }

  lemma NothingPrinted()
    ensures Print([]) == [] && ValidPieces([])
  {
  }

  lemma FlagText(arg: string, value: string)
    ensures var s := ShapeOf(arg);
            (s.PortFlag? ==> ValidPiece(PortWords(value)) && PrintPiece(PortWords(value)) == [arg, value]) &&
            (s.HostFlag? ==> ValidPiece(HostWords(value)) && PrintPiece(HostWords(value)) == [arg, value])
  {
  }

  lemma DanglingText(arg: string)
    requires ShapeOf(arg).PortFlag? || ShapeOf(arg).HostFlag?
    ensures arg == FLAG_PORT || arg == FLAG_HOST
  {
  }

  lemma PrintedFirst(p: Piece, ps: seq<Piece>, dangling: seq<string>)
    requires ValidPiece(p) && ValidPieces(ps)
    ensures ValidPieces([p] + ps) && Print([p] + ps) + dangling == PrintPiece(p) + (Print(ps) + dangling)
  {
    hide Print, PrintPiece, ValidPiece;
    PrintCons(p, ps);
  }

  /** For every command line: what is forwarded is its aws arguments in order, the settings
      are the last ones, and a flag dangling at the end is dropped. */
  lemma EveryCommandLine(args: seq<string>, port: string)
    ensures var ps, dangling := ReadPieces(args).pieces, ReadPieces(args).dangling;
            ValidPieces(ps) && args == Print(ps) + dangling &&
            (dangling == [] || dangling == ["--awsgs-port"] || dangling == ["--awsgs-host"]) &&
            ParseFrom(args, Parsed(DEFAULT_HOST, port, [])) ==
            Parsed(LastHost(ps, DEFAULT_HOST), LastPort(ps, port), AwsArgs(ps))
  {
    hide ShapeOf;
    var r := ReadPieces(args);
    ReadExact(args);
    assert |r.dangling| == 1 ==> r.dangling == [r.dangling[0]];
    ParsePrinted(r.pieces, r.dangling, Parsed(DEFAULT_HOST, port, []));
    assert [] + AwsArgs(r.pieces) == AwsArgs(r.pieces);
    ShapeOfFlags();
  }

  // The endpoint.

  predicate IsEndpointFlag(arg: string) {
    arg == FLAG_ENDPOINT || HasPrefix(arg, FLAG_ENDPOINT + "=")
  }

  /** Some argument gives the endpoint, in the two-word or the "=" form. */
  ghost predicate GivesEndpoint(args: seq<string>) {
    exists k :: 0 <= k < |args| && GivesEndpointAs(args[k])
  }

  ghost predicate GivesEndpointAs(arg: string) {
    arg == "--endpoint-url" || exists value :: arg == "--endpoint-url=" + value
  }

  lemma EndpointFlagExact(arg: string)
    ensures IsEndpointFlag(arg) <==> GivesEndpointAs(arg)
  {
    if HasPrefix(arg, FLAG_ENDPOINT + "=") {
      assert arg == "--endpoint-url=" + arg[|FLAG_ENDPOINT| + 1..];
    }
    if value :| arg == "--endpoint-url=" + value {
      assert arg[..|FLAG_ENDPOINT| + 1] == FLAG_ENDPOINT + "=";
    }
  }

  ghost function BuildArgs(args: seq<string>, endpoint: string): seq<string> {
    if GivesEndpoint(args) then args else ["--endpoint-url", endpoint] + args
  }

  method BuildAwsArgs(args: seq<string>, endpoint: string) returns (r: seq<string>)
    ensures r == BuildArgs(args, endpoint)
  {
    for i := 0 to |args|
      invariant forall k :: 0 <= k < i ==> !GivesEndpointAs(args[k])
    {
      EndpointFlagExact(args[i]);
      if IsEndpointFlag(args[i]) {
        return args;
      }
    }
    return [FLAG_ENDPOINT, endpoint] + args;
  }

  /** An endpoint the user gave is left alone, an injected one comes first, and injecting
      again, whatever the second endpoint, changes nothing. */
  lemma EndpointInjectedOnce(args: seq<string>, endpoint: string, again: string)
    ensures var r := BuildArgs(args, endpoint);
            GivesEndpoint(r) && BuildArgs(r, again) == r &&
            (GivesEndpoint(args) ==> r == args) &&
            (!GivesEndpoint(args) ==> |r| == |args| + 2 && r[..2] == ["--endpoint-url", endpoint] && r[2..] == args)
  {
    var r := BuildArgs(args, endpoint);
    if !GivesEndpoint(args) {
      assert GivesEndpointAs(r[0]);
    }
  }
}
