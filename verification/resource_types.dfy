/** cli.go: deriving an AWS resource type from the resource part of an ARN. */
module ResourceTypes {
  import ArnRouter
  import opened Text

  const NESTED_SEGMENTS := 4

  /** `strings.IndexAny(s, "/:")`. */
  function IndexSlashOrColon(s: string): (i: int)
    ensures -1 <= i < |s|
  {
    if s == [] then -1
    else if s[0] == '/' || s[0] == ':' then 0
    else
      var r := IndexSlashOrColon(s[1..]);
      if r < 0 then -1 else r + 1
  }

  function ResourceTypeFromArn(arn: string, service: string): string {
    var parts := SplitN(arn, ':', ArnRouter.ARN_FIELDS);
    if |parts| != ArnRouter.ARN_FIELDS then service
    else
      var resource := parts[ArnRouter.ARN_FIELDS - 1];
      var i := IndexSlashOrColon(resource);
      if i >= 0 then service + ":" + resource[..i] else service
  }

  function NestedResourceType(arn: string, service: string): string {
    var parts := SplitN(arn, ':', ArnRouter.ARN_FIELDS);
    if |parts| != ArnRouter.ARN_FIELDS then service
    else
      var segs := Split(parts[ArnRouter.ARN_FIELDS - 1], '/');
      if |segs| == NESTED_SEGMENTS then service + ":" + segs[2] else ResourceTypeFromArn(arn, service)
  }

  function AppmeshResourceType(arn: string): string {
    var parts := SplitN(arn, ':', ArnRouter.ARN_FIELDS);
    if |parts| != ArnRouter.ARN_FIELDS then "appmesh"
    else
      var segs := Split(parts[ArnRouter.ARN_FIELDS - 1], '/');
      if |segs| >= 2 && |segs| % 2 == 0 then "appmesh:" + segs[|segs| - 2] else "appmesh"
  }

  // Building ARNs.

  datatype Pair = Pair(kind: string, id: string)

  function Segments(pairs: seq<Pair>): (r: seq<string>)
    ensures |r| == 2 * |pairs|
    ensures forall k :: 0 <= k < |pairs| ==> r[2 * k] == pairs[k].kind && r[2 * k + 1] == pairs[k].id
  {
    if pairs == [] then [] else Segments(pairs[..|pairs| - 1]) + [pairs[|pairs| - 1].kind, pairs[|pairs| - 1].id]
  }

  ghost predicate SlashFree(pairs: seq<Pair>) {
    forall k :: 0 <= k < |pairs| ==> '/' !in pairs[k].kind && '/' !in pairs[k].id
  }

  function Resource(pairs: seq<Pair>): string {
    Join(Segments(pairs), "/")
  }

  function MakeArn(fields: seq<string>, resource: string): string {
    Join(fields + [resource], ":")
  }

  ghost predicate ArnPrefix(fields: seq<string>) {
    |fields| == ArnRouter.ARN_FIELDS - 1 && NoneContain(fields, ':')
  }

  lemma {:induction false} SplitNOfJoin(fields: seq<string>, last: string)
    requires NoneContain(fields, ':')
    ensures SplitN(MakeArn(fields, last), ':', |fields| + 1) == fields + [last]
  {
    hide SplitN, IndexOf;
    if fields == [] {
      assert fields + [last] == [last];
      SplitNOnce(last);
    } else {
      var rest := fields[1..];
      assert NoneContain(rest, ':') by {
        forall k | 0 <= k < |rest| ensures ':' !in rest[k] { assert rest[k] == fields[k + 1]; }
      }
      assert fields + [last] == [fields[0]] + (rest + [last]);
      JoinCons(fields[0], rest + [last], ":");
      SplitNOfJoin(rest, last);
      assert ":" == [':'];
      SplitStep(fields[0], ':', MakeArn(rest, last));
    }
  }

  lemma SplitNOnce(s: string)
    ensures SplitN(s, ':', 1) == [s]
  {
  }

  lemma ArnParts(fields: seq<string>, resource: string)
    requires ArnPrefix(fields)
    ensures var parts := SplitN(MakeArn(fields, resource), ':', ArnRouter.ARN_FIELDS);
            |parts| == ArnRouter.ARN_FIELDS && parts[ArnRouter.ARN_FIELDS - 1] == resource
  {
    hide SplitN;
    SplitNOfJoin(fields, resource);
  }

  lemma SegmentsBack(pairs: seq<Pair>)
    requires pairs != [] && SlashFree(pairs)
    ensures Split(Resource(pairs), '/') == Segments(pairs)
  {
    hide Split, Join;
    var segs := Segments(pairs);
    assert NoneContain(segs, '/') by {
      forall k | 0 <= k < |segs| ensures '/' !in segs[k] {
        var p := pairs[k / 2];
        assert k == 2 * (k / 2) || k == 2 * (k / 2) + 1;
        assert segs[2 * (k / 2)] == p.kind && segs[2 * (k / 2) + 1] == p.id;
      }
    }
    SplitOfJoin(segs, '/');
    assert "/" == ['/'];
  }

  // The three derivations on every ARN. An ARN with five colons or more is five fields and a
  // resource; a resource is segments joined by slashes, and a first part with what follows it.

  /** An ARN with fewer colons has no type beyond its service. */
  lemma ShortArnHasNoType(arn: string, service: string)
    requires |Split(arn, ':')| < 6
    ensures ResourceTypeFromArn(arn, service) == service
    ensures NestedResourceType(arn, service) == service
    ensures AppmeshResourceType(arn) == "appmesh"
  {
    hide Split, SplitN;
    SplitNIsSplit(arn, ':', 6);
  }

  /** The flat type is the part of the resource before its first slash or colon; a resource
      without either has none. */
  lemma FlatTypeExact(fields: seq<string>, kind: string, rest: string, service: string)
    requires ArnPrefix(fields) && '/' !in kind && ':' !in kind
    requires rest == "" || rest[0] == '/' || rest[0] == ':'
    ensures ResourceTypeFromArn(MakeArn(fields, kind + rest), service) == if rest == "" then service else service + ":" + kind
  {
    hide SplitN, MakeArn, IndexSlashOrColon;
    ArnParts(fields, kind + rest);
    FirstSlashOrColon(kind, rest);
    assert (kind + rest)[..|kind|] == kind;
  }

  lemma {:induction false} FirstSlashOrColon(kind: string, rest: string)
    requires '/' !in kind && ':' !in kind
    requires rest == "" || rest[0] == '/' || rest[0] == ':'
    ensures IndexSlashOrColon(kind + rest) == if rest == "" then -1 else |kind|
  {
    if kind == [] {
      assert kind + rest == rest;
    } else {
      assert (kind + rest)[1..] == kind[1..] + rest;
      FirstSlashOrColon(kind[1..], rest);
    }
  }

  /** The nested type is the third of four segments; with any other number it is the flat one. */
  lemma NestedTypeExact(fields: seq<string>, segs: seq<string>, service: string)
    requires ArnPrefix(fields) && segs != [] && NoneContain(segs, '/')
    ensures var arn := MakeArn(fields, Join(segs, "/"));
            NestedResourceType(arn, service) ==
            if |segs| == 4 then service + ":" + segs[2] else ResourceTypeFromArn(arn, service)
  {
    hide SplitN, Split, MakeArn, Join, ResourceTypeFromArn;
    ArnParts(fields, Join(segs, "/"));
    SplitOfJoin(segs, '/');
    assert "/" == ['/'];
  }

  /** The App Mesh type is the last segment but one of an even number, and absent otherwise. */
  lemma AppmeshTypeExact(fields: seq<string>, segs: seq<string>)
    requires ArnPrefix(fields) && segs != [] && NoneContain(segs, '/')
    ensures AppmeshResourceType(MakeArn(fields, Join(segs, "/"))) ==
            if |segs| % 2 == 0 then "appmesh:" + segs[|segs| - 2] else "appmesh"
  {
    hide SplitN, Split, MakeArn, Join;
    ArnParts(fields, Join(segs, "/"));
    SplitOfJoin(segs, '/');
    assert "/" == ['/'];
  }

  /** The App Mesh type is the innermost kind, however deep the resource nests. */
  lemma AppmeshIsInnermostKind(fields: seq<string>, pairs: seq<Pair>)
    requires ArnPrefix(fields) && pairs != [] && SlashFree(pairs)
    ensures AppmeshResourceType(MakeArn(fields, Resource(pairs))) == "appmesh:" + pairs[|pairs| - 1].kind
  {
    hide SplitN, Split, MakeArn, Resource;
    ArnParts(fields, Resource(pairs));
    SegmentsBack(pairs);
    assert Segments(pairs)[2 * (|pairs| - 1)] == pairs[|pairs| - 1].kind;
  }

  /** The part of a kind before its first colon. */
  function UpToColon(kind: string): (r: string)
    ensures r <= kind
  {
    var i := IndexOf(kind, ':');
    if i < 0 then kind else kind[..i]
  }

  lemma {:induction false} FirstKindCut(kind: string, rest: string)
    requires '/' !in kind
    ensures IndexSlashOrColon(kind + ("/" + rest)) == |UpToColon(kind)|
    decreases |kind|
  {
    var s := kind + ("/" + rest);
    if kind == [] {
      assert s == "/" + rest;
    } else {
      assert s[0] == kind[0];
      if kind[0] != ':' {
        assert s[1..] == kind[1..] + ("/" + rest);
        assert '/' !in kind[1..];
        FirstKindCut(kind[1..], rest);
      }
    }
  }

  lemma ResourceStartsWithKind(pairs: seq<Pair>) returns (rest: string)
    requires pairs != []
    ensures Resource(pairs) == pairs[0].kind + ("/" + rest)
  {
    var segs := Segments(pairs);
    assert segs[0] == pairs[0].kind by { assert segs[2 * 0] == pairs[0].kind; }
    rest := Join(segs[1..], "/");
    JoinCons(segs[0], segs[1..], "/");
    assert segs == [segs[0]] + segs[1..];
    assert segs[0] + "/" + rest == segs[0] + ("/" + rest);
  }

  lemma FlatTypeIsFirstKind(fields: seq<string>, pairs: seq<Pair>, service: string)
    requires ArnPrefix(fields) && pairs != [] && SlashFree(pairs)
    ensures ResourceTypeFromArn(MakeArn(fields, Resource(pairs)), service) == service + ":" + UpToColon(pairs[0].kind)
  {
    hide SplitN, MakeArn, Resource, IndexSlashOrColon, UpToColon;
    ArnParts(fields, Resource(pairs));
    var rest := ResourceStartsWithKind(pairs);
    FirstKindCut(pairs[0].kind, rest);
    var n := |UpToColon(pairs[0].kind)|;
    assert (pairs[0].kind + ("/" + rest))[..n] == pairs[0].kind[..n];
  }

  /** The two derivations agree at depth two, and at any other depth exactly when the first
      kind, cut at its first colon, is the innermost one; at depth one that means the kind
      holds no colon. */
  lemma NestedAgreesWithAppmesh(fields: seq<string>, pairs: seq<Pair>)
    requires ArnPrefix(fields) && pairs != [] && SlashFree(pairs)
    ensures var arn := MakeArn(fields, Resource(pairs));
            NestedResourceType(arn, "appmesh") == AppmeshResourceType(arn) <==>
            |pairs| == 2 || UpToColon(pairs[0].kind) == pairs[|pairs| - 1].kind
    ensures UpToColon(pairs[0].kind) == pairs[0].kind <==> ':' !in pairs[0].kind
  {
    hide SplitN, Split, MakeArn, Resource, ResourceTypeFromArn, UpToColon, AppmeshResourceType;
    AppmeshIsInnermostKind(fields, pairs);
    FlatTypeIsFirstKind(fields, pairs, "appmesh");
    ArnParts(fields, Resource(pairs));
    SegmentsBack(pairs);
    assert |pairs| == 2 ==> Segments(pairs)[2 * 1] == pairs[1].kind;
    ColonCut(pairs[0].kind);
    SamePrefix("appmesh:", UpToColon(pairs[0].kind), pairs[|pairs| - 1].kind);
    assert "appmesh" + ":" == "appmesh:";
  }

  lemma ColonCut(kind: string)
    ensures UpToColon(kind) == kind <==> ':' !in kind
  {
  }

  lemma SamePrefix(p: string, a: string, b: string)
    ensures p + a == p + b <==> a == b
  {
    if p + a == p + b {
      assert a == (p + a)[|p|..] == (p + b)[|p|..] == b;
    }
  }
}
