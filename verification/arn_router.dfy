/** cli.go: which backend the Resource Groups Tagging API hands an ARN to. */
module ArnRouter {
  import opened Text

  const ARN_FIELDS := 6

  /** Scans for the first three colons, as the code does, instead of splitting. */
  predicate ArnServiceIs(a: string, service: string) {
    var first := IndexOf(a, ':');
    if first < 0 then false
    else
      var start := first + 1;
      var next := IndexOf(a[start..], ':');
      if next < 0 then false
      else
        var from := start + next + 1;
        var end := IndexOf(a[from..], ':');
        if end < 0 then false else a[from..from + end] == service
  }

  lemma ThirdFieldOf(a: string, tail: string, x: string, y: string, service: string)
    requires ':' !in x && ':' !in y && a == x + [':'] + (y + [':'] + tail)
    ensures ArnServiceIs(a, service) <==> IndexOf(tail, ':') >= 0 && tail[..IndexOf(tail, ':')] == service
    ensures Split(a, ':') == [x, y] + Split(tail, ':')
  {
    hide Split, IndexOf;
    var rest := y + [':'] + tail;
    SplitStep(x, ':', rest);
    SplitStep(y, ':', tail);
    IndexOfUnique(a, ':', |x|) by { assert a[..|x|] == x; }
    IndexOfUnique(rest, ':', |y|) by { assert rest[..|y|] == y; }
    assert a[|x| + 1..] == rest;
    assert a[|x| + 1 + |y| + 1..] == tail;
    var end := IndexOf(tail, ':');
    if end >= 0 {
      assert a[|x| + |y| + 2..|x| + |y| + 2 + end] == tail[..end];
    }
  }

  lemma ThirdField(a: string, tail: string, x: string, y: string, service: string)
    requires ':' !in x && ':' !in y && a == x + [':'] + (y + [':'] + tail)
    ensures ArnServiceIs(a, service) <==> |Split(a, ':')| >= 4 && Split(a, ':')[2] == service
  {
    hide Split, IndexOf, ArnServiceIs;
    ThirdFieldOf(a, tail, x, y, service);
    SplitUnfold(tail, ':');
    assert ([x, y] + Split(tail, ':'))[2] == Split(tail, ':')[0];
  }

  lemma CutTwice(a: string, i: nat, j: nat)
    requires i < |a| && j < |a[i + 1..]| && a[i] == ':' && a[i + 1..][j] == ':'
    ensures a == a[..i] + [':'] + (a[i + 1..][..j] + [':'] + a[i + 1..][j + 1..])
  {
    assert a == a[..i] + [a[i]] + a[i + 1..];
  }

  lemma TooFewColons(a: string, service: string)
    ensures ArnServiceIs(a, service) ==> IndexOf(a, ':') >= 0 && IndexOf(a[IndexOf(a, ':') + 1..], ':') >= 0
  {
    hide Split, IndexOf;
  }

  /** The scan accepts exactly the third field of a string with at least three colons. */
  lemma ArnServiceIsThirdField(a: string, service: string)
    ensures ArnServiceIs(a, service) <==> |Split(a, ':')| >= 4 && Split(a, ':')[2] == service
  {
    hide Split, IndexOf, ArnServiceIs;
    SplitUnfold(a, ':');
    TooFewColons(a, service);
    var i := IndexOf(a, ':');
    if i >= 0 {
      var rest := a[i + 1..];
      SplitUnfold(rest, ':');
      var j := IndexOf(rest, ':');
      if j >= 0 {
        var tail := rest[j + 1..];
        assert ':' !in a[..i] && ':' !in rest[..j];
        CutTwice(a, i, j);
        ThirdField(a, tail, a[..i], rest[..j], service);
      }
    }
  }

  lemma OneServicePerArn(a: string, s: string, t: string)
    requires ArnServiceIs(a, s) && ArnServiceIs(a, t)
    ensures s == t
  {
  }

  // Registrations. Every wiring function registers one tagger and one untagger under the
  // same guard; a service made through registerTaggingService is known by its token.

  datatype Registration =
    | Plain(token: string)
    | DocDB
    | Neptune
    | S3
    | S3Control

  const RDS := Plain("rds")

  /** What the DocumentDB and Neptune backends answer to HasTaggableResource. */
  datatype Backends = Backends(docdbHas: string -> bool, neptuneHas: string -> bool)

  predicate NeptuneOwnsArn(b: Backends, arn: string) {
    if ArnServiceIs(arn, "neptune") then true
    else if ArnServiceIs(arn, "rds") then b.neptuneHas(arn)
    else false
  }

  predicate S3OwnsArn(arn: string) {
    ArnServiceIs(arn, "s3") &&
    var parts := SplitN(arn, ':', ARN_FIELDS);
    |parts| == ARN_FIELDS && '/' !in parts[ARN_FIELDS - 1]
  }

  predicate S3ControlOwnsArn(arn: string) {
    if ArnServiceIs(arn, "s3-object-lambda") then true
    else if !ArnServiceIs(arn, "s3") then false
    else
      var parts := SplitN(arn, ':', ARN_FIELDS);
      |parts| == ARN_FIELDS && '/' in parts[ARN_FIELDS - 1]
  }

  predicate Handles(r: Registration, b: Backends, arn: string) {
    match r
    case Plain(token) => ArnServiceIs(arn, token)
    case DocDB => ArnServiceIs(arn, "rds") && b.docdbHas(arn)
    case Neptune => NeptuneOwnsArn(b, arn)
    case S3 => S3OwnsArn(arn)
    case S3Control => S3ControlOwnsArn(arn)
  }

  lemma S3TokensDisjoint(arn: string)
    ensures !(S3OwnsArn(arn) && S3ControlOwnsArn(arn))
  {
    if ArnServiceIs(arn, "s3") && ArnServiceIs(arn, "s3-object-lambda") {
      OneServicePerArn(arn, "s3", "s3-object-lambda");
    }
  }

  function PlainAll(tokens: seq<string>): (r: seq<Registration>)
    ensures |r| == |tokens| && forall k :: 0 <= k < |tokens| ==> r[k] == Plain(tokens[k])
  {
    seq(|tokens|, k requires 0 <= k < |tokens| => Plain(tokens[k]))
  }

  // The tokens passed to registerTaggingService, in wiring order.

  const CORE_A := [
    "dynamodb", "sqs", "sns", "lambda", "kms", "secretsmanager", "ecs", "athena", "glue"]

  const CORE_B := [
    "ecr", "kinesis", "states", "cloudfront", "eks", "batch", "wafv2", "backup", "elasticfilesystem"]

  const INFRA_A := [
    "elasticache", "redshift", "sagemaker", "firehose", "es", "logs", "mq", "elasticmapreduce"]

  const INFRA_B := [
    "grafana", "outposts", "resiliencehub", "directconnect", "mgn", "networkmanager", "lightsail"]

  const MISC := [
    "dax", "detective", "guardduty", "transfer", "cognito-idp", "appconfig", "codecommit", "servicediscovery",
    "memorydb"]

  const APPS_A := [
    "access-analyzer", "dlm", "ce", "mediapackage", "swf", "fis", "codeconnections", "mediastore"]

  const APPS_B := [
    "airflow", "pipes", "macie2", "managedblockchain", "mediaconvert", "datasync", "codedeploy", "inspector2"]

  const EXTRA := [
    "ram", "rekognition", "translate", "appstream", "mediatailor", "vpc-lattice", "codepipeline",
    "kinesisanalytics", "opsworks"]

  const SWEEP5_A := ["comprehend", "shield", "transcribe", "verifiedpermissions", "waf"]

  const SWEEP5_B := ["securityhub", "apprunner", "route53resolver", "timestream", "s3tables"]

  const SWEEP5_C := [
    "workmail", "mobiletargeting", "application-autoscaling", "codeartifact", "cleanrooms", "appmesh",
    "personalize"]

  const SWEEP5_D := [
    "ses", "xray", "config", "scheduler"]

  const SWEEP6 := [
    "appsync", "emr-serverless", "acm", "sso", "apigateway", "organizations"]

  const BEFORE_RDS: seq<Registration> := PlainAll(CORE_A) + PlainAll(CORE_B)

  const AFTER_RDS: seq<Registration> :=
    PlainAll(INFRA_A) + PlainAll(INFRA_B) + PlainAll(MISC) + PlainAll(APPS_A) + PlainAll(APPS_B) + PlainAll(EXTRA) +
    PlainAll(SWEEP5_A) + PlainAll(SWEEP5_B) + [S3, S3Control] + PlainAll(SWEEP5_C) + PlainAll(SWEEP5_D) +
    PlainAll(SWEEP6)

  /** Every registration, in the order wireResourceGroupsTagging makes them when every
      service is present. */
  const WIRED: seq<Registration> := BEFORE_RDS + [DocDB, Neptune, RDS] + AFTER_RDS

  /** Tokens whose ARNs a registration with a guard of its own claims without asking. */
  predicate Reserved(token: string) {
    token == "neptune" || token == "s3" || token == "s3-object-lambda"
  }

  /** All that order independence needs of a list of registrations. */
  ghost predicate TokensApart(regs: seq<Registration>) {
    forall r :: r in regs && r.Plain? ==> !Reserved(r.token)
  }

  predicate NoneReserved(tokens: seq<string>) {
    forall t :: t in tokens ==> !Reserved(t) && t != "rds"
  }

  lemma CoreAApart() ensures NoneReserved(CORE_A) {}
  lemma CoreBApart() ensures NoneReserved(CORE_B) {}
  lemma InfraAApart() ensures NoneReserved(INFRA_A) {}
  lemma InfraBApart() ensures NoneReserved(INFRA_B) {}
  lemma MiscApart() ensures NoneReserved(MISC) {}
  lemma AppsAApart() ensures NoneReserved(APPS_A) {}
  lemma AppsBApart() ensures NoneReserved(APPS_B) {}
  lemma ExtraApart() ensures NoneReserved(EXTRA) {}
  lemma Sweep5AApart() ensures NoneReserved(SWEEP5_A) {}
  lemma Sweep5BApart() ensures NoneReserved(SWEEP5_B) {}
  lemma Sweep5CApart() ensures NoneReserved(SWEEP5_C) {}
  lemma Sweep5DApart() ensures NoneReserved(SWEEP5_D) {}
  lemma Sweep6Apart() ensures NoneReserved(SWEEP6) {}

  // Dispatch: the first registration that handles the ARN gets it.

  datatype Choice = Unhandled | HandledBy(reg: Registration)

  function FirstHandler(regs: seq<Registration>, b: Backends, arn: string): Choice {
    if regs == [] then Unhandled
    else if Handles(regs[0], b, arn) then HandledBy(regs[0])
    else FirstHandler(regs[1..], b, arn)
  }

  predicate InRdsFamily(r: Registration) {
    r == DocDB || r == Neptune || r == RDS
  }

  function FamilyOnly(regs: seq<Registration>): seq<Registration> {
    if regs == [] then [] else (if InRdsFamily(regs[0]) then [regs[0]] else []) + FamilyOnly(regs[1..])
  }

  predicate ClaimsApart(r: Registration) {
    r.Plain? ==> !Reserved(r.token)
  }

  function TokenOf(arn: string): string {
    var fields := Split(arn, ':');
    if |fields| >= 4 then fields[2] else ""
  }

  /** Outside the RDS family an ARN has at most one taker. */
  lemma TwoTakersAreRdsFamily(r: Registration, q: Registration, b: Backends, arn: string)
    requires ClaimsApart(r) && ClaimsApart(q) && r != q
    requires Handles(r, b, arn) && Handles(q, b, arn)
    ensures InRdsFamily(r) && InRdsFamily(q)
  {
    TakerToken(r, b, arn);
    TakerToken(q, b, arn);
    S3TokensDisjoint(arn);
  }

  lemma TakerToken(r: Registration, b: Backends, arn: string)
    requires Handles(r, b, arn)
    ensures match r
            case Plain(token) => TokenOf(arn) == token
            case DocDB => TokenOf(arn) == "rds"
            case Neptune => TokenOf(arn) == "neptune" || TokenOf(arn) == "rds"
            case S3 => TokenOf(arn) == "s3"
            case S3Control => TokenOf(arn) == "s3" || TokenOf(arn) == "s3-object-lambda"
  {
    hide ArnServiceIs, Split, SplitN;
    match r
    case Plain(token) => ArnServiceIsThirdField(arn, token);
    case DocDB => ArnServiceIsThirdField(arn, "rds");
    case Neptune => ArnServiceIsThirdField(arn, "rds"); ArnServiceIsThirdField(arn, "neptune");
    case S3 => ArnServiceIsThirdField(arn, "s3");
    case S3Control => ArnServiceIsThirdField(arn, "s3"); ArnServiceIsThirdField(arn, "s3-object-lambda");
  }

  lemma {:induction false} OnlyTakerWins(regs: seq<Registration>, r: Registration, b: Backends, arn: string)
    requires r in regs && Handles(r, b, arn)
    requires forall q :: q in regs && Handles(q, b, arn) ==> q == r
    ensures FirstHandler(regs, b, arn) == HandledBy(r)
  {
    hide Handles;
    if regs[0] != r {
      assert regs[0] in regs && r in regs[1..];
      OnlyTakerWins(regs[1..], r, b, arn);
    }
  }

  lemma {:induction false} FamilyDecides(regs: seq<Registration>, b: Backends, arn: string)
    requires forall q :: q in regs && Handles(q, b, arn) ==> InRdsFamily(q)
    ensures FirstHandler(regs, b, arn) == FirstHandler(FamilyOnly(regs), b, arn)
  {
    hide Handles;
    if regs != [] {
      assert regs[0] in regs;
      FamilyDecides(regs[1..], b, arn);
      var rest := FamilyOnly(regs[1..]);
      if InRdsFamily(regs[0]) {
        assert FamilyOnly(regs) == [regs[0]] + rest;
        assert ([regs[0]] + rest)[1..] == rest;
      } else {
        assert FamilyOnly(regs) == [] + rest == rest;
      }
    }
  }

  /** The chosen backend does not depend on the order of the registrations, as long as
      DocumentDB, Neptune and RDS keep their order among themselves. */
  lemma DispatchOrderIndependent(regs: seq<Registration>, other: seq<Registration>, b: Backends, arn: string)
    requires TokensApart(regs) && multiset(regs) == multiset(other)
    requires FamilyOnly(regs) == FamilyOnly(other)
    ensures FirstHandler(regs, b, arn) == FirstHandler(other, b, arn)
  {
    hide Handles, FamilyOnly, FirstHandler;
    forall r ensures r in regs <==> r in other {
      assert r in multiset(regs) <==> r in multiset(other);
    }
    if r :| r in regs && Handles(r, b, arn) && !InRdsFamily(r) {
      forall q | q in regs && Handles(q, b, arn) ensures q == r {
        if q != r { TwoTakersAreRdsFamily(r, q, b, arn); }
      }
      OnlyTakerWins(regs, r, b, arn);
      OnlyTakerWins(other, r, b, arn);
    } else {
      FamilyDecides(regs, b, arn);
      FamilyDecides(other, b, arn);
    }
  }

  /** Why the three keep their order: with RDS registered first among them, neither
      DocumentDB nor Neptune ever receives an "rds" ARN, whatever they own. */
  lemma RdsFirstShadowsTheOthers(regs: seq<Registration>, b: Backends, arn: string)
    requires TokensApart(regs) && ArnServiceIs(arn, "rds")
    requires FamilyOnly(regs) != [] && FamilyOnly(regs)[0] == RDS
    ensures FirstHandler(regs, b, arn) == HandledBy(RDS)
  {
    hide ArnServiceIs, FamilyOnly;
    forall q | q in regs && Handles(q, b, arn) ensures InRdsFamily(q) {
      if q != RDS { TwoTakersAreRdsFamily(q, RDS, b, arn); }
    }
    FamilyDecides(regs, b, arn);
  }

  // The routing table the wired registrations amount to.

  predicate PlainToken(t: string) {
    t in CORE_A || t in CORE_B || t in INFRA_A || t in INFRA_B || t in MISC || t in APPS_A || t in APPS_B ||
    t in EXTRA || t in SWEEP5_A || t in SWEEP5_B || t in SWEEP5_C || t in SWEEP5_D ||
    t in SWEEP6
  }

  function Route(b: Backends, arn: string): Choice {
    var token := TokenOf(arn);
    if token == "rds" then
      HandledBy(if b.docdbHas(arn) then DocDB else if b.neptuneHas(arn) then Neptune else RDS)
    else if token == "neptune" then HandledBy(Neptune)
    else if token == "s3-object-lambda" then HandledBy(S3Control)
    else if token == "s3" then
      var parts := SplitN(arn, ':', ARN_FIELDS);
      if |parts| < ARN_FIELDS then Unhandled
      else if '/' in parts[ARN_FIELDS - 1] then HandledBy(S3Control)
      else HandledBy(S3)
    else if PlainToken(token) then HandledBy(Plain(token))
    else Unhandled
  }

  lemma TokenIs(arn: string, token: string)
    requires token != ""
    ensures ArnServiceIs(arn, token) <==> TokenOf(arn) == token
  {
    hide ArnServiceIs, Split;
    ArnServiceIsThirdField(arn, token);
  }

  ghost predicate IsWired(r: Registration) {
    InRdsFamily(r) || r == S3 || r == S3Control || (r.Plain? && PlainToken(r.token))
  }

  lemma WiredHolds(r: Registration)
    ensures r in WIRED <==> IsWired(r)
    ensures r in BEFORE_RDS || r in AFTER_RDS ==> r == S3 || r == S3Control || (r.Plain? && PlainToken(r.token))
  {
    InPlainAll(CORE_A, r);
    InPlainAll(CORE_B, r);
    InPlainAll(INFRA_A, r);
    InPlainAll(INFRA_B, r);
    InPlainAll(MISC, r);
    InPlainAll(APPS_A, r);
    InPlainAll(APPS_B, r);
    InPlainAll(EXTRA, r);
    InPlainAll(SWEEP5_A, r);
    InPlainAll(SWEEP5_B, r);
    InPlainAll(SWEEP5_C, r);
    InPlainAll(SWEEP5_D, r);
    InPlainAll(SWEEP6, r);
  }

  lemma InPlainAll(tokens: seq<string>, r: Registration)
    ensures r in PlainAll(tokens) <==> r.Plain? && r.token in tokens
  {
    if r.Plain? && r.token in tokens {
      var k :| 0 <= k < |tokens| && tokens[k] == r.token;
      assert PlainAll(tokens)[k] == r;
    }
  }

  lemma PlainTokenNotReserved(t: string)
    requires PlainToken(t)
    ensures !Reserved(t) && t != "rds"
  {
    hide PlainToken, Reserved;
    PlainTokenGroup(t);
    var group :| t in group && NoneReserved(group);
  }

  lemma PlainTokenGroup(t: string)
    requires PlainToken(t)
    ensures exists group: seq<string> :: t in group && NoneReserved(group)
  {
    hide NoneReserved;
    CoreAApart(); CoreBApart(); InfraAApart(); InfraBApart(); MiscApart(); AppsAApart(); AppsBApart();
    ExtraApart(); Sweep5AApart(); Sweep5BApart(); Sweep5CApart(); Sweep5DApart(); Sweep6Apart();
  }

  lemma WiredTokensApart()
    ensures TokensApart(WIRED)
  {
    hide PlainToken, Reserved;
    forall r | r in WIRED && r.Plain? ensures !Reserved(r.token) {
      WiredHolds(r);
      if r != RDS { PlainTokenNotReserved(r.token); } else { RdsNotReserved(); }
    }
  }

  lemma RdsNotReserved()
    ensures !Reserved("rds")
  {
  }

  /** A registration of the wired list takes the ARN iff the routing table can send it there. */
  lemma WiredTakers(r: Registration, b: Backends, arn: string)
    requires IsWired(r) && !InRdsFamily(r) && Handles(r, b, arn)
    ensures Route(b, arn) == HandledBy(r)
  {
    hide PlainToken, Split, ArnServiceIs;
    TakerToken(r, b, arn);
    match r
    case Plain(token) => PlainTokenNotReserved(token);
    case S3 => {}
    case S3Control => { TokenIs(arn, "s3-object-lambda"); TokenIs(arn, "s3"); }
  }

  lemma {:induction false} NoFamily(regs: seq<Registration>)
    requires forall r :: r in regs ==> !InRdsFamily(r)
    ensures FamilyOnly(regs) == []
  {
    hide InRdsFamily;
    if regs != [] {
      assert regs[0] in regs;
      NoFamily(regs[1..]);
    }
  }

  lemma {:induction false} FamilyAppend(a: seq<Registration>, b: seq<Registration>)
    ensures FamilyOnly(a + b) == FamilyOnly(a) + FamilyOnly(b)
  {
    hide InRdsFamily;
    if a == [] {
      assert a + b == b;
    } else {
      assert (a + b)[1..] == a[1..] + b;
      FamilyAppend(a[1..], b);
      var head := if InRdsFamily(a[0]) then [a[0]] else [];
      AppendAssoc(head, FamilyOnly(a[1..]), FamilyOnly(b));
    }
  }

  lemma AppendAssoc(a: seq<Registration>, b: seq<Registration>, c: seq<Registration>)
    ensures a + (b + c) == (a + b) + c
  {
  }

  lemma FamilyOfWired()
    ensures FamilyOnly(WIRED) == [DocDB, Neptune, RDS]
  {
    hide PlainToken;
    forall r | r in BEFORE_RDS || r in AFTER_RDS ensures !InRdsFamily(r) {
      WiredHolds(r);
      if r.Plain? { PlainTokenNotReserved(r.token); }
    }
    NoFamily(BEFORE_RDS);
    NoFamily(AFTER_RDS);
    FamilyAppend(BEFORE_RDS + [DocDB, Neptune, RDS], AFTER_RDS);
    FamilyAppend(BEFORE_RDS, [DocDB, Neptune, RDS]);
    FamilyOfThree();
  }

  lemma FamilyOfThree()
    ensures FamilyOnly([DocDB, Neptune, RDS]) == [DocDB, Neptune, RDS]
  {
    FamilyCons(RDS, []);
    FamilyCons(Neptune, [RDS]);
    FamilyCons(DocDB, [Neptune, RDS]);
    assert [RDS] + [] == [RDS] && [Neptune] + [RDS] == [Neptune, RDS];
    assert [DocDB] + [Neptune, RDS] == [DocDB, Neptune, RDS];
  }

  lemma FamilyCons(r: Registration, regs: seq<Registration>)
    requires InRdsFamily(r)
    ensures FamilyOnly([r] + regs) == [r] + FamilyOnly(regs)
  {
    assert ([r] + regs)[1..] == regs;
  }

  lemma HandlerCons(r: Registration, regs: seq<Registration>, b: Backends, arn: string)
    ensures FirstHandler([r] + regs, b, arn) ==
            if Handles(r, b, arn) then HandledBy(r) else FirstHandler(regs, b, arn)
  {
    assert ([r] + regs)[1..] == regs;
  }

  lemma HandlerOfThree(b: Backends, arn: string)
    ensures FirstHandler([DocDB, Neptune, RDS], b, arn) ==
            if Handles(DocDB, b, arn) then HandledBy(DocDB)
            else if Handles(Neptune, b, arn) then HandledBy(Neptune)
            else if Handles(RDS, b, arn) then HandledBy(RDS)
            else Unhandled
  {
    hide Handles;
    HandlerCons(RDS, [], b, arn);
    HandlerCons(Neptune, [RDS], b, arn);
    HandlerCons(DocDB, [Neptune, RDS], b, arn);
    assert [RDS] + [] == [RDS] && [Neptune] + [RDS] == [Neptune, RDS];
    assert [DocDB] + [Neptune, RDS] == [DocDB, Neptune, RDS];
  }

  lemma FirstOfThree(b: Backends, arn: string)
    requires ArnServiceIs(arn, "rds")
    ensures FirstHandler([DocDB, Neptune, RDS], b, arn) == Route(b, arn)
  {
    hide Split, ArnServiceIs, PlainToken;
    TokenIs(arn, "rds");
    TokenIs(arn, "neptune");
    HandlerOfThree(b, arn);
  }

  lemma RouteTakes(b: Backends, arn: string)
    requires Route(b, arn).HandledBy?
    ensures IsWired(Route(b, arn).reg) && Handles(Route(b, arn).reg, b, arn)
  {
    hide PlainToken, Split, ArnServiceIs, SplitN;
    TokenIs(arn, "rds");
    TokenIs(arn, "neptune");
    TokenIs(arn, "s3");
    TokenIs(arn, "s3-object-lambda");
    var token := TokenOf(arn);
    if PlainToken(token) {
      PlainTokenNotEmpty(token);
      TokenIs(arn, token);
    }
  }

  lemma PlainTokenNotEmpty(t: string)
    requires PlainToken(t)
    ensures t != ""
  {
  }

  /** With every service wired, first-match dispatch over the ninety-nine registrations is
      the routing table, for every ARN and every answer of the two backends. */
  lemma WiredDispatchIsRoute(b: Backends, arn: string)
    ensures FirstHandler(WIRED, b, arn) == Route(b, arn)
  {
    hide PlainToken, Split, Handles, Route, ArnServiceIs, IsWired, InRdsFamily;
    forall r ensures r in WIRED <==> IsWired(r) { WiredHolds(r); }
    if r :| r in WIRED && Handles(r, b, arn) && !InRdsFamily(r) {
      forall q | q in WIRED && Handles(q, b, arn) ensures q == r {
        WiredTokensApart();
        if q != r { TwoTakersAreRdsFamily(r, q, b, arn); }
      }
      OnlyTakerWins(WIRED, r, b, arn);
      WiredTakers(r, b, arn);
    } else {
      FamilyDecides(WIRED, b, arn);
      FamilyOfWired();
      FamilyDispatch(b, arn);
    }
  }

  lemma FamilyDispatch(b: Backends, arn: string)
    requires forall r :: IsWired(r) && Handles(r, b, arn) ==> InRdsFamily(r)
    ensures FirstHandler([DocDB, Neptune, RDS], b, arn) == Route(b, arn)
  {
    hide PlainToken, Split, ArnServiceIs, SplitN;
    if ArnServiceIs(arn, "rds") {
      FirstOfThree(b, arn);
    } else {
      TokenIs(arn, "rds");
      TokenIs(arn, "neptune");
      HandlerOfThree(b, arn);
      if Route(b, arn).HandledBy? {
        RouteTakes(b, arn);
      }
    }
  }

  // The registry and the two loops that use it.

  datatype Failure = NoHandler | HandlerFailed

  /** `r` is the first registration that handles the ARN. */
  ghost predicate TakenBy(regs: seq<Registration>, b: Backends, arn: string, r: Registration) {
    exists k :: 0 <= k < |regs| && regs[k] == r && Handles(r, b, arn) &&
                forall j :: 0 <= j < k ==> !Handles(regs[j], b, arn)
  }

  ghost predicate Unclaimed(regs: seq<Registration>, b: Backends, arn: string) {
    forall k :: 0 <= k < |regs| ==> !Handles(regs[k], b, arn)
  }

  lemma {:induction false} FirstHandlerExact(regs: seq<Registration>, b: Backends, arn: string)
    ensures FirstHandler(regs, b, arn) == Unhandled <==> Unclaimed(regs, b, arn)
    ensures forall r :: FirstHandler(regs, b, arn) == HandledBy(r) <==> TakenBy(regs, b, arn, r)
  {
    hide Handles;
    if regs != [] {
      var rest := regs[1..];
      FirstHandlerExact(rest, b, arn);
      forall k | 0 < k < |regs| ensures regs[k] == rest[k - 1] {}
      forall r ensures FirstHandler(regs, b, arn) == HandledBy(r) <==> TakenBy(regs, b, arn, r) {
        TakenCons(regs, b, arn, r);
      }
    }
  }

  lemma TakenCons(regs: seq<Registration>, b: Backends, arn: string, r: Registration)
    requires regs != []
    ensures TakenBy(regs, b, arn, r) <==>
            if Handles(regs[0], b, arn) then r == regs[0] else TakenBy(regs[1..], b, arn, r)
  {
    hide Handles;
    var rest := regs[1..];
    if k :| 0 <= k < |rest| && rest[k] == r && Handles(r, b, arn) && forall j :: 0 <= j < k ==> !Handles(rest[j], b, arn) {
      if !Handles(regs[0], b, arn) {
        assert regs[k + 1] == r;
        forall j | 0 <= j < k + 1 ensures !Handles(regs[j], b, arn) {
          if j > 0 { assert regs[j] == rest[j - 1]; }
        }
      }
    }
    if k :| 0 <= k < |regs| && regs[k] == r && Handles(r, b, arn) && forall j :: 0 <= j < k ==> !Handles(regs[j], b, arn) {
      if k > 0 {
        assert rest[k - 1] == r;
        forall j | 0 <= j < k - 1 ensures !Handles(rest[j], b, arn) { assert rest[j] == regs[j + 1]; }
      }
    }
  }

  ghost predicate FailsOn(regs: seq<Registration>, b: Backends, fails: (Registration, string) -> bool, arn: string) {
    exists r :: TakenBy(regs, b, arn, r) && fails(r, arn)
  }

  /** Exactly the ARNs nobody handles and those whose first handler fails are reported. */
  ghost predicate Reports(failed: map<string, Failure>, arns: seq<string>, regs: seq<Registration>, b: Backends,
                          fails: (Registration, string) -> bool) {
    forall arn ::
      (arn in failed <==> arn in arns && (Unclaimed(regs, b, arn) || FailsOn(regs, b, fails, arn))) &&
      (arn in failed ==> failed[arn] == if Unclaimed(regs, b, arn) then NoHandler else HandlerFailed)
  }

  /** `ks` are the positions of the ARNs somebody handles, in request order. */
  ghost predicate HandledPositions(ks: seq<nat>, arns: seq<string>, regs: seq<Registration>, b: Backends) {
    (forall j :: 0 <= j < |ks| ==> ks[j] < |arns| && !Unclaimed(regs, b, arns[ks[j]])) &&
    (forall i, j :: 0 <= i < j < |ks| ==> ks[i] < ks[j]) &&
    forall k :: 0 <= k < |arns| && !Unclaimed(regs, b, arns[k]) ==> k in ks
  }

  /** Each handled ARN of the request is delivered once, in request order, to its first
      handler. */
  ghost predicate AreDeliveries(delivered: seq<(Registration, string)>, arns: seq<string>, regs: seq<Registration>, b: Backends) {
    exists ks :: HandledPositions(ks, arns, regs, b) && DeliveredAt(delivered, ks, arns, regs, b)
  }

  ghost predicate DeliveredAt(delivered: seq<(Registration, string)>, ks: seq<nat>, arns: seq<string>,
                              regs: seq<Registration>, b: Backends) {
    |delivered| == |ks| &&
    forall j :: 0 <= j < |ks| ==>
      ks[j] < |arns| && delivered[j].1 == arns[ks[j]] && TakenBy(regs, b, delivered[j].1, delivered[j].0)
  }

  /** services/resourcegroupstaggingapi: the loop shared by TagResources and UntagResources. */
  method RouteAll(regs: seq<Registration>, b: Backends, fails: (Registration, string) -> bool, arns: seq<string>)
    returns (failed: map<string, Failure>, delivered: seq<(Registration, string)>)
    ensures Reports(failed, arns, regs, b, fails)
    ensures AreDeliveries(delivered, arns, regs, b)
  {
    hide Handles, FirstHandler, TakenBy, Unclaimed, Reports, HandledPositions, DeliveredAt;
    failed, delivered := map[], [];
    ghost var ks: seq<nat> := [];
    NothingRouted(regs, b, fails);
    for i := 0 to |arns|
      invariant Reports(failed, arns[..i], regs, b, fails)
      invariant HandledPositions(ks, arns[..i], regs, b) && DeliveredAt(delivered, ks, arns[..i], regs, b)
    {
      var arn := arns[i];
      var choice := FindHandler(regs, b, arn);
      FirstHandlerExact(regs, b, arn);
      ReportsSnoc(failed, arns, i, regs, b, fails);
      DeliveriesSnoc(delivered, ks, arns, i, regs, b);
      match choice {
        case Unhandled =>
          failed := failed[arn := NoHandler];
        case HandledBy(r) =>
          delivered := delivered + [(r, arn)];
          ks := ks + [i];
          if fails(r, arn) {
            failed := failed[arn := HandlerFailed];
          }
      }
    }
    assert arns[..|arns|] == arns;
  }

  lemma NothingRouted(regs: seq<Registration>, b: Backends, fails: (Registration, string) -> bool)
    ensures Reports(map[], [], regs, b, fails)
    ensures HandledPositions([], [], regs, b) && DeliveredAt([], [], [], regs, b)
  {
  }

  lemma OneTaker(regs: seq<Registration>, b: Backends, arn: string, r: Registration, q: Registration)
    requires TakenBy(regs, b, arn, r) && TakenBy(regs, b, arn, q)
    ensures r == q
  {
    FirstHandlerExact(regs, b, arn);
  }

  lemma ReportsSnoc(failed: map<string, Failure>, arns: seq<string>, i: nat, regs: seq<Registration>, b: Backends,
                    fails: (Registration, string) -> bool)
    requires i < |arns| && Reports(failed, arns[..i], regs, b, fails)
    ensures Unclaimed(regs, b, arns[i]) ==> Reports(failed[arns[i] := NoHandler], arns[..i + 1], regs, b, fails)
    ensures forall r :: TakenBy(regs, b, arns[i], r) && !Unclaimed(regs, b, arns[i]) ==>
              Reports(if fails(r, arns[i]) then failed[arns[i] := HandlerFailed] else failed, arns[..i + 1], regs, b, fails)
  {
    hide Handles, TakenBy, Unclaimed;
    assert arns[..i + 1] == arns[..i] + [arns[i]];
    forall r | TakenBy(regs, b, arns[i], r) && !Unclaimed(regs, b, arns[i])
      ensures FailsOn(regs, b, fails, arns[i]) <==> fails(r, arns[i])
    {
      if q :| TakenBy(regs, b, arns[i], q) && fails(q, arns[i]) {
        OneTaker(regs, b, arns[i], r, q);
      }
    }
    hide FailsOn;
  }

  lemma DeliveriesSnoc(delivered: seq<(Registration, string)>, ks: seq<nat>, arns: seq<string>, i: nat,
                       regs: seq<Registration>, b: Backends)
    requires i < |arns| && HandledPositions(ks, arns[..i], regs, b) && DeliveredAt(delivered, ks, arns[..i], regs, b)
    ensures Unclaimed(regs, b, arns[i]) ==>
              HandledPositions(ks, arns[..i + 1], regs, b) && DeliveredAt(delivered, ks, arns[..i + 1], regs, b)
    ensures forall r :: TakenBy(regs, b, arns[i], r) && !Unclaimed(regs, b, arns[i]) ==>
              HandledPositions(ks + [i], arns[..i + 1], regs, b) &&
              DeliveredAt(delivered + [(r, arns[i])], ks + [i], arns[..i + 1], regs, b)
  {
    hide Handles, TakenBy, Unclaimed;
    forall k | 0 <= k < i ensures arns[..i + 1][k] == arns[..i][k] {}
    assert arns[..i + 1][i] == arns[i];
    assert (ks + [i])[|ks|] == i;
  }

  method FindHandler(regs: seq<Registration>, b: Backends, arn: string) returns (choice: Choice)
    ensures choice == FirstHandler(regs, b, arn)
  {
    hide Handles;
    for i := 0 to |regs|
      invariant FirstHandler(regs, b, arn) == FirstHandler(regs[i..], b, arn)
    {
      assert regs[i..][1..] == regs[i + 1..];
      if Handles(regs[i], b, arn) {
        return HandledBy(regs[i]);
      }
    }
    return Unhandled;
  }

  /** The tagging backend's registry. Each wiring function registers a tagger and an
      untagger under one guard. */
  class Registry {
    var taggers: seq<Registration>
    var untaggers: seq<Registration>

    ghost predicate Valid()
      reads this
    {
      taggers == untaggers
    }

    constructor ()
      ensures Valid() && taggers == []
    {
      taggers, untaggers := [], [];
    }

    method Register(r: Registration)
      requires Valid()
      modifies this
      ensures Valid() && taggers == old(taggers) + [r]
    {
      taggers := taggers + [r];
      untaggers := untaggers + [r];
    }

    method TagResources(b: Backends, fails: (Registration, string) -> bool, arns: seq<string>)
      returns (failed: map<string, Failure>, delivered: seq<(Registration, string)>)
      ensures Reports(failed, arns, taggers, b, fails)
      ensures AreDeliveries(delivered, arns, taggers, b)
    {
      failed, delivered := RouteAll(taggers, b, fails, arns);
    }

    /** Untagging reaches the backends tagging reaches. */
    method UntagResources(b: Backends, fails: (Registration, string) -> bool, arns: seq<string>)
      returns (failed: map<string, Failure>, delivered: seq<(Registration, string)>)
      requires Valid()
      ensures Reports(failed, arns, taggers, b, fails)
      ensures AreDeliveries(delivered, arns, taggers, b)
    {
      failed, delivered := RouteAll(untaggers, b, fails, arns);
    }
  }
}
