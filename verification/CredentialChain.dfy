/**
 The credential chain of `crates/logit-aws/src/creds.rs`: five sources in order, the first that is
 there decides, and one that is there and fails ends the lookup.

 A host is what the chain reads: variables, files, and the answers of HTTP endpoints, each an
 arbitrary function. Message texts are left out; what is kept is which source spoke, the fault's
 class, the sources found absent, and every request made.
 */
module CredentialChain {
  import opened Text
  import Bytes
  import Profile
  import XmlText
  import opened Wrappers

  datatype Fault = Clean | Refused
  datatype Source = Environment | WebIdentity | SharedFiles | Container | Imds

  datatype Credentials = Credentials(
    accessKeyId: string, secretAccessKey: string, sessionToken: Option<string>, expires: Option<int>, source: Source)

  datatype FileRead = NotFound | Unreadable | Contents(text: string, size: nat)

  /** No answer, or a status and a body with what JSON it holds; `utf8` when it is valid UTF-8. */
  datatype Answer = Unreachable | Status(code: nat, body: string, utf8: bool, json: Option<Json>)

  /** The string fields of a credentials document. */
  datatype Json = Json(accessKeyId: Option<string>, secretAccessKey: Option<string>,
                       token: Option<string>, expiration: Option<string>)

  datatype Request =
    | Sts(region: string, role: string, token: string, session: Option<string>)
    | ContainerGet(url: string, authorization: Option<string>)
    | ImdsToken | ImdsRoles(session: Option<string>) | ImdsRole(role: string, session: Option<string>)

  /** What the chain reads. `supported` says which regions have an STS endpoint, `allowed` which full
      container URIs may be asked, and `instant` reads an expiry. */
  datatype Host = Host(
    variable: string -> Option<string>, file: string -> FileRead, answer: Request -> Answer,
    supported: string -> bool, allowed: string -> bool, instant: string -> Option<int>)

  /** A source's word, and what it asked on the way. */
  datatype Word = Found(c: Credentials) | Absent | Failed(fault: Fault)
  datatype Attempt = Attempt(word: Word, asked: seq<Request>)

  const MAX_BODY_BYTES: nat := 64 * 1024

  /** The variable, unless it's unset or blank. */
  function Var(h: Host, name: string): Option<string> {
    match h.variable(name)
    case None => None
    case Some(v) => if Trim(v) == [] then None else Some(v)
  }

  function Trimmed(v: Option<string>): Option<string> {
    match v
    case None => None
    case Some(s) => Some(Trim(s))
  }

  predicate IsSuccess(code: nat) { 200 <= code < 300 }

  function StatusClass(code: nat): Fault { if code == 429 || 500 <= code < 600 then Clean else Refused }

  // ---- The environment ----

  function FromEnvironment(h: Host): Attempt {
    var id, secret := Var(h, "AWS_ACCESS_KEY_ID"), Var(h, "AWS_SECRET_ACCESS_KEY");
    if id.Some? && secret.Some? then
      var token := Trimmed(Var(h, "AWS_SESSION_TOKEN"));
      Attempt(Found(Credentials(Trim(id.value), Trim(secret.value), token, None, Environment)), [])
    else if id.None? && secret.None? then Attempt(Absent, [])
    else Attempt(Failed(Refused), [])
  }

  // ---- Web identity ----

  /** A token file's trimmed text, unless it can't be read, is blank or is too long. */
  function TokenFile(h: Host, path: string): Option<string> {
    match h.file(path)
    case Contents(text, size) => if Trim(text) == [] || size > MAX_BODY_BYTES then None else Some(Trim(text))
    case _ => None
  }

  function XmlField(a: Answer, tag: string): Option<string>
    requires a.Status?
  {
    if a.utf8 then XmlText.ElementText(XmlText.Entity, a.body, tag) else None
  }

  function NonEmpty(v: Option<string>): Option<string> {
    if v.Some? && v.value != [] then v else None
  }

  function Expiry(h: Host, text: Option<string>): Option<int> {
    match text
    case None => None
    case Some(t) => h.instant(t)
  }

  function StsWord(h: Host, a: Answer): Word {
    match a
    case Unreachable => Failed(Clean)
    case Status(code, _, _, _) =>
      if !IsSuccess(code) then
        var fault := XmlField(a, "Code");
        if fault == Some("Throttling") || fault == Some("IDPCommunicationError") then Failed(Clean)
        else Failed(StatusClass(code))
      else
        var id, secret := NonEmpty(XmlField(a, "AccessKeyId")), NonEmpty(XmlField(a, "SecretAccessKey"));
        var token := NonEmpty(XmlField(a, "SessionToken"));
        if id.None? || secret.None? || token.None? then Failed(Refused)
        else Found(Credentials(id.value, secret.value, token, Expiry(h, XmlField(a, "Expiration")), WebIdentity))
  }

  /** What a source does before it asks anything: it isn't there, it is set up wrongly, or it asks. */
  datatype Setup = NotThere | Misconfigured | Asks(request: Request)

  function WebIdentitySetup(h: Host, region: string): Setup {
    var file, role := Var(h, "AWS_WEB_IDENTITY_TOKEN_FILE"), Var(h, "AWS_ROLE_ARN");
    if file.None? && role.None? then NotThere
    else if file.None? || role.None? then Misconfigured
    else
      var token := TokenFile(h, file.value);
      if token.None? || !h.supported(region) then Misconfigured
      else Asks(Sts(region, role.value, token.value, Var(h, "AWS_ROLE_SESSION_NAME")))
  }

  function FromWebIdentity(h: Host, region: string): Attempt {
    match WebIdentitySetup(h, region)
    case NotThere => Attempt(Absent, [])
    case Misconfigured => Attempt(Failed(Refused), [])
    case Asks(request) => Attempt(StsWord(h, h.answer(request)), [request])
  }

  // ---- The shared files ----

  const UNSUPPORTED_PROFILE_KEYS: set<string> := {
    "role_arn", "source_profile", "credential_source", "web_identity_token_file", "credential_process",
    "sso_session", "sso_start_url", "sso_account_id", "sso_role_name", "sso_region", "login_session"}

  /** A shared file's path: its variable's, or under `HOME`. */
  function SharedPath(h: Host, name: string, file: string): Option<string> {
    match Var(h, name)
    case Some(path) => Some(path)
    case None =>
      match Var(h, "HOME")
      case Some(home) => Some(home + (if home[|home| - 1] == '/' then ".aws/" else "/.aws/") + file)
      case None => None
  }

  /** The profile's keys in one file: an error, no such section, or the keys. */
  datatype FileKeys = Broken | NoSection | Section(keys: Profile.Keys)

  function KeysInFile(h: Host, path: Option<string>, config: bool, name: string): FileKeys {
    match path
    case None => NoSection
    case Some(p) =>
      match h.file(p)
      case NotFound => NoSection
      case Unreadable => Broken
      case Contents(text, _) =>
        match Profile.ProfileKeysOf(text, config, name)
        case None => NoSection
        case Some(keys) => Section(keys)
  }

  /** The profile over both files; the credentials file wins a key both set. */
  function ProfileKeys(h: Host, name: string): FileKeys {
    var config := KeysInFile(h, SharedPath(h, "AWS_CONFIG_FILE", "config"), true, name);
    var credentials := KeysInFile(h, SharedPath(h, "AWS_SHARED_CREDENTIALS_FILE", "credentials"), false, name);
    match (config, credentials)
    case (Broken, _) => Broken
    case (_, Broken) => Broken
    case (NoSection, other) => other
    case (Section(keys), NoSection) => Section(keys)
    case (Section(under), Section(over)) => Section(under + over)
  }

  function KeyValue(keys: Profile.Keys, key: string): Option<string> {
    if key in keys && keys[key] != [] then Some(keys[key]) else None
  }

  /** What the profile's keys amount to; without them, a profile `AWS_PROFILE` names is an error. */
  function KeysAttempt(found: FileKeys, named: bool): Attempt {
    match found
    case Broken => Attempt(Failed(Refused), [])
    case NoSection => Attempt(if named then Failed(Refused) else Absent, [])
    case Section(keys) =>
      var id, secret := KeyValue(keys, "aws_access_key_id"), KeyValue(keys, "aws_secret_access_key");
      if exists k <- UNSUPPORTED_PROFILE_KEYS :: k in keys then Attempt(Failed(Refused), [])
      else if id.Some? && secret.Some? then
        Attempt(Found(Credentials(id.value, secret.value, KeyValue(keys, "aws_session_token"), None, SharedFiles)), [])
      else if id.None? && secret.None? then Attempt(if named then Failed(Refused) else Absent, [])
      else Attempt(Failed(Refused), [])
  }

  function FromSharedFiles(h: Host): Attempt {
    var explicit := Var(h, "AWS_PROFILE");
    KeysAttempt(ProfileKeys(h, if explicit.Some? then explicit.value else "default"), explicit.Some?)
  }

  // ---- The container endpoint ----

  function JsonWord(h: Host, json: Option<Json>, source: Source): Word {
    match json
    case None => Failed(Refused)
    case Some(j) =>
      var id, secret := NonEmpty(j.accessKeyId), NonEmpty(j.secretAccessKey);
      if id.None? || secret.None? then Failed(Refused)
      else Found(Credentials(id.value, secret.value, NonEmpty(j.token), Expiry(h, NonEmpty(j.expiration)), source))
  }

  function DocumentWord(h: Host, a: Answer, source: Source): Word {
    match a
    case Unreachable => Failed(Clean)
    case Status(code, _, _, json) => if IsSuccess(code) then JsonWord(h, json, source) else Failed(StatusClass(code))
  }

  function ContainerSetup(h: Host): Setup {
    var relative := Var(h, "AWS_CONTAINER_CREDENTIALS_RELATIVE_URI");
    var full := Var(h, "AWS_CONTAINER_CREDENTIALS_FULL_URI");
    if relative.None? && full.None? then NotThere
    else if relative.None? && !h.allowed(Trim(full.value)) then Misconfigured
    else
      var url := if relative.Some? then "http://169.254.170.2" + Trim(relative.value) else Trim(full.value);
      var direct, file := Var(h, "AWS_CONTAINER_AUTHORIZATION_TOKEN"), Var(h, "AWS_CONTAINER_AUTHORIZATION_TOKEN_FILE");
      if direct.None? && file.Some? && TokenFile(h, file.value).None? then Misconfigured
      else
        var token := if direct.Some? then Trimmed(direct) else if file.Some? then TokenFile(h, file.value) else None;
        Asks(ContainerGet(url, token))
  }

  function FromContainer(h: Host): Attempt {
    match ContainerSetup(h)
    case NotThere => Attempt(Absent, [])
    case Misconfigured => Attempt(Failed(Refused), [])
    case Asks(request) => Attempt(DocumentWord(h, h.answer(request), Container), [request])
  }

  // ---- IMDS ----

  /** The first line that isn't blank, trimmed. */
  function FirstRole(lines: seq<string>): Option<string> {
    if lines == [] then None else if Trim(lines[0]) != [] then Some(Trim(lines[0])) else FirstRole(lines[1..])
  }

  function FromImds(h: Host): Attempt {
    match h.answer(ImdsToken)
    case Unreachable => Attempt(Failed(Clean), [ImdsToken])
    case Status(code, body, _, _) =>
      if !IsSuccess(code) then Attempt(Failed(StatusClass(code)), [ImdsToken])
      else FromImdsSession(h, Some(Trim(body)), [ImdsToken])
  }

  function FromImdsSession(h: Host, session: Option<string>, asked: seq<Request>): Attempt {
    var asked := asked + [ImdsRoles(session)];
    match h.answer(ImdsRoles(session))
    case Unreachable => Attempt(Failed(Clean), asked)
    case Status(code, body, _, _) =>
      if code == 404 then Attempt(Failed(Refused), asked)
      else if !IsSuccess(code) then Attempt(Failed(StatusClass(code)), asked)
      else
        match FirstRole(Lines(body))
        case None => Attempt(Failed(Refused), asked)
        case Some(role) =>
          Attempt(DocumentWord(h, h.answer(ImdsRole(role, session)), Imds), asked + [ImdsRole(role, session)])
  }

  // ---- The chain ----

  /** The lookup's end: credentials, or a fault with the source that failed, if one did. */
  datatype Result = Ok(c: Credentials) | Err(fault: Fault, at: Option<Source>)

  const CHAIN: seq<Source> := [Environment, WebIdentity, SharedFiles, Container]

  function Try(h: Host, region: string, source: Source): Attempt {
    match source
    case Environment => FromEnvironment(h)
    case WebIdentity => FromWebIdentity(h, region)
    case SharedFiles => FromSharedFiles(h)
    case Container => FromContainer(h)
    case Imds => FromImds(h)
  }

  /** What each source says, and whether IMDS is off: all the chain itself looks at. */
  datatype Sources = Sources(says: Source -> Attempt, imdsOff: bool)

  function SourcesOf(h: Host, region: string): Sources {
    Sources(source => Try(h, region, source), ImdsOff(h))
  }

  predicate ImdsOff(h: Host) {
    var v := Var(h, "AWS_EC2_METADATA_DISABLED");
    v.Some? && Lower(Trim(v.value)) == "true"
  }

  function Ended(attempt: Attempt, source: Source): Result {
    match attempt.word
    case Found(c) => Ok(c)
    case Failed(fault) => Err(fault, Some(source))
    case Absent => Err(Refused, None)
  }

  datatype Lookup = Lookup(result: Result, absent: seq<Source>, asked: seq<Request>)

  /** The lookup from the first source of `chain` on: what it ends with, and what it adds to the
      absent list and to the requests. */
  function LookupFrom(all: Sources, chain: seq<Source>): Lookup {
    if chain == [] then
      if all.imdsOff then Lookup(Err(Refused, None), [], [])
      else Lookup(Ended(all.says(Imds), Imds), [], all.says(Imds).asked)
    else
      var attempt := all.says(chain[0]);
      if attempt.word.Absent? then
        var more := LookupFrom(all, chain[1..]);
        Lookup(more.result, [chain[0]] + more.absent, attempt.asked + more.asked)
      else Lookup(Ended(attempt, chain[0]), [], attempt.asked)
  }

  function LookupOn(h: Host, region: string): Lookup { LookupFrom(SourcesOf(h, region), CHAIN) }

  /** `resolve`: the sources of the chain tried in turn, then IMDS. */
  method Resolve(all: Sources, chain: seq<Source>) returns (result: Result, absent: seq<Source>, asked: seq<Request>)
    ensures Lookup(result, absent, asked) == LookupFrom(all, chain)
  {
    absent, asked := [], [];
    ghost var rest := LookupFrom(all, chain);
    AddNothing(rest);
    for i := 0 to |chain|
      invariant rest == LookupFrom(all, chain[i..])
      invariant LookupFrom(all, chain) == Add(absent, asked, rest)
    {
      assert chain[i..][0] == chain[i] && chain[i..][1..] == chain[i + 1..];
      var attempt := all.says(chain[i]);
      if !attempt.word.Absent? {
        return Ended(attempt, chain[i]), absent + [], asked + attempt.asked;
      }
      rest := LookupFrom(all, chain[i + 1..]);
      AddTwice(absent, asked, [chain[i]], attempt.asked, rest);
      absent, asked := absent + [chain[i]], asked + attempt.asked;
    }
    if all.imdsOff {
      return Err(Refused, None), absent + [], asked + [];
    }
    var attempt := all.says(Imds);
    return Ended(attempt, Imds), absent + [], asked + attempt.asked;
  }

  /** `more`, after the sources of `absent` were skipped and `asked` was asked. */
  function Add(absent: seq<Source>, asked: seq<Request>, more: Lookup): Lookup {
    Lookup(more.result, absent + more.absent, asked + more.asked)
  }

  lemma {:induction false} AddNothing(more: Lookup)
    ensures Add([], [], more) == more
  {
    assert [] + more.absent == more.absent && [] + more.asked == more.asked;
  }

  lemma {:induction false} AddTwice(absent: seq<Source>, asked: seq<Request>,
                                    absent': seq<Source>, asked': seq<Request>, more: Lookup)
    ensures Add(absent, asked, Add(absent', asked', more)) == Add(absent + absent', asked + asked', more)
  {
    Bytes.Assoc(absent, absent', more.absent);
    Bytes.Assoc(asked, asked', more.asked);
  }

  // ---- What the chain promises, whatever its sources say ----

  predicate AbsentUpTo(all: Sources, chain: seq<Source>, k: nat)
    requires k <= |chain|
  {
    forall i | 0 <= i < k :: all.says(chain[i]).word.Absent?
  }

  /** A source that is absent asks nothing. */
  ghost predicate Quiet(all: Sources) {
    forall source | all.says(source).word.Absent? :: all.says(source).asked == []
  }

  lemma {:induction false} SkipTo(all: Sources, chain: seq<Source>, k: nat)
    requires Quiet(all) && k <= |chain| && AbsentUpTo(all, chain, k)
    ensures LookupFrom(all, chain) == Add(chain[..k], [], LookupFrom(all, chain[k..]))
  {
    if k > 0 {
      var rest, more := chain[1..], LookupFrom(all, chain[k..]);
      assert forall i | 0 <= i < k - 1 :: rest[i] == chain[i + 1];
      SkipTo(all, rest, k - 1);
      assert rest[k - 1..] == chain[k..];
      AddTwice([chain[0]], [], rest[..k - 1], [], more);
      assert [chain[0]] + rest[..k - 1] == chain[..k];
    } else {
      assert chain[0..] == chain && chain[..0] == [];
      AddNothing(LookupFrom(all, chain));
    }
  }

  /** The first source that is there decides: its credentials or its failure are the lookup's, only
      its requests are made, and the absent list names the sources before it, in order. */
  lemma {:induction false} FirstPresentDecides(all: Sources, chain: seq<Source>, k: nat)
    requires Quiet(all) && k < |chain| && AbsentUpTo(all, chain, k) && !all.says(chain[k]).word.Absent?
    ensures var attempt := all.says(chain[k]);
            LookupFrom(all, chain) == Lookup(Ended(attempt, chain[k]), chain[..k], attempt.asked)
  {
    SkipTo(all, chain, k);
    assert chain[k..][0] == chain[k];
    assert chain[..k] + [] == chain[..k];
  }

  /** With every source of the chain absent, IMDS decides, unless it is off. */
  lemma {:induction false} ImdsDecides(all: Sources, chain: seq<Source>)
    requires Quiet(all) && AbsentUpTo(all, chain, |chain|)
    ensures LookupFrom(all, chain)
         == if all.imdsOff then Lookup(Err(Refused, None), chain, [])
            else Lookup(Ended(all.says(Imds), Imds), chain, all.says(Imds).asked)
  {
    SkipTo(all, chain, |chain|);
    assert chain[|chain|..] == [] && chain[..|chain|] == chain;
    assert chain + [] == chain;
  }

  /** The first source that is there, or the end of the chain. */
  lemma {:induction false} FirstPresent(all: Sources, chain: seq<Source>) returns (k: nat)
    ensures k <= |chain| && AbsentUpTo(all, chain, k)
    ensures k < |chain| ==> !all.says(chain[k]).word.Absent?
  {
    k := 0;
    while k < |chain| && all.says(chain[k]).word.Absent?
      invariant k <= |chain| && AbsentUpTo(all, chain, k)
    {
      k := k + 1;
    }
  }

  /** The absent list is the chain's sources before the first one that is there, in chain order. */
  lemma {:induction false} AbsentListExactly(all: Sources, chain: seq<Source>)
    requires Quiet(all)
    ensures var absent := LookupFrom(all, chain).absent;
            && |absent| <= |chain| && absent == chain[..|absent|] && AbsentUpTo(all, chain, |absent|)
            && (|absent| < |chain| ==> !all.says(chain[|absent|]).word.Absent?)
  {
    var k := FirstPresent(all, chain);
    if k < |chain| {
      FirstPresentDecides(all, chain, k);
    } else {
      ImdsDecides(all, chain);
    }
  }

  // ---- What it promises of a host ----

  /** A source that is absent asks nothing. */
  predicate AsksOnlyIfThere(a: Attempt) { a.word.Absent? ==> a.asked == [] }

  lemma {:induction false} StsIsThere(h: Host, a: Answer)
    ensures !StsWord(h, a).Absent?
  {
  }

  lemma {:induction false} DocumentIsThere(h: Host, a: Answer, source: Source)
    ensures !DocumentWord(h, a, source).Absent?
  {
  }

  lemma {:induction false} WebIdentityQuiet(h: Host, region: string)
    ensures AsksOnlyIfThere(FromWebIdentity(h, region))
  {
    forall a
      ensures !StsWord(h, a).Absent?
    {
      StsIsThere(h, a);
    }
  }

  lemma {:induction false} ContainerQuiet(h: Host)
    ensures AsksOnlyIfThere(FromContainer(h))
  {
    forall a
      ensures !DocumentWord(h, a, Container).Absent?
    {
      DocumentIsThere(h, a, Container);
    }
  }

  lemma {:induction false} ImdsQuiet(h: Host)
    ensures AsksOnlyIfThere(FromImds(h))
  {
    forall a
      ensures !DocumentWord(h, a, Imds).Absent?
    {
      DocumentIsThere(h, a, Imds);
    }
  }

  lemma {:induction false} AbsentAsksNothing(h: Host, region: string, source: Source)
    ensures AsksOnlyIfThere(Try(h, region, source))
  {
    match source
    case WebIdentity => WebIdentityQuiet(h, region);
    case Container => ContainerQuiet(h);
    case Imds => ImdsQuiet(h);
    case Environment =>
    case SharedFiles =>
  }

  lemma {:induction false} HostIsQuiet(h: Host, region: string)
    ensures Quiet(SourcesOf(h, region))
  {
    var all := SourcesOf(h, region);
    forall source | all.says(source).word.Absent?
      ensures all.says(source).asked == []
    {
      AbsentAsksNothing(h, region, source);
    }
  }

  /** Sources that agree up to the first one that is there, IMDS when the chain has none, lead to
      the same outcome. */
  lemma {:induction false} AgreeingSources(a: Sources, b: Sources, chain: seq<Source>, k: nat)
    requires Quiet(a) && Quiet(b) && k <= |chain| && AbsentUpTo(a, chain, k)
    requires k < |chain| ==> !a.says(chain[k]).word.Absent?
    requires forall i | 0 <= i < |chain| && i <= k :: a.says(chain[i]) == b.says(chain[i])
    requires k == |chain| ==> a.imdsOff == b.imdsOff && (a.imdsOff || a.says(Imds) == b.says(Imds))
    ensures LookupFrom(a, chain) == LookupFrom(b, chain)
  {
    if k < |chain| {
      FirstPresentDecides(a, chain, k);
      FirstPresentDecides(b, chain, k);
    } else {
      ImdsDecides(a, chain);
      ImdsDecides(b, chain);
    }
  }

  /** Hosts that agree on the sources up to the first one that is there get the same outcome. */
  lemma {:induction false} AgreeingHosts(h: Host, g: Host, region: string, k: nat)
    requires k <= |CHAIN| && AbsentUpTo(SourcesOf(h, region), CHAIN, k)
    requires k < |CHAIN| ==> !Try(h, region, CHAIN[k]).word.Absent?
    requires forall i | 0 <= i < |CHAIN| && i <= k :: Try(h, region, CHAIN[i]) == Try(g, region, CHAIN[i])
    requires k == |CHAIN| ==> ImdsOff(h) == ImdsOff(g) && (ImdsOff(h) || FromImds(h) == FromImds(g))
    ensures LookupOn(h, region) == LookupOn(g, region)
  {
    HostIsQuiet(h, region);
    HostIsQuiet(g, region);
    AgreeingSources(SourcesOf(h, region), SourcesOf(g, region), CHAIN, k);
  }

  /** A source is absent exactly when its variables aren't set; the shared files, when no profile is
      named and the implicit `default` isn't there or has no keys. */
  lemma {:induction false} EnvironmentAbsentExactly(h: Host)
    ensures FromEnvironment(h).word.Absent?
       <==> Var(h, "AWS_ACCESS_KEY_ID").None? && Var(h, "AWS_SECRET_ACCESS_KEY").None?
  {
  }

  lemma {:induction false} WebIdentityAbsentExactly(h: Host, region: string)
    ensures FromWebIdentity(h, region).word.Absent?
       <==> Var(h, "AWS_WEB_IDENTITY_TOKEN_FILE").None? && Var(h, "AWS_ROLE_ARN").None?
  {
  }

  lemma {:induction false} ContainerAbsentExactly(h: Host)
    ensures FromContainer(h).word.Absent?
       <==> && Var(h, "AWS_CONTAINER_CREDENTIALS_RELATIVE_URI").None?
            && Var(h, "AWS_CONTAINER_CREDENTIALS_FULL_URI").None?
  {
  }

  lemma {:induction false} SharedFilesAbsentExactly(h: Host)
    ensures FromSharedFiles(h).word.Absent?
       <==> && Var(h, "AWS_PROFILE").None?
            && (ProfileKeys(h, "default").NoSection? || KeylessDefault(ProfileKeys(h, "default")))
  {
  }

  /** The profile is there, takes its credentials from nowhere else, and has neither key. */
  predicate KeylessDefault(profile: FileKeys) {
    && profile.Section?
    && (forall k <- UNSUPPORTED_PROFILE_KEYS :: k !in profile.keys)
    && KeyValue(profile.keys, "aws_access_key_id").None?
    && KeyValue(profile.keys, "aws_secret_access_key").None?
  }

  predicate AsksImds(r: Request) { r.ImdsToken? || r.ImdsRoles? || r.ImdsRole? }

  /** A source other than IMDS neither asks it nor passes for it. */
  predicate KeepsOffImds(a: Attempt) {
    (forall r <- a.asked :: !AsksImds(r)) && (a.word.Found? ==> !a.word.c.source.Imds?)
  }

  lemma {:induction false} SharedFilesKeepOff(h: Host)
    ensures KeepsOffImds(FromSharedFiles(h)) && KeepsOffImds(FromEnvironment(h))
  {
  }

  lemma {:induction false} ContainerKeepsOff(h: Host)
    ensures KeepsOffImds(FromContainer(h))
  {
  }

  lemma {:induction false} WebIdentityKeepsOff(h: Host, region: string)
    ensures KeepsOffImds(FromWebIdentity(h, region))
  {
  }

  lemma {:induction false} OthersKeepOff(h: Host, region: string, source: Source)
    requires !source.Imds?
    ensures KeepsOffImds(SourcesOf(h, region).says(source))
  {
    SharedFilesKeepOff(h);
    ContainerKeepsOff(h);
    WebIdentityKeepsOff(h, region);
  }

  /** IMDS is asked, and its credentials used, only on a host that sets none of the variables of the
      environment, web identity and the container endpoint, names no profile, has no keys in its
      default one, and hasn't switched IMDS off. */
  lemma {:induction false} ImdsOnlyLast(h: Host, region: string)
    requires var l := LookupOn(h, region);
             (exists r <- l.asked :: AsksImds(r)) || (l.result.Ok? && l.result.c.source.Imds?)
    ensures !ImdsOff(h)
    ensures Var(h, "AWS_ACCESS_KEY_ID").None? && Var(h, "AWS_SECRET_ACCESS_KEY").None?
    ensures Var(h, "AWS_WEB_IDENTITY_TOKEN_FILE").None? && Var(h, "AWS_ROLE_ARN").None?
    ensures Var(h, "AWS_PROFILE").None?
    ensures ProfileKeys(h, "default").NoSection? || KeylessDefault(ProfileKeys(h, "default"))
    ensures Var(h, "AWS_CONTAINER_CREDENTIALS_RELATIVE_URI").None?
    ensures Var(h, "AWS_CONTAINER_CREDENTIALS_FULL_URI").None?
  {
    ImdsAfterAll(h, region);
    SaysIs(h, region);
    EnvironmentAbsentExactly(h);
    WebIdentityAbsentExactly(h, region);
    SharedFilesAbsentExactly(h);
    ContainerAbsentExactly(h);
  }

  lemma {:induction false} SaysIs(h: Host, region: string)
    ensures var all := SourcesOf(h, region);
            && all.says(CHAIN[0]) == FromEnvironment(h) && all.says(CHAIN[1]) == FromWebIdentity(h, region)
            && all.says(CHAIN[2]) == FromSharedFiles(h) && all.says(CHAIN[3]) == FromContainer(h)
  {
  }

  lemma {:induction false} ImdsAfterAll(h: Host, region: string)
    requires var l := LookupOn(h, region);
             (exists r <- l.asked :: AsksImds(r)) || (l.result.Ok? && l.result.c.source.Imds?)
    ensures !ImdsOff(h) && AbsentUpTo(SourcesOf(h, region), CHAIN, |CHAIN|)
  {
    var all := SourcesOf(h, region);
    HostIsQuiet(h, region);
    var k := FirstPresent(all, CHAIN);
    if k < |CHAIN| {
      FirstPresentDecides(all, CHAIN, k);
      OthersKeepOff(h, region, CHAIN[k]);
      assert false;
    } else {
      ImdsDecides(all, CHAIN);
    }
  }

  lemma {:induction false} StsOnly(h: Host, region: string)
    ensures var a := FromWebIdentity(h, region);
            (forall r <- a.asked :: r.Sts?) && (a.word.Found? ==> a.word.c.source.WebIdentity?)
  {
  }

  /** A host set up for web identity, however broken, never authenticates as anything else: without
      static keys in the environment, its credentials are the web identity's, and nothing but STS
      is asked. */
  lemma {:induction false} BrokenWebIdentityStaysBroken(h: Host, region: string)
    requires Var(h, "AWS_ACCESS_KEY_ID").None? && Var(h, "AWS_SECRET_ACCESS_KEY").None?
    requires Var(h, "AWS_WEB_IDENTITY_TOKEN_FILE").Some? || Var(h, "AWS_ROLE_ARN").Some?
    ensures var l := LookupOn(h, region);
            && (l.result.Ok? ==> l.result.c.source.WebIdentity?)
            && (l.result.Err? ==> l.result.at == Some(WebIdentity))
            && forall r <- l.asked :: r.Sts?
  {
    EnvironmentAbsentExactly(h);
    WebIdentityAbsentExactly(h, region);
    HostIsQuiet(h, region);
    SaysIs(h, region);
    StsOnly(h, region);
    FirstPresentDecides(SourcesOf(h, region), CHAIN, 1);
  }
}
