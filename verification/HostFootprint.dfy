/**
 What the credential chain of `crates/logit-aws/src/creds.rs` depends on: the variables, files and
 answers read by the sources up to the first one that is there. Nothing a later source would read
 can change the outcome.
 */
module HostFootprint {
  import opened CredentialChain
  import Text
  import opened Wrappers

  /** The variables a source reads. */
  function VariablesOf(source: Source): set<string> {
    match source
    case Environment => {"AWS_ACCESS_KEY_ID", "AWS_SECRET_ACCESS_KEY", "AWS_SESSION_TOKEN"}
    case WebIdentity => {"AWS_WEB_IDENTITY_TOKEN_FILE", "AWS_ROLE_ARN", "AWS_ROLE_SESSION_NAME"}
    case SharedFiles => {"AWS_PROFILE", "AWS_CONFIG_FILE", "AWS_SHARED_CREDENTIALS_FILE", "HOME"}
    case Container => {
      "AWS_CONTAINER_CREDENTIALS_RELATIVE_URI", "AWS_CONTAINER_CREDENTIALS_FULL_URI",
      "AWS_CONTAINER_AUTHORIZATION_TOKEN", "AWS_CONTAINER_AUTHORIZATION_TOKEN_FILE"}
    case Imds => {}
  }

  function PathIn(path: Option<string>): set<string> {
    match path
    case None => {}
    case Some(p) => {p}
  }

  /** The files it reads on a host. */
  function FilesOf(h: Host, source: Source): set<string> {
    match source
    case WebIdentity =>
      if Var(h, "AWS_ROLE_ARN").None? then {} else PathIn(Var(h, "AWS_WEB_IDENTITY_TOKEN_FILE"))
    case SharedFiles =>
      PathIn(SharedPath(h, "AWS_CONFIG_FILE", "config"))
      + PathIn(SharedPath(h, "AWS_SHARED_CREDENTIALS_FILE", "credentials"))
    case Container =>
      if ContainerSetup(h).NotThere? || Var(h, "AWS_CONTAINER_AUTHORIZATION_TOKEN").Some? then {}
      else PathIn(Var(h, "AWS_CONTAINER_AUTHORIZATION_TOKEN_FILE"))
    case _ => {}
  }

  /** Two hosts under the same rules for regions, container addresses and expiries. */
  ghost predicate SameRules(h: Host, g: Host) {
    h.supported == g.supported && h.allowed == g.allowed && h.instant == g.instant
  }

  ghost predicate SameVariables(h: Host, g: Host, names: set<string>) {
    forall n <- names :: h.variable(n) == g.variable(n)
  }

  ghost predicate SameFiles(h: Host, g: Host, paths: set<string>) {
    forall p <- paths :: h.file(p) == g.file(p)
  }

  ghost predicate SameAnswers(h: Host, g: Host, requests: seq<Request>) {
    forall r <- requests :: h.answer(r) == g.answer(r)
  }

  /** `g` is `h` in everything the source reads on `h`. */
  ghost predicate SameFor(h: Host, g: Host, region: string, source: Source) {
    && SameVariables(h, g, VariablesOf(source)) && SameFiles(h, g, FilesOf(h, source))
    && SameAnswers(h, g, Try(h, region, source).asked)
  }

  lemma {:induction false} SameEnvironment(h: Host, g: Host)
    requires SameVariables(h, g, VariablesOf(Environment))
    ensures FromEnvironment(h) == FromEnvironment(g)
  {
  }

  lemma {:induction false} SameVar(h: Host, g: Host, names: set<string>, n: string)
    requires SameVariables(h, g, names) && n in names
    ensures Var(h, n) == Var(g, n)
  {
  }

  lemma {:induction false} SameTokenFile(h: Host, g: Host, path: string)
    requires h.file(path) == g.file(path)
    ensures TokenFile(h, path) == TokenFile(g, path)
  {
  }

  lemma {:induction false} SameWebIdentitySetup(h: Host, g: Host, region: string)
    requires SameRules(h, g) && SameVariables(h, g, VariablesOf(WebIdentity))
    requires SameFiles(h, g, FilesOf(h, WebIdentity))
    ensures WebIdentitySetup(h, region) == WebIdentitySetup(g, region)
  {
    var names := VariablesOf(WebIdentity);
    SameVar(h, g, names, "AWS_WEB_IDENTITY_TOKEN_FILE");
    SameVar(h, g, names, "AWS_ROLE_ARN");
    SameVar(h, g, names, "AWS_ROLE_SESSION_NAME");
    var file := Var(h, "AWS_WEB_IDENTITY_TOKEN_FILE");
    if file.Some? && Var(h, "AWS_ROLE_ARN").Some? {
      SameTokenFile(h, g, file.value);
    }
  }

  lemma {:induction false} SameStsWord(h: Host, g: Host, a: Answer)
    requires h.instant == g.instant
    ensures StsWord(h, a) == StsWord(g, a)
  {
  }

  lemma {:induction false} SameWebIdentity(h: Host, g: Host, region: string)
    requires SameRules(h, g) && SameFor(h, g, region, WebIdentity)
    ensures FromWebIdentity(h, region) == FromWebIdentity(g, region)
  {
    SameWebIdentitySetup(h, g, region);
    var setup := WebIdentitySetup(h, region);
    if setup.Asks? {
      assert setup.request in FromWebIdentity(h, region).asked;
      SameStsWord(h, g, h.answer(setup.request));
    }
  }

  lemma {:induction false} SameKeysInFile(h: Host, g: Host, path: Option<string>, config: bool, name: string)
    requires path.Some? ==> h.file(path.value) == g.file(path.value)
    ensures KeysInFile(h, path, config, name) == KeysInFile(g, path, config, name)
  {
  }

  lemma {:induction false} SameSharedPath(h: Host, g: Host, name: string, file: string)
    requires h.variable(name) == g.variable(name) && h.variable("HOME") == g.variable("HOME")
    ensures SharedPath(h, name, file) == SharedPath(g, name, file)
  {
  }

  lemma {:induction false} SameProfileKeys(h: Host, g: Host, name: string)
    requires SameVariables(h, g, VariablesOf(SharedFiles)) && SameFiles(h, g, FilesOf(h, SharedFiles))
    ensures ProfileKeys(h, name) == ProfileKeys(g, name)
  {
    var names := VariablesOf(SharedFiles);
    assert "AWS_CONFIG_FILE" in names && "AWS_SHARED_CREDENTIALS_FILE" in names && "HOME" in names;
    SameSharedPath(h, g, "AWS_CONFIG_FILE", "config");
    SameSharedPath(h, g, "AWS_SHARED_CREDENTIALS_FILE", "credentials");
    SameKeysInFile(h, g, SharedPath(h, "AWS_CONFIG_FILE", "config"), true, name);
    SameKeysInFile(h, g, SharedPath(h, "AWS_SHARED_CREDENTIALS_FILE", "credentials"), false, name);
  }

  lemma {:induction false} SameSharedFiles(h: Host, g: Host)
    requires SameVariables(h, g, VariablesOf(SharedFiles)) && SameFiles(h, g, FilesOf(h, SharedFiles))
    ensures FromSharedFiles(h) == FromSharedFiles(g)
  {
    SameVar(h, g, VariablesOf(SharedFiles), "AWS_PROFILE");
    var explicit := Var(h, "AWS_PROFILE");
    SameProfileKeys(h, g, if explicit.Some? then explicit.value else "default");
  }

  lemma {:induction false} SameContainerSetup(h: Host, g: Host)
    requires SameRules(h, g) && SameVariables(h, g, VariablesOf(Container)) && SameFiles(h, g, FilesOf(h, Container))
    ensures ContainerSetup(h) == ContainerSetup(g)
  {
    var names := VariablesOf(Container);
    SameVar(h, g, names, "AWS_CONTAINER_CREDENTIALS_RELATIVE_URI");
    SameVar(h, g, names, "AWS_CONTAINER_CREDENTIALS_FULL_URI");
    SameVar(h, g, names, "AWS_CONTAINER_AUTHORIZATION_TOKEN");
    SameVar(h, g, names, "AWS_CONTAINER_AUTHORIZATION_TOKEN_FILE");
    var file := Var(h, "AWS_CONTAINER_AUTHORIZATION_TOKEN_FILE");
    if !ContainerSetup(h).NotThere? && Var(h, "AWS_CONTAINER_AUTHORIZATION_TOKEN").None? && file.Some? {
      SameTokenFile(h, g, file.value);
    }
  }

  lemma {:induction false} SameDocumentWord(h: Host, g: Host, a: Answer, source: Source)
    requires h.instant == g.instant
    ensures DocumentWord(h, a, source) == DocumentWord(g, a, source)
  {
  }

  lemma {:induction false} SameContainer(h: Host, g: Host, region: string)
    requires SameRules(h, g) && SameFor(h, g, region, Container)
    ensures FromContainer(h) == FromContainer(g)
  {
    SameContainerSetup(h, g);
    var setup := ContainerSetup(h);
    if setup.Asks? {
      assert setup.request in FromContainer(h).asked;
      SameDocumentWord(h, g, h.answer(setup.request), Container);
    }
  }

  lemma {:induction false} SameImdsSession(h: Host, g: Host, session: Option<string>, asked: seq<Request>)
    requires h.instant == g.instant && SameAnswers(h, g, FromImdsSession(h, session, asked).asked)
    ensures FromImdsSession(h, session, asked) == FromImdsSession(g, session, asked)
  {
    var all := FromImdsSession(h, session, asked).asked;
    assert all[|asked|] == ImdsRoles(session) && all[|asked|] in all;
    if |all| > |asked| + 1 {
      assert all[|asked| + 1] in all;
    }
  }

  lemma {:induction false} SameImds(h: Host, g: Host)
    requires h.instant == g.instant && SameAnswers(h, g, FromImds(h).asked)
    ensures FromImds(h) == FromImds(g)
  {
    var all := FromImds(h).asked;
    assert all[0] == ImdsToken && all[0] in all;
    match h.answer(ImdsToken) {
      case Unreachable =>
      case Status(code, body, _, _) =>
        if IsSuccess(code) {
          SameImdsSession(h, g, Some(Text.Trim(body)), [ImdsToken]);
        }
    }
  }

  /** A source says the same on both. */
  lemma {:induction false} SameAttempt(h: Host, g: Host, region: string, source: Source)
    requires SameRules(h, g) && SameFor(h, g, region, source)
    ensures Try(h, region, source) == Try(g, region, source)
  {
    match source
    case Environment => SameEnvironment(h, g);
    case WebIdentity => SameWebIdentity(h, g, region);
    case SharedFiles => SameSharedFiles(h, g);
    case Container => SameContainer(h, g, region);
    case Imds => SameImds(h, g);
  }

  const OFF_SWITCH: string := "AWS_EC2_METADATA_DISABLED"

  /** A host's outcome depends on nothing but the variables, files and answers that the sources up to
      the first one that is there read on it; when none is, on the switch that turns IMDS off, and
      on IMDS's answers unless it is. */
  lemma {:induction false} FootprintDecides(h: Host, g: Host, region: string, k: nat)
    requires SameRules(h, g) && k <= |CHAIN| && AbsentUpTo(SourcesOf(h, region), CHAIN, k)
    requires k < |CHAIN| ==> !Try(h, region, CHAIN[k]).word.Absent?
    requires forall i | 0 <= i < |CHAIN| && i <= k :: SameFor(h, g, region, CHAIN[i])
    requires k == |CHAIN| ==> h.variable(OFF_SWITCH) == g.variable(OFF_SWITCH)
                              && (ImdsOff(h) || SameFor(h, g, region, Imds))
    ensures LookupOn(h, region) == LookupOn(g, region)
  {
    forall i | 0 <= i < |CHAIN| && i <= k
      ensures Try(h, region, CHAIN[i]) == Try(g, region, CHAIN[i])
    {
      SameAttempt(h, g, region, CHAIN[i]);
    }
    if k == |CHAIN| && !ImdsOff(h) {
      SameAttempt(h, g, region, Imds);
    }
    AgreeingHosts(h, g, region, k);
  }
}
