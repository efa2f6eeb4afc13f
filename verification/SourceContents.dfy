/**
 What each source of the credential chain of `crates/logit-aws/src/creds.rs` comes to, told from the
 host's variables, files and answers: whose credentials, from which field of what, asked how, and
 which failures are worth another try. Each theorem is about the whole lookup on a host whose
 earlier sources are absent.
 */
module SourceContents {
  import opened CredentialChain
  import opened Text
  import Profile
  import XmlText
  import opened Wrappers

  // ---- Variables and files ----

  /** The variable is set to `v`, which isn't blank. */
  predicate IsSet(h: Host, name: string, v: string) { h.variable(name) == Some(v) && Trim(v) != "" }

  predicate NotSet(h: Host, name: string) { h.variable(name).None? || Trim(h.variable(name).value) == "" }

  /** The variable's trimmed text, if it is set. */
  predicate IsTrimmed(h: Host, name: string, t: Option<string>) {
    if NotSet(h, name) then t == None else t == Some(Trim(h.variable(name).value))
  }

  /** Its text, trimmed, or nothing. */
  function Trimmed(h: Host, name: string): string {
    match h.variable(name)
    case None => ""
    case Some(v) => Trim(v)
  }

  /** A token file's text, trimmed: it is there, not blank, and at most 64 KiB. */
  predicate IsToken(h: Host, path: string, token: string) {
    match h.file(path)
    case Contents(text, size) => token == Trim(text) && token != "" && size <= 65536
    case _ => false
  }

  predicate NoToken(h: Host, path: string) {
    match h.file(path)
    case Contents(text, size) => Trim(text) == "" || size > 65536
    case _ => true
  }

  /** Statuses worth another try. */
  predicate TryAgain(code: nat) { code == 429 || 500 <= code <= 599 }

  // ---- The environment ----

  /** The three variables, trimmed, and no expiry. */
  lemma EnvironmentGives(h: Host, region: string, id: string, secret: string, token: Option<string>)
    requires IsSet(h, "AWS_ACCESS_KEY_ID", id) && IsSet(h, "AWS_SECRET_ACCESS_KEY", secret)
    requires IsTrimmed(h, "AWS_SESSION_TOKEN", token)
    ensures LookupOn(h, region)
         == Lookup(Ok(Credentials(Trim(id), Trim(secret), token, None, Environment)), [], [])
  {
    HostIsQuiet(h, region);
    SaysIs(h, region);
    FirstPresentDecides(SourcesOf(h, region), CHAIN, 0);
    assert CHAIN[..0] == [];
  }

  /** One of the two keys alone is refused, and nothing is asked. */
  lemma HalfAnEnvironment(h: Host, region: string)
    requires NotSet(h, "AWS_ACCESS_KEY_ID") != NotSet(h, "AWS_SECRET_ACCESS_KEY")
    ensures LookupOn(h, region) == Lookup(Err(Refused, Some(Environment)), [], [])
  {
    HostIsQuiet(h, region);
    SaysIs(h, region);
    FirstPresentDecides(SourcesOf(h, region), CHAIN, 0);
    assert CHAIN[..0] == [];
  }

  // ---- Web identity ----

  function Field(a: Answer, tag: string): string {
    if a.Status? && a.utf8 && XmlText.ElementText(XmlText.Entity, a.body, tag).Some?
    then XmlText.ElementText(XmlText.Entity, a.body, tag).value else ""
  }

  predicate HasField(a: Answer, tag: string) {
    a.Status? && a.utf8 && XmlText.ElementText(XmlText.Entity, a.body, tag).Some?
  }

  /** What an answer of STS comes to. */
  ghost predicate StsEnds(h: Host, a: Answer, r: Result) {
    && (a.Unreachable? ==> r == Err(Clean, Some(WebIdentity)))
    && (a.Status? && !(200 <= a.code <= 299) ==>
          if TryAgain(a.code) || Field(a, "Code") == "Throttling" || Field(a, "Code") == "IDPCommunicationError"
          then r == Err(Clean, Some(WebIdentity)) else r == Err(Refused, Some(WebIdentity)))
    && (a.Status? && 200 <= a.code <= 299 ==>
          if Field(a, "AccessKeyId") == "" || Field(a, "SecretAccessKey") == "" || Field(a, "SessionToken") == ""
          then r == Err(Refused, Some(WebIdentity))
          else
            && r.Ok? && r.c.accessKeyId == Field(a, "AccessKeyId")
            && r.c.secretAccessKey == Field(a, "SecretAccessKey")
            && r.c.sessionToken == Some(Field(a, "SessionToken")) && r.c.source == WebIdentity
            && r.c.expires == if HasField(a, "Expiration") then h.instant(Field(a, "Expiration")) else None)
  }

  lemma StsWordEnds(h: Host, a: Answer, asked: seq<Request>)
    ensures StsEnds(h, a, Ended(Attempt(StsWord(h, a), asked), WebIdentity))
  {
  }

  /** STS is asked once, at the region, for the role, with the file's token and the session name if
      one is set; its answer decides. */
  lemma WebIdentityAsks(h: Host, region: string, file: string, role: string, token: string)
    requires AbsentUpTo(SourcesOf(h, region), CHAIN, 1)
    requires IsSet(h, "AWS_WEB_IDENTITY_TOKEN_FILE", file) && IsSet(h, "AWS_ROLE_ARN", role)
    requires IsToken(h, file, token) && h.supported(region)
    ensures var session := if NotSet(h, "AWS_ROLE_SESSION_NAME") then None else h.variable("AWS_ROLE_SESSION_NAME");
            var request := Sts(region, role, token, session);
            var l := LookupOn(h, region);
            l.asked == [request] && l.absent == [Environment] && StsEnds(h, h.answer(request), l.result)
  {
    HostIsQuiet(h, region);
    SaysIs(h, region);
    WebIdentityAsked(h, region, file, role, token);
    var request := WebIdentitySetup(h, region).request;
    StsWordEnds(h, h.answer(request), [request]);
    WebIdentityQuiet(h, region);
    FirstPresentDecides(SourcesOf(h, region), CHAIN, 1);
    assert CHAIN[..1] == [Environment];
  }

  lemma WebIdentityAsked(h: Host, region: string, file: string, role: string, token: string)
    requires IsSet(h, "AWS_WEB_IDENTITY_TOKEN_FILE", file) && IsSet(h, "AWS_ROLE_ARN", role)
    requires IsToken(h, file, token) && h.supported(region)
    ensures var session := if NotSet(h, "AWS_ROLE_SESSION_NAME") then None else h.variable("AWS_ROLE_SESSION_NAME");
            WebIdentitySetup(h, region) == Asks(Sts(region, role, token, session))
  {
  }

  /** Half of it set, no token in the file, or a region without STS: refused, and nothing is asked. */
  lemma WebIdentityRefused(h: Host, region: string)
    requires AbsentUpTo(SourcesOf(h, region), CHAIN, 1)
    requires var file := h.variable("AWS_WEB_IDENTITY_TOKEN_FILE");
             if NotSet(h, "AWS_WEB_IDENTITY_TOKEN_FILE") || NotSet(h, "AWS_ROLE_ARN")
             then NotSet(h, "AWS_WEB_IDENTITY_TOKEN_FILE") != NotSet(h, "AWS_ROLE_ARN")
             else NoToken(h, file.value) || !h.supported(region)
    ensures LookupOn(h, region) == Lookup(Err(Refused, Some(WebIdentity)), [Environment], [])
  {
    HostIsQuiet(h, region);
    SaysIs(h, region);
    FirstPresentDecides(SourcesOf(h, region), CHAIN, 1);
    assert CHAIN[..1] == [Environment];
  }

  // ---- The shared files ----

  /** A shared file's path: its variable's, or below `HOME`, or none. */
  predicate IsPath(h: Host, variable: string, file: string, path: Option<string>) {
    if !NotSet(h, variable) then path == h.variable(variable)
    else if NotSet(h, "HOME") then path == None
    else
      var home := h.variable("HOME").value;
      path == Some(if home[|home| - 1] == '/' then home + ".aws/" + file else home + "/" + ".aws/" + file)
  }

  /** The profile's keys in a file that can be read or isn't there. */
  predicate IsRead(h: Host, path: Option<string>, config: bool, name: string, keys: Option<Profile.Keys>) {
    match path
    case None => keys == None
    case Some(p) =>
      match h.file(p)
      case NotFound => keys == None
      case Unreadable => false
      case Contents(text, _) => keys == Profile.ProfileKeysOf(text, config, name)
  }

  /** A key's value: the credentials file's if it sets the key, else the config file's, else nothing. */
  function KeyIn(config: Option<Profile.Keys>, credentials: Option<Profile.Keys>, key: string): string {
    if credentials.Some? && key in credentials.value then credentials.value[key]
    else if config.Some? && key in config.value then config.value[key]
    else ""
  }

  predicate SetsUnsupported(keys: Option<Profile.Keys>) {
    keys.Some? &&
    (|| "role_arn" in keys.value || "source_profile" in keys.value || "credential_source" in keys.value
     || "web_identity_token_file" in keys.value || "credential_process" in keys.value
     || "sso_session" in keys.value || "sso_start_url" in keys.value || "sso_account_id" in keys.value
     || "sso_role_name" in keys.value || "sso_region" in keys.value || "login_session" in keys.value)
  }

  /** The profile `AWS_PROFILE` names, or `default`. */
  predicate IsProfile(h: Host, name: string) {
    if NotSet(h, "AWS_PROFILE") then name == "default" else h.variable("AWS_PROFILE") == Some(name)
  }

  lemma SamePath(h: Host, variable: string, file: string, path: Option<string>)
    requires IsPath(h, variable, file, path)
    ensures SharedPath(h, variable, file) == path
  {
    if NotSet(h, variable) && !NotSet(h, "HOME") {
      var home := h.variable("HOME").value;
      assert home + "/" + ".aws/" + file == home + "/.aws/" + file;
    }
  }

  lemma SameKeys(h: Host, path: Option<string>, config: bool, name: string, keys: Option<Profile.Keys>)
    requires IsRead(h, path, config, name, keys)
    ensures KeysInFile(h, path, config, name) == if keys.Some? then Section(keys.value) else NoSection
  {
  }

  lemma MergedKeys(h: Host, name: string, configPath: Option<string>, credentialsPath: Option<string>,
                   config: Option<Profile.Keys>, credentials: Option<Profile.Keys>)
    requires IsPath(h, "AWS_CONFIG_FILE", "config", configPath) && IsRead(h, configPath, true, name, config)
    requires IsPath(h, "AWS_SHARED_CREDENTIALS_FILE", "credentials", credentialsPath)
    requires IsRead(h, credentialsPath, false, name, credentials)
    ensures var found := ProfileKeys(h, name);
            && (found.NoSection? <==> config.None? && credentials.None?)
            && (config.Some? || credentials.Some? ==>
                  && found.Section?
                  && (forall k :: k in found.keys <==> (config.Some? && k in config.value)
                                                       || (credentials.Some? && k in credentials.value))
                  && (forall k | k in found.keys :: found.keys[k] == KeyIn(config, credentials, k)))
  {
    SamePath(h, "AWS_CONFIG_FILE", "config", configPath);
    SamePath(h, "AWS_SHARED_CREDENTIALS_FILE", "credentials", credentialsPath);
    SameKeys(h, configPath, true, name, config);
    SameKeys(h, credentialsPath, false, name, credentials);
  }

  /** Neither key, and nothing that asks for another kind of credentials. */
  predicate HasNoKeys(config: Option<Profile.Keys>, credentials: Option<Profile.Keys>) {
    && KeyIn(config, credentials, "aws_access_key_id") == ""
    && KeyIn(config, credentials, "aws_secret_access_key") == ""
    && !SetsUnsupported(config) && !SetsUnsupported(credentials)
  }

  /** What a profile's keys come to. */
  ghost predicate KeysEnd(config: Option<Profile.Keys>, credentials: Option<Profile.Keys>, l: Lookup) {
    var id := KeyIn(config, credentials, "aws_access_key_id");
    var secret := KeyIn(config, credentials, "aws_secret_access_key");
    var token := KeyIn(config, credentials, "aws_session_token");
    && l.asked == [] && l.absent == [Environment, WebIdentity]
    && if SetsUnsupported(config) || SetsUnsupported(credentials) || id == "" || secret == ""
       then l.result == Err(Refused, Some(SharedFiles))
       else l.result == Ok(Credentials(id, secret, if token == "" then None else Some(token), None, SharedFiles))
  }

  lemma KeysAttemptEnds(config: Option<Profile.Keys>, credentials: Option<Profile.Keys>, found: FileKeys, named: bool)
    requires found.Section?
    requires forall k :: k in found.keys <==> (config.Some? && k in config.value)
                                              || (credentials.Some? && k in credentials.value)
    requires forall k | k in found.keys :: found.keys[k] == KeyIn(config, credentials, k)
    ensures var a := KeysAttempt(found, named);
            && (a.word.Absent? <==> !named && HasNoKeys(config, credentials))
            && (!a.word.Absent? ==>
                  KeysEnd(config, credentials, Lookup(Ended(a, SharedFiles), [Environment, WebIdentity], a.asked)))
  {
    SameValue(config, credentials, found, "aws_access_key_id");
    SameValue(config, credentials, found, "aws_secret_access_key");
    SameValue(config, credentials, found, "aws_session_token");
    assert (exists k <- UNSUPPORTED_PROFILE_KEYS :: k in found.keys)
      <==> SetsUnsupported(config) || SetsUnsupported(credentials);
  }

  lemma SameValue(config: Option<Profile.Keys>, credentials: Option<Profile.Keys>, found: FileKeys, key: string)
    requires found.Section?
    requires forall k :: k in found.keys <==> (config.Some? && k in config.value)
                                              || (credentials.Some? && k in credentials.value)
    requires forall k | k in found.keys :: found.keys[k] == KeyIn(config, credentials, k)
    ensures var v := KeyIn(config, credentials, key);
            KeyValue(found.keys, key) == if v == "" then None else Some(v)
  {
  }

  /** The profile's keys decide, each from the credentials file if that sets it. Only a `default` that
      nobody named and that has no keys is skipped. */
  lemma SharedFilesGive(h: Host, region: string, name: string, configPath: Option<string>,
                        credentialsPath: Option<string>, config: Option<Profile.Keys>,
                        credentials: Option<Profile.Keys>)
    requires AbsentUpTo(SourcesOf(h, region), CHAIN, 2) && IsProfile(h, name)
    requires IsPath(h, "AWS_CONFIG_FILE", "config", configPath) && IsRead(h, configPath, true, name, config)
    requires IsPath(h, "AWS_SHARED_CREDENTIALS_FILE", "credentials", credentialsPath)
    requires IsRead(h, credentialsPath, false, name, credentials)
    requires config.Some? || credentials.Some?
    ensures if NotSet(h, "AWS_PROFILE") && HasNoKeys(config, credentials)
            then AbsentUpTo(SourcesOf(h, region), CHAIN, 3)
            else KeysEnd(config, credentials, LookupOn(h, region))
  {
    SharedAttempt(h, name, configPath, credentialsPath, config, credentials);
    SharedDecides(h, region, config, credentials);
  }

  /** With the two before it absent, the shared files' word decides. */
  lemma SharedDecides(h: Host, region: string, config: Option<Profile.Keys>, credentials: Option<Profile.Keys>)
    requires AbsentUpTo(SourcesOf(h, region), CHAIN, 2)
    requires var a := FromSharedFiles(h);
             !a.word.Absent? ==>
               KeysEnd(config, credentials, Lookup(Ended(a, SharedFiles), [Environment, WebIdentity], a.asked))
    ensures if FromSharedFiles(h).word.Absent? then AbsentUpTo(SourcesOf(h, region), CHAIN, 3)
            else KeysEnd(config, credentials, LookupOn(h, region))
  {
    SaysIs(h, region);
    if !FromSharedFiles(h).word.Absent? {
      HostIsQuiet(h, region);
      FirstPresentDecides(SourcesOf(h, region), CHAIN, 2);
      assert CHAIN[..2] == [Environment, WebIdentity];
    }
  }

  lemma SharedAttempt(h: Host, name: string, configPath: Option<string>, credentialsPath: Option<string>,
                      config: Option<Profile.Keys>, credentials: Option<Profile.Keys>)
    requires IsProfile(h, name) && (config.Some? || credentials.Some?)
    requires IsPath(h, "AWS_CONFIG_FILE", "config", configPath) && IsRead(h, configPath, true, name, config)
    requires IsPath(h, "AWS_SHARED_CREDENTIALS_FILE", "credentials", credentialsPath)
    requires IsRead(h, credentialsPath, false, name, credentials)
    ensures var a := FromSharedFiles(h);
            && (a.word.Absent? <==> NotSet(h, "AWS_PROFILE") && HasNoKeys(config, credentials))
            && (!a.word.Absent? ==>
                  KeysEnd(config, credentials, Lookup(Ended(a, SharedFiles), [Environment, WebIdentity], a.asked)))
  {
    MergedKeys(h, name, configPath, credentialsPath, config, credentials);
    KeysAttemptEnds(config, credentials, ProfileKeys(h, name), !NotSet(h, "AWS_PROFILE"));
    NamedAttempt(h, name);
  }

  lemma NamedAttempt(h: Host, name: string)
    requires IsProfile(h, name)
    ensures FromSharedFiles(h) == KeysAttempt(ProfileKeys(h, name), !NotSet(h, "AWS_PROFILE"))
  {
  }

  /** A file that is there and can't be read ends the lookup, and so does a named profile that is in
      neither file. */
  lemma SharedFilesRefused(h: Host, region: string, name: string, configPath: Option<string>,
                           credentialsPath: Option<string>)
    requires AbsentUpTo(SourcesOf(h, region), CHAIN, 2) && IsProfile(h, name)
    requires IsPath(h, "AWS_CONFIG_FILE", "config", configPath)
    requires IsPath(h, "AWS_SHARED_CREDENTIALS_FILE", "credentials", credentialsPath)
    requires || (configPath.Some? && h.file(configPath.value) == Unreadable)
             || (credentialsPath.Some? && h.file(credentialsPath.value) == Unreadable)
             || (!NotSet(h, "AWS_PROFILE") && IsRead(h, configPath, true, name, None)
                 && IsRead(h, credentialsPath, false, name, None))
    ensures LookupOn(h, region) == Lookup(Err(Refused, Some(SharedFiles)), [Environment, WebIdentity], [])
  {
    HostIsQuiet(h, region);
    SaysIs(h, region);
    SamePath(h, "AWS_CONFIG_FILE", "config", configPath);
    SamePath(h, "AWS_SHARED_CREDENTIALS_FILE", "credentials", credentialsPath);
    FirstPresentDecides(SourcesOf(h, region), CHAIN, 2);
    assert CHAIN[..2] == [Environment, WebIdentity];
  }

  // ---- The container endpoint and IMDS ----

  /** A field that isn't there, or is there and empty. */
  predicate Missing(field: Option<string>) { field.None? || field.value == "" }

  /** What a credentials document comes to. */
  ghost predicate DocumentEnds(h: Host, a: Answer, source: Source, r: Result) {
    && (a.Unreachable? ==> r == Err(Clean, Some(source)))
    && (a.Status? && !(200 <= a.code <= 299) ==>
          r == Err(if TryAgain(a.code) then Clean else Refused, Some(source)))
    && (a.Status? && 200 <= a.code <= 299 ==>
          if a.json.None? || Missing(a.json.value.accessKeyId) || Missing(a.json.value.secretAccessKey)
          then r == Err(Refused, Some(source))
          else
            var json := a.json.value;
            && r.Ok? && Some(r.c.accessKeyId) == json.accessKeyId && Some(r.c.secretAccessKey) == json.secretAccessKey
            && r.c.sessionToken == (if Missing(json.token) then None else json.token) && r.c.source == source
            && r.c.expires == if Missing(json.expiration) then None else h.instant(json.expiration.value))
  }

  lemma DocumentWordEnds(h: Host, a: Answer, source: Source, asked: seq<Request>)
    ensures DocumentEnds(h, a, source, Ended(Attempt(DocumentWord(h, a, source), asked), source))
  {
  }

  /** The address: the relative one below the fixed host, or the full one, if it may be asked. */
  predicate IsAddress(h: Host, url: string) {
    if !NotSet(h, "AWS_CONTAINER_CREDENTIALS_RELATIVE_URI") then
      url == "http://169.254.170.2" + Trimmed(h, "AWS_CONTAINER_CREDENTIALS_RELATIVE_URI")
    else
      && !NotSet(h, "AWS_CONTAINER_CREDENTIALS_FULL_URI")
      && url == Trimmed(h, "AWS_CONTAINER_CREDENTIALS_FULL_URI") && h.allowed(url)
  }

  predicate NamesToken(h: Host, name: string, token: string) {
    !NotSet(h, name) && IsToken(h, h.variable(name).value, token)
  }

  /** The authorization: the variable's, or the token of the file the other one names, or none. */
  predicate IsAuthorization(h: Host, token: Option<string>) {
    if !NotSet(h, "AWS_CONTAINER_AUTHORIZATION_TOKEN") then IsTrimmed(h, "AWS_CONTAINER_AUTHORIZATION_TOKEN", token)
    else if !NotSet(h, "AWS_CONTAINER_AUTHORIZATION_TOKEN_FILE") then
      token.Some? && NamesToken(h, "AWS_CONTAINER_AUTHORIZATION_TOKEN_FILE", token.value)
    else token == None
  }

  lemma ContainerAsked(h: Host, url: string, token: Option<string>)
    requires IsAddress(h, url) && IsAuthorization(h, token)
    ensures ContainerSetup(h) == Asks(ContainerGet(url, token))
  {
  }

  /** The endpoint is asked once, with that authorization; its document decides. */
  lemma ContainerAsks(h: Host, region: string, url: string, token: Option<string>)
    requires AbsentUpTo(SourcesOf(h, region), CHAIN, 3) && IsAddress(h, url) && IsAuthorization(h, token)
    ensures var request := ContainerGet(url, token);
            var l := LookupOn(h, region);
            && l.asked == [request] && l.absent == [Environment, WebIdentity, SharedFiles]
            && DocumentEnds(h, h.answer(request), Container, l.result)
  {
    HostIsQuiet(h, region);
    SaysIs(h, region);
    ContainerAsked(h, url, token);
    var request := ContainerGet(url, token);
    DocumentWordEnds(h, h.answer(request), Container, [request]);
    DocumentIsThere(h, h.answer(request), Container);
    FirstPresentDecides(SourcesOf(h, region), CHAIN, 3);
    assert CHAIN[..3] == [Environment, WebIdentity, SharedFiles];
  }

  predicate Disallowed(h: Host, name: string) { !NotSet(h, name) && !h.allowed(Trim(h.variable(name).value)) }

  predicate NamesNoToken(h: Host, name: string) { !NotSet(h, name) && NoToken(h, h.variable(name).value) }

  /** A full address that may not be asked, or no token in its file: refused, and nothing is asked. */
  lemma ContainerRefused(h: Host, region: string)
    requires AbsentUpTo(SourcesOf(h, region), CHAIN, 3)
    requires !NotSet(h, "AWS_CONTAINER_CREDENTIALS_RELATIVE_URI") || !NotSet(h, "AWS_CONTAINER_CREDENTIALS_FULL_URI")
    requires || (NotSet(h, "AWS_CONTAINER_CREDENTIALS_RELATIVE_URI")
                 && Disallowed(h, "AWS_CONTAINER_CREDENTIALS_FULL_URI"))
             || (NotSet(h, "AWS_CONTAINER_AUTHORIZATION_TOKEN")
                 && NamesNoToken(h, "AWS_CONTAINER_AUTHORIZATION_TOKEN_FILE"))
    ensures LookupOn(h, region)
         == Lookup(Err(Refused, Some(Container)), [Environment, WebIdentity, SharedFiles], [])
  {
    HostIsQuiet(h, region);
    SaysIs(h, region);
    ContainerMisconfigured(h);
    FirstPresentDecides(SourcesOf(h, region), CHAIN, 3);
    assert CHAIN[..3] == [Environment, WebIdentity, SharedFiles];
  }

  lemma ContainerMisconfigured(h: Host)
    requires !NotSet(h, "AWS_CONTAINER_CREDENTIALS_RELATIVE_URI") || !NotSet(h, "AWS_CONTAINER_CREDENTIALS_FULL_URI")
    requires || (NotSet(h, "AWS_CONTAINER_CREDENTIALS_RELATIVE_URI")
                 && Disallowed(h, "AWS_CONTAINER_CREDENTIALS_FULL_URI"))
             || (NotSet(h, "AWS_CONTAINER_AUTHORIZATION_TOKEN")
                 && NamesNoToken(h, "AWS_CONTAINER_AUTHORIZATION_TOKEN_FILE"))
    ensures ContainerSetup(h) == Misconfigured
  {
  }

  /** IMDS is switched off by `true`, in any case and with blanks around it. */
  predicate SwitchedOff(h: Host) {
    Lower(Trimmed(h, "AWS_EC2_METADATA_DISABLED")) == "true"
  }

  /** The role asked for: the first line with anything on it, trimmed. */
  ghost predicate IsFirstRole(lines: seq<string>, role: string) {
    exists i | 0 <= i < |lines| ::
      role == Trim(lines[i]) && role != "" && forall j | 0 <= j < i :: Trim(lines[j]) == ""
  }

  lemma {:induction false} FirstRoleIs(lines: seq<string>)
    ensures FirstRole(lines).Some? ==> IsFirstRole(lines, FirstRole(lines).value)
    ensures FirstRole(lines).None? ==> forall line <- lines :: Trim(line) == ""
  {
    if lines != [] && Trim(lines[0]) == "" {
      FirstRoleIs(lines[1..]);
      if FirstRole(lines).Some? {
        var i :| 0 <= i < |lines[1..]| && FirstRole(lines).value == Trim(lines[1..][i])
                 && forall j | 0 <= j < i :: Trim(lines[1..][j]) == "";
        assert forall j | 0 <= j < i + 1 :: Trim(lines[j]) == "" by {
          assert forall j | 0 < j < i + 1 :: lines[j] == lines[1..][j - 1];
        }
        assert FirstRole(lines).value == Trim(lines[i + 1]);
      }
    }
  }

  /** A failed step: no answer, or a status that isn't a success. */
  predicate StepFails(a: Answer, r: Result) {
    && (a.Unreachable? ==> r == Err(Clean, Some(Imds)))
    && (a.Status? && !(200 <= a.code <= 299) ==> r == Err(if TryAgain(a.code) then Clean else Refused, Some(Imds)))
  }

  predicate Succeeds(a: Answer) { a.Status? && 200 <= a.code <= 299 }

  /** IMDS step by step: a session token, the roles under it, and the first role's document. */
  ghost predicate ImdsEnds(h: Host, l: Lookup) {
    var token := h.answer(ImdsToken);
    && l.absent == [Environment, WebIdentity, SharedFiles, Container]
    && if !Succeeds(token) then l.asked == [ImdsToken] && StepFails(token, l.result)
       else
         var session := Some(Trim(token.body));
         var roles := h.answer(ImdsRoles(session));
         if !Succeeds(roles) then l.asked == [ImdsToken, ImdsRoles(session)] && StepFails(roles, l.result)
         else if forall line <- Lines(roles.body) :: Trim(line) == "" then
           l.asked == [ImdsToken, ImdsRoles(session)] && l.result == Err(Refused, Some(Imds))
         else
           exists role ::
             && IsFirstRole(Lines(roles.body), role)
             && l.asked == [ImdsToken, ImdsRoles(session), ImdsRole(role, session)]
             && DocumentEnds(h, h.answer(ImdsRole(role, session)), Imds, l.result)
  }

  lemma ImdsSessionEnds(h: Host, session: Option<string>)
    ensures var a, roles := FromImdsSession(h, session, [ImdsToken]), h.answer(ImdsRoles(session));
            if !Succeeds(roles) then a.asked == [ImdsToken, ImdsRoles(session)] && StepFails(roles, Ended(a, Imds))
            else if forall line <- Lines(roles.body) :: Trim(line) == "" then
              a.asked == [ImdsToken, ImdsRoles(session)] && Ended(a, Imds) == Err(Refused, Some(Imds))
            else
              exists role ::
                && IsFirstRole(Lines(roles.body), role)
                && a.asked == [ImdsToken, ImdsRoles(session), ImdsRole(role, session)]
                && DocumentEnds(h, h.answer(ImdsRole(role, session)), Imds, Ended(a, Imds))
  {
    var roles := h.answer(ImdsRoles(session));
    if Succeeds(roles) {
      FirstRoleIs(Lines(roles.body));
      var first := FirstRole(Lines(roles.body));
      if first.Some? {
        var role := first.value;
        DocumentWordEnds(h, h.answer(ImdsRole(role, session)), Imds,
                         [ImdsToken, ImdsRoles(session), ImdsRole(role, session)]);
        assert IsFirstRole(Lines(roles.body), role);
      }
    }
  }

  /** With the four others absent, IMDS is asked in those steps, or refused when it is off. */
  lemma ImdsAsks(h: Host, region: string)
    requires AbsentUpTo(SourcesOf(h, region), CHAIN, 4)
    ensures var l := LookupOn(h, region);
            if SwitchedOff(h)
            then l == Lookup(Err(Refused, None), [Environment, WebIdentity, SharedFiles, Container], [])
            else ImdsEnds(h, l)
  {
    HostIsQuiet(h, region);
    ImdsDecides(SourcesOf(h, region), CHAIN);
    var token := h.answer(ImdsToken);
    if !SwitchedOff(h) && Succeeds(token) {
      ImdsSessionEnds(h, Some(Trim(token.body)));
    }
  }
}
