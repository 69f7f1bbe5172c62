/** How far the pairwise check reaches over several releases: everything it compares is kept along a chain, and so are
    the scopes of a token grant, unless the grant was dropped and came back around releases that did not publish their
    host-kept fields. */
module GrantScopes {
  import opened Wrappers
  import opened Texts
  import opened Manifests
  import opened ConnectorVersions
  import opened ConnectionCompatibility
  import opened GeneratedValidators
  import opened ReleaseGate
  import HostKeptCredentials

  /** A grant that the middle method dropped comes back with the scopes that it had. */
  predicate GrantsReturnAlike(first: AuthMethod, middle: AuthMethod, last: AuthMethod)
  {
    && (middle.clientCredentials.None? ==> ClientCredentialsScopesKept(first, last))
    && (middle.jwtBearer.None? ==> JwtBearerScopesKept(first, last))
  }

  ghost predicate MethodReturnsAlike(first: Auth, middle: Auth, last: Auth, m: AuthMethod)
  {
    forall between, serving :: Serves(first, middle, m, between) && Serves(middle, last, between, serving) ==>
      GrantsReturnAlike(m, between, serving)
  }

  ghost predicate DroppedGrantsReturnAlike(first: Auth, middle: Auth, last: Auth)
  {
    forall m :: m in AuthMethods(first) ==> MethodReturnsAlike(first, middle, last, m)
  }

  lemma CredentialFieldsKeptTransitive(first: seq<Field>, middle: seq<Field>, last: seq<Field>)
    requires CredentialFieldsKept(first, middle) && CredentialFieldsKept(middle, last)
    ensures CredentialFieldsKept(first, last)
  {
    forall field | field in first ensures CredentialFieldKeptIn(field, last) {
      assert CredentialFieldKeptIn(field, middle);
      var between :| between in middle && CredentialFieldKept(field, between);
      assert CredentialFieldKeptIn(between, last);
    }
  }

  lemma SettingsKeptTransitive(first: seq<Field>, middle: seq<Field>, last: seq<Field>)
    requires UniqueNames(last) && SettingsKept(first, middle) && SettingsKept(middle, last)
    ensures SettingsKept(first, last)
  {
    forall field | field in first ensures SettingKeptIn(field, last) {
      assert SettingKeptIn(field, middle);
      var between :| between in middle && SettingKept(field, between);
      assert SettingKeptIn(between, last);
      var kept :| kept in last && SettingKept(between, kept);
      assert SettingKept(field, kept);
    }
    forall field | field in last && field.required ensures field.name in Names(first) {
      var between :| between in middle && between.name == field.name;
      assert SettingKeptIn(between, last);
      var kept :| kept in last && SettingKept(between, kept);
      assert kept == field;
    }
  }

  lemma MethodKeptTransitive(first: AuthMethod, middle: AuthMethod, last: AuthMethod)
    requires MethodKept(first, middle) && MethodKept(middle, last) && UniqueNames(ConfigurationOf(last))
    ensures MethodKept(first, last) <==> GrantsReturnAlike(first, middle, last)
  {
    CredentialFieldsKeptTransitive(first.fields, middle.fields, last.fields);
    SettingsKeptTransitive(ConfigurationOf(first), ConfigurationOf(middle), ConfigurationOf(last));
  }

  lemma ServingComposes(first: Auth, middle: Auth, last: Auth, m: AuthMethod, between: AuthMethod)
    requires ValidAuth(first) && ValidAuth(middle) && AuthKept(first, middle) && AuthKept(middle, last)
    requires m in AuthMethods(first) && Serves(first, middle, m, between)
    ensures ServingID(middle, last, between) == ServingID(first, last, m)
  {
    hide MethodKept;
    if first.methods != [] {
      MethodsStayMethods(first, middle);
    }
    if middle.methods != [] {
      MethodsStayMethods(middle, last);
    }
  }

  /** The last release serves each method of the first through the middle one. */
  lemma ServedThrough(first: Auth, middle: Auth, last: Auth, m: AuthMethod)
      returns (between: AuthMethod, serving: AuthMethod)
    requires ValidAuth(first) && ValidAuth(middle) && ValidAuth(last) && AuthKept(first, middle) &&
      AuthKept(middle, last)
    requires m in AuthMethods(first)
    ensures forall other :: Serves(first, middle, m, other) <==> other == between
    ensures forall other :: Serves(middle, last, between, other) <==> other == serving
    ensures forall other :: Serves(first, last, m, other) <==> other == serving
    ensures MethodKept(m, serving) <==> GrantsReturnAlike(m, between, serving)
  {
    hide MethodKept, GrantsReturnAlike, ValidAuth, AuthKept;
    between := ServingOf(first, middle, m);
    serving := ServingOf(middle, last, between);
    ServingComposes(first, middle, last, m, between);
    DeclaredMethod(middle, between);
    DeclaredMethod(last, serving);
    DeclaredSettings(last, serving);
    MethodKeptTransitive(m, between, serving);
  }

  lemma DeclaredSettings(auth: Auth, m: AuthMethod)
    requires ValidAuth(auth) && m in AuthMethods(auth)
    ensures UniqueNames(ConfigurationOf(m))
  {
  }

  lemma DefaultStays(first: Auth, middle: Auth, last: Auth)
    requires ValidAuth(first) && AuthKept(first, middle) && AuthKept(middle, last)
    ensures first.methods != [] && last.methods != [] ==> first.defaultMethod == last.defaultMethod
  {
    if first.methods != [] {
      MethodsStayMethods(first, middle);
    }
  }

  /** Two passed checks amount to one exactly when no dropped grant comes back with other scopes. */
  lemma KeptIsTransitiveIffGrantsAgree(first: Manifest, middle: Manifest, last: Manifest)
    requires ValidManifest(first) && ValidManifest(middle) && ValidManifest(last)
    requires ConnectionKept(first, middle) && ConnectionKept(middle, last)
    ensures ConnectionKept(first, last) <==> DroppedGrantsReturnAlike(first.auth, middle.auth, last.auth)
  {
    hide MethodKept, GrantsReturnAlike, SettingsKept, ValidAuth, Serves;
    SettingsKeptTransitive(first.configuration, middle.configuration, last.configuration);
    DefaultStays(first.auth, middle.auth, last.auth);
    forall m | m in AuthMethods(first.auth)
      ensures StillServed(first.auth, last.auth, m) <==> MethodReturnsAlike(first.auth, middle.auth, last.auth, m)
    {
      var between, serving := ServedThrough(first.auth, middle.auth, last.auth, m);
    }
  }

  // ----- What a host keeps shows which grants a method declares -----

  lemma GrantsShow(m: AuthMethod)
    requires ValidGrants(m)
    ensures m.clientCredentials.Some? <==> m.authType == "apiKey" && HostKeptCredentials.HostKept(m) != {}
    ensures m.jwtBearer.Some? <==> m.authType == "serviceAccount" && HostKeptCredentials.HostKept(m) != {}
  {
    if m.clientCredentials.Some? {
      var field :| field in m.fields && field.name == m.clientCredentials.value.clientSecretCredential;
      assert field.name in HostKeptCredentials.HostKept(m);
    } else if m.jwtBearer.Some? {
      var grant := m.jwtBearer.value;
      var name := if grant.privateKeyCredential == "" then grant.keyCredential else grant.privateKeyCredential;
      assert IsSecretField(m, name);
      var field :| field in m.fields && field.name == name;
      assert field.name in HostKeptCredentials.HostKept(m);
    }
  }

  /** A method that keeps its type and its host-kept fields keeps its grants. */
  lemma SameHostKeptSameGrants(m: AuthMethod, serving: AuthMethod)
    requires ValidGrants(m) && ValidGrants(serving) && m.authType == serving.authType
    requires HostKeptCredentials.HostKept(m) == HostKeptCredentials.HostKept(serving)
    ensures m.clientCredentials.Some? == serving.clientCredentials.Some? && m.jwtBearer.Some? == serving.jwtBearer.Some?
  {
    hide HostKeptCredentials.HostKept, ValidGrants;
    GrantsShow(m);
    GrantsShow(serving);
  }

  lemma StepKeepsGrants(released: Auth, candidate: Auth, m: AuthMethod, serving: AuthMethod)
    requires ValidAuth(released) && ValidAuth(candidate) && AuthKept(released, candidate)
    requires HostKeptUnchanged(released, candidate) && m in AuthMethods(released) &&
      Serves(released, candidate, m, serving)
    ensures m.clientCredentials.Some? == serving.clientCredentials.Some? && m.jwtBearer.Some? == serving.jwtBearer.Some?
  {
    var kept := ServingOf(released, candidate, m);
    DeclaredMethod(candidate, kept);
    assert kept == serving;
    hide ValidGrants, HostKeptCredentials.HostKept, CredentialFieldsKept, ScopesKept, SettingsKept;
    SameHostKeptSameGrants(m, serving);
  }

  /** When either check also compared the host-kept fields, two passed checks amount to one. */
  lemma KeptThroughHostKept(first: Manifest, middle: Manifest, last: Manifest)
    requires ValidManifest(first) && ValidManifest(middle) && ValidManifest(last)
    requires ConnectionKept(first, middle) && ConnectionKept(middle, last)
    requires HostKeptUnchanged(first.auth, middle.auth) || HostKeptUnchanged(middle.auth, last.auth)
    ensures ConnectionKept(first, last)
  {
    hide AuthKept, ValidAuth, HostKeptUnchanged, SettingsKept;
    KeptIsTransitiveIffGrantsAgree(first, middle, last);
    forall m, between, serving |
      m in AuthMethods(first.auth) && Serves(first.auth, middle.auth, m, between) &&
        Serves(middle.auth, last.auth, between, serving)
      ensures GrantsReturnAlike(m, between, serving)
    {
      if HostKeptUnchanged(first.auth, middle.auth) {
        StepKeepsGrants(first.auth, middle.auth, m, between);
      } else {
        StepKeepsGrants(middle.auth, last.auth, between, serving);
      }
    }
  }

  lemma HostKeptIsTransitive(first: Auth, middle: Auth, last: Auth)
    requires ValidAuth(first) && ValidAuth(middle) && ValidAuth(last) && AuthKept(first, middle) &&
      AuthKept(middle, last)
    requires HostKeptUnchanged(first, middle) && HostKeptUnchanged(middle, last)
    ensures HostKeptUnchanged(first, last)
  {
    hide ValidAuth, AuthKept, Serves, AuthMethods, HostKeptCredentials.HostKept;
    forall m, serving | m in AuthMethods(first) && Serves(first, last, m, serving)
      ensures HostKeptCredentials.HostKept(m) == HostKeptCredentials.HostKept(serving)
    {
      var between, through := ServedThrough(first, middle, last, m);
      ServingIsDeclared(first, middle, m, between);
    }
  }

  lemma ServingIsDeclared(released: Auth, candidate: Auth, m: AuthMethod, serving: AuthMethod)
    requires Serves(released, candidate, m, serving)
    ensures serving in AuthMethods(candidate)
  {
  }

  lemma KeptIsReflexive(manifest: Manifest)
    requires ValidManifest(manifest)
    ensures ConnectionKept(manifest, manifest) && HostKeptUnchanged(manifest.auth, manifest.auth)
  {
    var auth := manifest.auth;
    ValidManifestHasValidAuth(manifest);
    hide ValidManifest, ValidAuth, HostKeptCredentials.HostKept, StillServed, SettingsKept, AuthMethods, Serves;
    forall m | m in AuthMethods(auth) ensures StillServed(auth, auth, m) {
      MethodServesItself(auth, m);
    }
    FieldsKeepThemselves(manifest.configuration);
    forall m, serving | m in AuthMethods(auth) && Serves(auth, auth, m, serving) ensures m == serving {
      MethodServesItself(auth, m);
    }
  }

  lemma MethodServesItself(auth: Auth, m: AuthMethod)
    requires ValidAuth(auth) && m in AuthMethods(auth)
    ensures StillServed(auth, auth, m) && forall serving :: Serves(auth, auth, m, serving) ==> serving == m
  {
    DeclaredMethod(auth, m);
    MethodKeepsItself(m);
    hide ValidAuth, MethodKept;
    assert Serves(auth, auth, m, m);
  }

  lemma FieldsKeepThemselves(fields: seq<Field>)
    ensures SettingsKept(fields, fields) && CredentialFieldsKept(fields, fields)
  {
    hide SettingKeptIn, CredentialFieldKeptIn;
    forall field | field in fields ensures SettingKeptIn(field, fields) && CredentialFieldKeptIn(field, fields) {
      FieldKeepsItself(field, fields);
    }
  }

  lemma FieldKeepsItself(field: Field, fields: seq<Field>)
    requires field in fields
    ensures SettingKeptIn(field, fields) && CredentialFieldKeptIn(field, fields)
  {
    hide Elements;
    assert SettingKept(field, field) && CredentialFieldKept(field, field);
  }

  lemma MethodKeepsItself(m: AuthMethod)
    ensures MethodKept(m, m)
  {
    hide SettingsKept, CredentialFieldsKept;
    FieldsKeepThemselves(m.fields);
    FieldsKeepThemselves(ConfigurationOf(m));
  }

  // ----- Along a run -----

  ghost predicate HasFlags(history: seq<Release>, flags: seq<bool>)
  {
    |history| == |flags| && forall k :: 0 <= k < |flags| ==> history[k].snapshot.publishesHostKept == flags[k]
  }

  /** At most one of the releases from earlier up to later was built without the host-kept rule. */
  predicate AtMostOneUnpublished(flags: seq<bool>, earlier: nat, later: nat)
    requires later <= |flags|
  {
    forall i, j :: earlier <= i < j < later ==> flags[i] || flags[j]
  }

  lemma NeighboursKept(component: Component, history: seq<Release>, earlier: nat, later: nat)
    requires IsRun(component, history) && earlier < later < |history| &&
      Major(history[earlier]) == Major(history[later])
    ensures Major(history[later - 1]) == Major(history[earlier])
    ensures var released, candidate := history[later - 1].snapshot.manifest, history[later].snapshot.manifest;
      && ValidManifest(released) && ValidManifest(candidate) && ConnectionKept(released, candidate)
      && (history[later - 1].snapshot.publishesHostKept ==> HostKeptUnchanged(released.auth, candidate.auth))
  {
    hide IsRun, Major, ConnectionKept, HostKeptUnchanged, ValidManifest;
    NeighboursKeepConnections(component, history, earlier, later);
  }

  /** Among releases that published their host-kept fields, both contracts reach over the whole major version. */
  lemma {:induction false} BothKeptAlong(component: Component, history: seq<Release>, earlier: nat, later: nat)
    requires IsRun(component, history) && earlier <= later < |history| &&
      Major(history[earlier]) == Major(history[later])
    requires HostKeptPublished(history, earlier, later)
    ensures ValidManifest(history[earlier].snapshot.manifest)
    ensures ConnectionKept(history[earlier].snapshot.manifest, history[later].snapshot.manifest)
    ensures HostKeptUnchanged(history[earlier].snapshot.manifest.auth, history[later].snapshot.manifest.auth)
    decreases later
  {
    hide *;
    var first, last := history[earlier].snapshot.manifest, history[later].snapshot.manifest;
    RunIsValid(component, history, earlier);
    if earlier == later {
      KeptIsReflexive(first);
    } else {
      var middle := history[later - 1].snapshot.manifest;
      NeighboursKept(component, history, earlier, later);
      PublishedBefore(history, earlier, later);
      BothKeptAlong(component, history, earlier, later - 1);
      KeptThroughHostKept(first, middle, last);
      KeptParts(first, middle);
      KeptParts(middle, last);
      HostKeptIsTransitive(first.auth, middle.auth, last.auth);
    }
  }

  lemma PublishedBefore(history: seq<Release>, earlier: nat, later: nat)
    requires earlier < later <= |history| && HostKeptPublished(history, earlier, later)
    ensures HostKeptPublished(history, earlier, later - 1) && history[later - 1].snapshot.publishesHostKept
  {
  }

  lemma KeptParts(released: Manifest, candidate: Manifest)
    requires ValidManifest(released) && ValidManifest(candidate) && ConnectionKept(released, candidate)
    ensures ValidAuth(released.auth) && ValidAuth(candidate.auth) && AuthKept(released.auth, candidate.auth)
  {
  }

  /** With at most one release that did not publish them, the whole connection contract, scopes included, still does. */
  lemma {:induction false} ConnectionKeptAlong(component: Component, history: seq<Release>, flags: seq<bool>,
      earlier: nat, later: nat)
    requires IsRun(component, history) && HasFlags(history, flags) && earlier <= later < |history|
    requires Major(history[earlier]) == Major(history[later]) && AtMostOneUnpublished(flags, earlier, later)
    ensures ConnectionKept(history[earlier].snapshot.manifest, history[later].snapshot.manifest)
    decreases later
  {
    hide *;
    var first, last := history[earlier].snapshot.manifest, history[later].snapshot.manifest;
    RunIsValid(component, history, earlier);
    if earlier == later {
      KeptIsReflexive(first);
    } else {
      var middle := history[later - 1].snapshot.manifest;
      NeighboursKept(component, history, earlier, later);
      OneUnpublishedBefore(history, flags, earlier, later);
      ConnectionKeptAlong(component, history, flags, earlier, later - 1);
      if !history[later - 1].snapshot.publishesHostKept {
        BothKeptAlong(component, history, earlier, later - 1);
      }
      KeptThroughHostKept(first, middle, last);
    }
  }

  lemma OneUnpublishedBefore(history: seq<Release>, flags: seq<bool>, earlier: nat, later: nat)
    requires HasFlags(history, flags) && earlier < later < |history| && AtMostOneUnpublished(flags, earlier, later)
    ensures AtMostOneUnpublished(flags, earlier, later - 1)
    ensures history[later - 1].snapshot.publishesHostKept || HostKeptPublished(history, earlier, later - 1)
  {
  }

  // ----- Runs in which a grant comes back with other scopes -----

  const TOKEN_FIELDS := [
    Field("client_id", StringField, true, []), Field("client_secret", SecretStringField, true, []),
    Field("token", SecretStringField, false, [])]

  function TokenManifest(scopes: Option<seq<string>>): Manifest
  {
    var grant := if scopes.None? then None
      else Some(ClientCredentialsGrant("client_id", "client_secret", scopes.value,
        [CredentialMapping("token", "access_token")]));
    Manifest([], Auth("apiKey", TOKEN_FIELDS, None, grant, None, "", []))
  }

  function TokenRelease(component: Component, minor: nat, scopes: Option<seq<string>>, publishes: bool): Release
  {
    var version := RenderVersion(Parts(1, minor, 0));
    Release(Path(component) + "/" + version, version, "", Snapshot(TokenManifest(scopes), publishes))
  }

  lemma TokenVersion(component: Component, minor: nat, scopes: Option<seq<string>>, publishes: bool)
    requires minor <= MAX_INT
    ensures var release := TokenRelease(component, minor, scopes, publishes);
      IsVersion(release.version) && VersionParts(release.version).value == Parts(1, minor, 0) && Major(release) == 1
  {
    PartsRoundTrip(Parts(1, minor, 0));
  }

  lemma TokenManifestValid(scopes: Option<seq<string>>)
    ensures ValidManifest(TokenManifest(scopes))
  {
    var m := SingleMethod(TokenManifest(scopes).auth);
    assert m.fields[0] in m.fields && m.fields[1] in m.fields;
    assert IsPublicField(m, "client_id") && IsSecretField(m, "client_secret");
    assert ValidGrants(m);
    assert MethodSettings([]) == [];
  }

  lemma TokenMethodKept(scopes: Option<seq<string>>, others: Option<seq<string>>)
    ensures (scopes.Some? && others.Some? ==> SameElements(scopes.value, others.value)) <==>
      MethodKept(SingleMethod(TokenManifest(scopes).auth), SingleMethod(TokenManifest(others).auth))
  {
    hide CredentialFieldsKept, SettingsKept;
    FieldsKeepThemselves(TOKEN_FIELDS);
    FieldsKeepThemselves([]);
  }

  lemma TokenKept(scopes: Option<seq<string>>, others: Option<seq<string>>)
    ensures (scopes.Some? && others.Some? ==> SameElements(scopes.value, others.value)) <==>
      ConnectionKept(TokenManifest(scopes), TokenManifest(others))
  {
    hide MethodKept, SameElements, SettingsKept;
    var auth, next := TokenManifest(scopes).auth, TokenManifest(others).auth;
    var m, serving := SingleMethod(auth), SingleMethod(next);
    TokenMethodKept(scopes, others);
    FieldsKeepThemselves([]);
    assert AuthMethods(auth) == [m] && AuthMethods(next) == [serving];
    assert Serves(auth, next, m, serving);
    assert StillServed(auth, next, m) <==> MethodKept(m, serving);
  }

  /** Release k asks for read up to i, declares no grant up to j, and asks for write after that. */
  function ScopesAt(i: nat, j: nat, k: nat): Option<seq<string>>
  {
    if k <= i then Some(["read"]) else if k <= j then None else Some(["write"])
  }

  function TokenRun(component: Component, flags: seq<bool>, i: nat, j: nat, length: nat): (history: seq<Release>)
    requires length <= |flags|
    ensures |history| == length
    ensures forall k :: 0 <= k < length ==> history[k] == TokenRelease(component, k, ScopesAt(i, j, k), flags[k])
  {
    seq(length, k requires 0 <= k < length => TokenRelease(component, k, ScopesAt(i, j, k), flags[k]))
  }

  /** The grant changes only after a release that did not publish its host-kept fields. */
  lemma TokenStep(component: Component, flags: seq<bool>, i: nat, j: nat, k: nat)
    requires i < j && k + 1 < |flags| <= MAX_INT && (k == i || k == j ==> !flags[k])
    ensures Follows(component, TokenRelease(component, k, ScopesAt(i, j, k), flags[k]),
                    TokenRelease(component, k + 1, ScopesAt(i, j, k + 1), flags[k + 1]))
  {
    TokenOlder(component, k, ScopesAt(i, j, k), flags[k], ScopesAt(i, j, k + 1), flags[k + 1]);
    TokenChanges(ScopesAt(i, j, k), ScopesAt(i, j, k + 1), flags[k]);
    TagHasPrefix(component, TokenRelease(component, k, ScopesAt(i, j, k), flags[k]).version);
    hide VersionParts, RenderVersion, TokenManifest, KeepsConnections, HasPrefix, Older, IsVersion, ScopesAt, Major;
  }

  lemma TokenOlder(component: Component, k: nat, scopes: Option<seq<string>>, publishes: bool,
      others: Option<seq<string>>, next: bool)
    requires k + 1 <= MAX_INT
    ensures var latest := TokenRelease(component, k, scopes, publishes);
      IsVersion(latest.version) && Older(latest.version, TokenRelease(component, k + 1, others, next).version)
  {
    hide VersionParts, RenderVersion;
    TokenVersion(component, k, scopes, publishes);
    TokenVersion(component, k + 1, others, next);
  }

  /** The gate compares host-kept fields only after a release that published them, and there the grant stays as
      it is. */
  lemma TokenChanges(scopes: Option<seq<string>>, others: Option<seq<string>>, publishes: bool)
    requires scopes == others || (!publishes && (scopes.None? || others.None?))
    ensures KeepsConnections(Snapshot(TokenManifest(scopes), publishes), TokenManifest(others))
  {
    TokenManifestValid(scopes);
    KeptIsReflexive(TokenManifest(scopes));
    TokenKept(scopes, others);
    hide ConnectionKept, HostKeptUnchanged, TokenManifest, ValidManifest, SameElements;
  }

  lemma TagHasPrefix(component: Component, version: string)
    ensures component.language == "go" ==> HasPrefix(Path(component) + "/" + version, component.directory + "/go/")
  {
  }

  lemma {:induction false} TokenRunIsRun(component: Component, flags: seq<bool>, i: nat, j: nat, length: nat)
    requires i < j < |flags| <= MAX_INT && length <= |flags| && !flags[i] && !flags[j]
    ensures IsRun(component, TokenRun(component, flags, i, j, length))
  {
    hide *;
    var history := TokenRun(component, flags, i, j, length);
    if length == 0 {
      EmptyIsRun(component, history);
    } else {
      var k := length - 1;
      var before, next := TokenRun(component, flags, i, j, k), history[k];
      TokenRunIsRun(component, flags, i, j, k);
      assert history == before + [next];
      TokenReleaseIsValid(component, k, ScopesAt(i, j, k), flags[k]);
      if k > 0 {
        TokenStep(component, flags, i, j, k - 1);
        assert before[|before| - 1] == TokenRelease(component, k - 1, ScopesAt(i, j, k - 1), flags[k - 1]);
      }
      RunSnoc(component, before, next);
    }
  }

  lemma EmptyIsRun(component: Component, history: seq<Release>)
    requires history == []
    ensures IsRun(component, history)
  {
  }

  lemma RunSnoc(component: Component, history: seq<Release>, next: Release)
    requires IsRun(component, history) && IsVersion(next.version) && ValidManifest(next.snapshot.manifest)
    requires history != [] ==> Follows(component, history[|history| - 1], next)
    ensures IsRun(component, history + [next])
  {
    hide Follows, ValidManifest, IsVersion;
    assert (history + [next])[..|history|] == history;
  }

  lemma TokenReleaseIsValid(component: Component, minor: nat, scopes: Option<seq<string>>, publishes: bool)
    requires minor <= MAX_INT
    ensures var release := TokenRelease(component, minor, scopes, publishes);
      IsVersion(release.version) && Major(release) == 1 && ValidManifest(release.snapshot.manifest)
  {
    TokenVersion(component, minor, scopes, publishes);
    TokenManifestValid(scopes);
  }

  const TOKEN: Stored := map["client_id" := Text("id"), "client_secret" := Text("secret")]

  lemma TokenAccepted(isURL: UrlCheck, scopes: Option<seq<string>>)
    ensures CredentialAccepted(isURL, Full, TokenManifest(scopes).auth, TOKEN)
  {
    hide HostKeptCredentials.HostKept;
    var auth := TokenManifest(scopes).auth;
    assert StructFields(auth) == auth.fields;
    assert auth.fields[0] in auth.fields && auth.fields[1] in auth.fields;
    assert Selects(auth, TOKEN, SingleMethod(auth));
    assert MethodAccepts(isURL, Full, SingleMethod(auth), TOKEN);
  }

  /** Releases i and j did not publish their host-kept fields: the gate admits a grant, its removal after i, and its
      return with another scope after j. The stored credential works throughout. */
  lemma DroppedGrantForgetsScopes(component: Component, flags: seq<bool>, i: nat, j: nat)
      returns (history: seq<Release>)
    requires i < j < |flags| <= MAX_INT && !flags[i] && !flags[j]
    ensures IsRun(component, history) && HasFlags(history, flags)
    ensures forall k :: 0 <= k < |flags| ==> Major(history[k]) == 1
    ensures forall earlier, later :: 0 <= earlier <= i && j < later < |flags| ==>
      !ConnectionKept(history[earlier].snapshot.manifest, history[later].snapshot.manifest)
    ensures forall isURL, k ::
      0 <= k < |flags| ==> CredentialAccepted(isURL, Full, history[k].snapshot.manifest.auth, TOKEN)
  {
    hide ConnectionKept, CredentialAccepted, IsRun, TokenManifest, Major;
    history := TokenRun(component, flags, i, j, |flags|);
    TokenRunIsRun(component, flags, i, j, |flags|);
    forall k | 0 <= k < |flags| ensures Major(history[k]) == 1 {
      TokenVersion(component, k, ScopesAt(i, j, k), flags[k]);
    }
    assert "read" in Elements(["read"]) && "read" !in Elements(["write"]);
    TokenKept(Some(["read"]), Some(["write"]));
    forall isURL, k | 0 <= k < |flags|
      ensures CredentialAccepted(isURL, Full, history[k].snapshot.manifest.auth, TOKEN)
    {
      TokenAccepted(isURL, ScopesAt(i, j, k));
    }
  }

  /** Every run with these flags keeps the contract from one release to the other. */
  ghost predicate AlwaysKept(component: Component, flags: seq<bool>, earlier: nat, later: nat)
    requires earlier <= later < |flags|
  {
    forall history: seq<Release> | IsRun(component, history) && HasFlags(history, flags) &&
      Major(history[earlier]) == Major(history[later]) ::
      ConnectionKept(history[earlier].snapshot.manifest, history[later].snapshot.manifest)
  }

  /** The contract, scopes included, reaches from one release to another of its major version in every run exactly when
      at most one release before the later one was built without the host-kept rule. */
  lemma KeptIffPublished(component: Component, flags: seq<bool>, earlier: nat, later: nat)
    requires earlier <= later < |flags| <= MAX_INT
    ensures AlwaysKept(component, flags, earlier, later) <==> AtMostOneUnpublished(flags, earlier, later)
  {
    hide IsRun, Major, ConnectionKept;
    if AtMostOneUnpublished(flags, earlier, later) {
      forall history: seq<Release> | IsRun(component, history) && HasFlags(history, flags) &&
        Major(history[earlier]) == Major(history[later])
        ensures ConnectionKept(history[earlier].snapshot.manifest, history[later].snapshot.manifest)
      {
        ConnectionKeptAlong(component, history, flags, earlier, later);
      }
    } else {
      var i, j :| earlier <= i < j < later && !flags[i] && !flags[j];
      var history := DroppedGrantForgetsScopes(component, flags, i, j);
      assert Major(history[earlier]) == Major(history[later]);
    }
  }
}
