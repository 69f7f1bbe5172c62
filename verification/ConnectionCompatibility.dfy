/** The pairwise connection check between a released manifest and a candidate of the same major version. */
module ConnectionCompatibility {
  import opened Wrappers
  import opened Manifests
  import opened SortedStrings
  import HostKeptCredentials

  // ----- What the connection contract promises -----

  predicate SameElements(left: seq<string>, right: seq<string>)
  {
    Elements(left) == Elements(right)
  }

  predicate CredentialFieldKept(released: Field, candidate: Field)
  {
    && released.name == candidate.name
    && released.fieldType == candidate.fieldType
    && released.required == candidate.required
    && SameElements(released.enumValues, candidate.enumValues)
  }

  ghost predicate CredentialFieldKeptIn(released: Field, candidate: seq<Field>)
  {
    exists kept :: kept in candidate && CredentialFieldKept(released, kept)
  }

  /** The same credential fields, in any order. */
  ghost predicate CredentialFieldsKept(released: seq<Field>, candidate: seq<Field>)
  {
    && (forall field :: field in released ==> CredentialFieldKeptIn(field, candidate))
    && Names(candidate) <= Names(released)
  }

  predicate SettingKept(released: Field, candidate: Field)
  {
    && released.name == candidate.name
    && released.fieldType == candidate.fieldType
    && (candidate.required ==> released.required)
    && Elements(released.enumValues) <= Elements(candidate.enumValues)
  }

  ghost predicate SettingKeptIn(released: Field, candidate: seq<Field>)
  {
    exists kept :: kept in candidate && SettingKept(released, kept)
  }

  /** Settings only gain optional fields. */
  ghost predicate SettingsKept(released: seq<Field>, candidate: seq<Field>)
  {
    && (forall field :: field in released ==> SettingKeptIn(field, candidate))
    && (forall field :: field in candidate && field.required ==> field.name in Names(released))
  }

  predicate OAuthScopesKept(released: ValueSource, candidate: ValueSource)
  {
    && released.fromSetting == candidate.fromSetting
    && SameElements(released.list, candidate.list)
  }

  function OAuthScopes(oauth: Option<OAuth2>): ValueSource
  {
    if oauth.None? then ValueSource([], "") else oauth.value.scopes
  }

  function OAuthUserScopes(oauth: Option<OAuth2>): seq<string>
  {
    if oauth.None? then [] else oauth.value.userScopes
  }

  predicate ClientCredentialsScopesKept(released: AuthMethod, candidate: AuthMethod)
  {
    released.clientCredentials.Some? && candidate.clientCredentials.Some? ==>
      SameElements(released.clientCredentials.value.scopes, candidate.clientCredentials.value.scopes)
  }

  predicate JwtBearerScopesKept(released: AuthMethod, candidate: AuthMethod)
  {
    released.jwtBearer.Some? && candidate.jwtBearer.Some? ==>
      SameElements(released.jwtBearer.value.scopes, candidate.jwtBearer.value.scopes)
  }

  predicate ScopesKept(released: AuthMethod, candidate: AuthMethod)
  {
    && OAuthScopesKept(OAuthScopes(released.oauth2), OAuthScopes(candidate.oauth2))
    && SameElements(OAuthUserScopes(released.oauth2), OAuthUserScopes(candidate.oauth2))
    && ClientCredentialsScopesKept(released, candidate)
    && JwtBearerScopesKept(released, candidate)
  }

  ghost predicate MethodKept(released: AuthMethod, candidate: AuthMethod)
  {
    && released.authType == candidate.authType
    && CredentialFieldsKept(released.fields, candidate.fields)
    && ScopesKept(released, candidate)
    && SettingsKept(ConfigurationOf(released), ConfigurationOf(candidate))
  }

  /** The candidate method ID that serves connections of a released method. */
  function ServingID(released: Auth, candidate: Auth, m: AuthMethod): string
  {
    if released.methods == [] && candidate.methods != [] then candidate.defaultMethod else m.id
  }

  ghost predicate Serves(released: Auth, candidate: Auth, m: AuthMethod, serving: AuthMethod)
  {
    serving in AuthMethods(candidate) && serving.id == ServingID(released, candidate, m)
  }

  ghost predicate StillServed(released: Auth, candidate: Auth, m: AuthMethod)
  {
    exists serving :: Serves(released, candidate, m, serving) && MethodKept(m, serving)
  }

  ghost predicate AuthKept(released: Auth, candidate: Auth)
  {
    && (released.methods != [] && candidate.methods != [] ==> released.defaultMethod == candidate.defaultMethod)
    && (forall m :: m in AuthMethods(released) ==> StillServed(released, candidate, m))
  }

  ghost predicate ConnectionKept(released: Manifest, candidate: Manifest)
  {
    && AuthKept(released.auth, candidate.auth)
    && SettingsKept(released.configuration, candidate.configuration)
  }

  ghost predicate HostKeptUnchanged(released: Auth, candidate: Auth)
  {
    forall m, serving :: m in AuthMethods(released) && Serves(released, candidate, m, serving) ==>
      HostKeptCredentials.HostKept(m) == HostKeptCredentials.HostKept(serving)
  }

  // ----- The break reports of schema/connection_compatibility.go -----

  datatype Break =
    | DefaultMethodChanges(from: string, to: string)
    | MethodRemoved(owner: string)
    | MethodTypeChanges(owner: string, from: string, to: string)
    | FieldRemoved(owner: string, name: string)
    | FieldTypeChanges(owner: string, name: string, fromType: FieldType, toType: FieldType)
    | RequiredChanges(owner: string, name: string, wasRequired: bool, isRequired: bool)
    | EnumValuesChange(owner: string, name: string)
    | CredentialFieldAdded(owner: string, name: string)
    | FieldBecomesRequired(owner: string, name: string)
    | EnumValuesRemoved(owner: string, name: string, removed: seq<string>)
    | RequiredFieldAdded(owner: string, name: string)
    | ScopesAdded(owner: string, scopes: seq<string>)
    | ScopesRemoved(owner: string, scopes: seq<string>)
    | ScopeSettingChanges(owner: string, from: string, to: string)
    | ScopesBecomeFixed(owner: string, from: string)
    | ScopesBecomeSetting(owner: string, to: string)

  datatype ConnectionMethod = ConnectionMethod(owner: string, m: AuthMethod)

  datatype ConnectionMethodPair = ConnectionMethodPair(released: ConnectionMethod, candidate: Option<ConnectionMethod>)

  /** The values of expected that actual lacks, each once, as they are met. */
  function Lacking(expected: seq<string>, actual: seq<string>): seq<string>
  {
    if expected == [] then []
    else
      var missing, value := Lacking(expected[..|expected| - 1], actual), expected[|expected| - 1];
      if value !in actual && value !in missing then missing + [value] else missing
  }

  function Missing(expected: seq<string>, actual: seq<string>): seq<string>
  {
    Sort(Lacking(expected, actual))
  }

  /** The loop of missingStrings, then sort.Strings. */
  method MissingStrings(expected: seq<string>, actual: seq<string>) returns (missing: seq<string>)
    ensures missing == Missing(expected, actual)
    ensures IsIncreasing(missing) && Elements(missing) == Elements(expected) - Elements(actual)
  {
    missing := [];
    for index := 0 to |expected|
      invariant missing == Lacking(expected[..index], actual)
    {
      var value := expected[index];
      assert expected[..index + 1] == expected[..index] + [value];
      if value !in actual && value !in missing {
        missing := missing + [value];
      }
    }
    assert expected[..|expected|] == expected;
    missing := Sort(missing);
    MissingIsDifference(expected, actual);
  }

  lemma {:induction false} LackingIsDifference(expected: seq<string>, actual: seq<string>)
    ensures Elements(Lacking(expected, actual)) == Elements(expected) - Elements(actual)
    ensures IsDistinct(Lacking(expected, actual))
  {
    if expected == [] {
    } else {
      var initial, value := expected[..|expected| - 1], expected[|expected| - 1];
      LackingIsDifference(initial, actual);
      assert expected == initial + [value];
      assert Elements(expected) == Elements(initial) + {value};
      if value !in actual && value !in Lacking(initial, actual) {
        assert Lacking(expected, actual) == Lacking(initial, actual) + [value];
        assert Elements(Lacking(expected, actual)) == Elements(Lacking(initial, actual)) + {value};
      }
    }
  }

  /** The report lists the set difference, in increasing order. */
  lemma MissingIsDifference(expected: seq<string>, actual: seq<string>)
    ensures IsIncreasing(Missing(expected, actual))
    ensures Elements(Missing(expected, actual)) == Elements(expected) - Elements(actual)
  {
    LackingIsDifference(expected, actual);
    SortIsIncreasing(Lacking(expected, actual));
  }

  lemma MissingEmpty(expected: seq<string>, actual: seq<string>)
    ensures Missing(expected, actual) == [] <==> Elements(expected) <= Elements(actual)
  {
    MissingIsDifference(expected, actual);
    hide Missing;
    if Missing(expected, actual) != [] {
      assert Missing(expected, actual)[0] in Elements(Missing(expected, actual));
    } else {
      forall value | value in Elements(expected) ensures value in Elements(actual) {
        assert value !in Elements(expected) - Elements(actual);
      }
    }
  }

  function ByName(fields: seq<Field>): map<string, Field>
  {
    if fields == [] then map[]
    else ByName(fields[..|fields| - 1])[fields[|fields| - 1].name := fields[|fields| - 1]]
  }

  method FieldsByName(fields: seq<Field>) returns (byName: map<string, Field>)
    ensures byName == ByName(fields)
  {
    byName := map[];
    for index := 0 to |fields|
      invariant byName == ByName(fields[..index])
    {
      assert fields[..index + 1] == fields[..index] + [fields[index]];
      byName := byName[fields[index].name := fields[index]];
    }
    assert fields[..|fields|] == fields;
  }

  lemma {:induction false} ByNameFinds(fields: seq<Field>)
    ensures ByName(fields).Keys == Names(fields)
    ensures forall name ::
      name in ByName(fields) ==> ByName(fields)[name] in fields && ByName(fields)[name].name == name
  {
    if fields == [] {
    } else {
      var initial, field := fields[..|fields| - 1], fields[|fields| - 1];
      ByNameFinds(initial);
      assert fields == initial + [field];
      NamesOfConcat(initial, [field]);
    }
  }

  lemma ByNameUnique(fields: seq<Field>, field: Field)
    requires UniqueNames(fields) && field in fields
    ensures field.name in ByName(fields) && ByName(fields)[field.name] == field
  {
    ByNameFinds(fields);
  }

  function FieldTypeBreaks(owner: string, released: Field, candidate: Field): seq<Break>
  {
    if released.fieldType == candidate.fieldType then []
    else [FieldTypeChanges(owner, released.name, released.fieldType, candidate.fieldType)]
  }

  function CredentialFieldBreaksAt(owner: string, released: Field, candidates: map<string, Field>): seq<Break>
  {
    if released.name !in candidates then [FieldRemoved(owner, released.name)]
    else
      var candidate := candidates[released.name];
      FieldTypeBreaks(owner, released, candidate) +
      (if released.required != candidate.required
       then [RequiredChanges(owner, released.name, released.required, candidate.required)] else []) +
      (if Missing(released.enumValues, candidate.enumValues) == [] &&
        Missing(candidate.enumValues, released.enumValues) == []
       then [] else [EnumValuesChange(owner, released.name)])
  }

  function SettingBreaksAt(owner: string, released: Field, candidates: map<string, Field>): seq<Break>
  {
    if released.name !in candidates then [FieldRemoved(owner, released.name)]
    else
      var candidate := candidates[released.name];
      var removed := Missing(released.enumValues, candidate.enumValues);
      FieldTypeBreaks(owner, released, candidate) +
      (if !released.required && candidate.required then [FieldBecomesRequired(owner, released.name)] else []) +
      (if removed == [] then [] else [EnumValuesRemoved(owner, released.name, removed)])
  }

  function ReleasedFieldBreaks(owner: string, released: seq<Field>, candidates: map<string, Field>,
      areSettings: bool): seq<Break>
  {
    if released == [] then []
    else
      var field := released[|released| - 1];
      ReleasedFieldBreaks(owner, released[..|released| - 1], candidates, areSettings) +
      (if areSettings then SettingBreaksAt(owner, field, candidates)
        else CredentialFieldBreaksAt(owner, field, candidates))
  }

  function AddedFieldBreaks(owner: string, candidate: seq<Field>, released: map<string, Field>,
      areSettings: bool): seq<Break>
  {
    if candidate == [] then []
    else
      var field := candidate[|candidate| - 1];
      AddedFieldBreaks(owner, candidate[..|candidate| - 1], released, areSettings) +
      (if field.name in released then []
       else if !areSettings then [CredentialFieldAdded(owner, field.name)]
       else if field.required then [RequiredFieldAdded(owner, field.name)]
       else [])
  }

  /** Every break between two field lists: the whole report, in report order. */
  function FieldBreaks(owner: string, released: seq<Field>, candidate: seq<Field>, areSettings: bool): seq<Break>
  {
    ReleasedFieldBreaks(owner, released, ByName(candidate), areSettings) +
    AddedFieldBreaks(owner, candidate, ByName(released), areSettings)
  }

  /** The closing loop of both field comparisons, over the candidate's new fields. */
  method FindAddedFieldBreaks(owner: string, candidate: seq<Field>, released: seq<Field>, areSettings: bool)
    returns (breaks: seq<Break>)
    ensures breaks == AddedFieldBreaks(owner, candidate, ByName(released), areSettings)
  {
    breaks := [];
    var releasedFields := FieldsByName(released);
    for index := 0 to |candidate|
      invariant breaks == AddedFieldBreaks(owner, candidate[..index], releasedFields, areSettings)
    {
      var field := candidate[index];
      assert candidate[..index + 1] == candidate[..index] + [field];
      if field.name !in releasedFields && !areSettings {
        breaks := breaks + [CredentialFieldAdded(owner, field.name)];
      }
      if field.name !in releasedFields && areSettings && field.required {
        breaks := breaks + [RequiredFieldAdded(owner, field.name)];
      }
    }
    assert candidate[..|candidate|] == candidate;
  }

  method FindCredentialFieldBreaksAt(owner: string, released: Field, candidates: map<string, Field>)
      returns (breaks: seq<Break>)
    ensures breaks == CredentialFieldBreaksAt(owner, released, candidates)
  {
    if released.name !in candidates {
      return [FieldRemoved(owner, released.name)];
    }
    var candidate := candidates[released.name];
    breaks := FieldTypeBreaks(owner, released, candidate);
    if released.required != candidate.required {
      breaks := breaks + [RequiredChanges(owner, released.name, released.required, candidate.required)];
    }
    var lost := MissingStrings(released.enumValues, candidate.enumValues);
    var gained := MissingStrings(candidate.enumValues, released.enumValues);
    if !(lost == [] && gained == []) {
      breaks := breaks + [EnumValuesChange(owner, released.name)];
    }
  }

  method FindCredentialFieldBreaks(owner: string, released: seq<Field>, candidate: seq<Field>)
      returns (breaks: seq<Break>)
    ensures breaks == FieldBreaks(owner, released, candidate, false)
  {
    hide CredentialFieldBreaksAt;
    breaks := [];
    var candidateFields := FieldsByName(candidate);
    for index := 0 to |released|
      invariant breaks == ReleasedFieldBreaks(owner, released[..index], candidateFields, false)
    {
      assert released[..index + 1] == released[..index] + [released[index]];
      var found := FindCredentialFieldBreaksAt(owner, released[index], candidateFields);
      breaks := breaks + found;
    }
    assert released[..|released|] == released;
    var added := FindAddedFieldBreaks(owner, candidate, released, false);
    breaks := breaks + added;
  }

  method FindSettingBreaksAt(owner: string, released: Field, candidates: map<string, Field>)
      returns (breaks: seq<Break>)
    ensures breaks == SettingBreaksAt(owner, released, candidates)
  {
    if released.name !in candidates {
      return [FieldRemoved(owner, released.name)];
    }
    var candidate := candidates[released.name];
    breaks := FieldTypeBreaks(owner, released, candidate);
    if !released.required && candidate.required {
      breaks := breaks + [FieldBecomesRequired(owner, released.name)];
    }
    var removed := MissingStrings(released.enumValues, candidate.enumValues);
    if removed != [] {
      breaks := breaks + [EnumValuesRemoved(owner, released.name, removed)];
    }
  }

  method FindSettingBreaks(owner: string, released: seq<Field>, candidate: seq<Field>) returns (breaks: seq<Break>)
    ensures breaks == FieldBreaks(owner, released, candidate, true)
  {
    hide SettingBreaksAt;
    breaks := [];
    var candidateFields := FieldsByName(candidate);
    for index := 0 to |released|
      invariant breaks == ReleasedFieldBreaks(owner, released[..index], candidateFields, true)
    {
      assert released[..index + 1] == released[..index] + [released[index]];
      var found := FindSettingBreaksAt(owner, released[index], candidateFields);
      breaks := breaks + found;
    }
    assert released[..|released|] == released;
    var added := FindAddedFieldBreaks(owner, candidate, released, true);
    breaks := breaks + added;
  }

  function ScopeBreaks(owner: string, released: seq<string>, candidate: seq<string>): seq<Break>
  {
    var added, removed := Missing(candidate, released), Missing(released, candidate);
    (if added == [] then [] else [ScopesAdded(owner, added)]) +
    (if removed == [] then [] else [ScopesRemoved(owner, removed)])
  }

  function OAuthScopeBreaks(owner: string, released: ValueSource, candidate: ValueSource): seq<Break>
  {
    if released.fromSetting != "" && candidate.fromSetting != "" && released.fromSetting != candidate.fromSetting then
      [ScopeSettingChanges(owner, released.fromSetting, candidate.fromSetting)]
    else if released.fromSetting != "" && candidate.fromSetting == "" then
      [ScopesBecomeFixed(owner, released.fromSetting)]
    else if released.fromSetting == "" && candidate.fromSetting != "" then
      [ScopesBecomeSetting(owner, candidate.fromSetting)]
    else
      ScopeBreaks(owner, released.list, candidate.list)
  }

  function MethodBreaks(released: ConnectionMethod, candidate: ConnectionMethod): seq<Break>
  {
    var owner, before, after := released.owner, released.m, candidate.m;
    (if before.authType != after.authType then [MethodTypeChanges(owner, before.authType, after.authType)] else []) +
    FieldBreaks(owner, before.fields, after.fields, false) +
    OAuthScopeBreaks(owner + " OAuth scopes", OAuthScopes(before.oauth2), OAuthScopes(after.oauth2)) +
    ScopeBreaks(owner + " OAuth user scopes", OAuthUserScopes(before.oauth2), OAuthUserScopes(after.oauth2)) +
    (if before.clientCredentials.Some? && after.clientCredentials.Some?
     then ScopeBreaks(owner + " client credentials scopes", before.clientCredentials.value.scopes,
       after.clientCredentials.value.scopes)
     else []) +
    (if before.jwtBearer.Some? && after.jwtBearer.Some?
     then ScopeBreaks(owner + " JWT bearer scopes", before.jwtBearer.value.scopes, after.jwtBearer.value.scopes)
     else []) +
    FieldBreaks(owner + " configuration", ConfigurationOf(before), ConfigurationOf(after), true)
  }

  function Labelled(auth: Auth, m: AuthMethod): ConnectionMethod
  {
    ConnectionMethod(if auth.methods == [] then "spec.auth" else "auth method " + m.id, m)
  }

  /** connectionMethodsByID: the last declaration of an ID wins. */
  function MethodsByID(auth: Auth, methods: seq<AuthMethod>): map<string, ConnectionMethod>
  {
    if methods == [] then map[]
    else
      var m := methods[|methods| - 1];
      MethodsByID(auth, methods[..|methods| - 1])[m.id := Labelled(auth, m)]
  }

  function PairOf(released: Auth, candidate: Auth, m: AuthMethod): ConnectionMethodPair
  {
    var id := ServingID(released, candidate, m);
    var candidates := MethodsByID(candidate, AuthMethods(candidate));
    var isMoved := released.methods == [] && candidate.methods != [];
    ConnectionMethodPair(
      if isMoved then ConnectionMethod("spec.auth, now auth method " + id + ",", m) else Labelled(released, m),
      if id in candidates then Some(candidates[id]) else None)
  }

  method ConnectionMethodsByID(auth: Auth) returns (methods: map<string, ConnectionMethod>)
    ensures methods == MethodsByID(auth, AuthMethods(auth))
  {
    methods := map[];
    var declared := AuthMethods(auth);
    for index := 0 to |declared|
      invariant methods == MethodsByID(auth, declared[..index])
    {
      assert declared[..index + 1] == declared[..index] + [declared[index]];
      methods := methods[declared[index].id := Labelled(auth, declared[index])];
    }
    assert declared[..|declared|] == declared;
  }

  /** One iteration of pairConnectionMethods. */
  method PairMethod(released: Auth, candidate: Auth, m: AuthMethod, candidateMethods: map<string, ConnectionMethod>)
      returns (pair: ConnectionMethodPair)
    requires candidateMethods == MethodsByID(candidate, AuthMethods(candidate))
    ensures pair == PairOf(released, candidate, m)
  {
    hide MethodsByID;
    var releasedMethod := Labelled(released, m);
    var candidateID := releasedMethod.m.id;
    if released.methods == [] && candidate.methods != [] {
      candidateID := candidate.defaultMethod;
      releasedMethod := releasedMethod.(owner := "spec.auth, now auth method " + candidateID + ",");
    }
    pair := ConnectionMethodPair(releasedMethod, None);
    if candidateID in candidateMethods {
      pair := pair.(candidate := Some(candidateMethods[candidateID]));
    }
  }

  method PairConnectionMethods(released: Auth, candidate: Auth) returns (pairs: seq<ConnectionMethodPair>)
    ensures |pairs| == |AuthMethods(released)|
    ensures forall i :: 0 <= i < |pairs| ==> pairs[i] == PairOf(released, candidate, AuthMethods(released)[i])
  {
    hide PairOf, MethodsByID;
    pairs := [];
    var candidateMethods := ConnectionMethodsByID(candidate);
    var declared := AuthMethods(released);
    for index := 0 to |declared|
      invariant |pairs| == index
      invariant forall i :: 0 <= i < index ==> pairs[i] == PairOf(released, candidate, declared[i])
    {
      var pair := PairMethod(released, candidate, declared[index], candidateMethods);
      pairs := pairs + [pair];
    }
  }

  function PairBreaks(pair: ConnectionMethodPair): seq<Break>
  {
    if pair.candidate.None? then [MethodRemoved(pair.released.owner)]
    else MethodBreaks(pair.released, pair.candidate.value)
  }

  function MethodsBreaks(released: Auth, candidate: Auth, methods: seq<AuthMethod>): seq<Break>
  {
    if methods == [] then []
    else
      MethodsBreaks(released, candidate, methods[..|methods| - 1]) +
      PairBreaks(PairOf(released, candidate, methods[|methods| - 1]))
  }

  function AuthBreaks(released: Auth, candidate: Auth): seq<Break>
  {
    (if released.methods != [] && candidate.methods != [] && released.defaultMethod != candidate.defaultMethod
     then [DefaultMethodChanges(released.defaultMethod, candidate.defaultMethod)] else []) +
    MethodsBreaks(released, candidate, AuthMethods(released))
  }

  function ConnectionBreaks(released: Manifest, candidate: Manifest): seq<Break>
  {
    AuthBreaks(released.auth, candidate.auth) +
    FieldBreaks("spec.configuration", released.configuration, candidate.configuration, true)
  }

  method FindMethodBreaks(released: ConnectionMethod, candidate: ConnectionMethod) returns (breaks: seq<Break>)
    ensures breaks == MethodBreaks(released, candidate)
  {
    var owner, before, after := released.owner, released.m, candidate.m;
    var fields := FindCredentialFieldBreaks(owner, before.fields, after.fields);
    var settings := FindSettingBreaks(owner + " configuration", ConfigurationOf(before), ConfigurationOf(after));
    var kind, client, jwt := [], [], [];
    if before.authType != after.authType {
      kind := [MethodTypeChanges(owner, before.authType, after.authType)];
    }
    if before.clientCredentials.Some? && after.clientCredentials.Some? {
      client := ScopeBreaks(owner + " client credentials scopes", before.clientCredentials.value.scopes,
        after.clientCredentials.value.scopes);
    }
    if before.jwtBearer.Some? && after.jwtBearer.Some? {
      jwt := ScopeBreaks(owner + " JWT bearer scopes", before.jwtBearer.value.scopes, after.jwtBearer.value.scopes);
    }
    breaks := kind + fields +
      OAuthScopeBreaks(owner + " OAuth scopes", OAuthScopes(before.oauth2), OAuthScopes(after.oauth2)) +
      ScopeBreaks(owner + " OAuth user scopes", OAuthUserScopes(before.oauth2), OAuthUserScopes(after.oauth2)) +
      client + jwt + settings;
  }

  method FindPairBreaks(pair: ConnectionMethodPair) returns (breaks: seq<Break>)
    ensures breaks == PairBreaks(pair)
  {
    hide MethodBreaks;
    if pair.candidate.None? {
      return [MethodRemoved(pair.released.owner)];
    }
    breaks := FindMethodBreaks(pair.released, pair.candidate.value);
  }

  method FindAuthMethodBreaks(released: Auth, candidate: Auth) returns (breaks: seq<Break>)
    ensures breaks == AuthBreaks(released, candidate)
  {
    hide MethodBreaks, PairBreaks, PairOf;
    var first := [];
    if released.methods != [] && candidate.methods != [] && released.defaultMethod != candidate.defaultMethod {
      first := [DefaultMethodChanges(released.defaultMethod, candidate.defaultMethod)];
    }
    breaks := [];
    var pairs := PairConnectionMethods(released, candidate);
    ghost var methods := AuthMethods(released);
    for index := 0 to |pairs|
      invariant breaks == MethodsBreaks(released, candidate, methods[..index])
    {
      assert methods[..index + 1] == methods[..index] + [methods[index]];
      var found := FindPairBreaks(pairs[index]);
      breaks := breaks + found;
    }
    assert methods[..|pairs|] == methods;
    breaks := first + breaks;
  }

  /** ValidateConnectionCompatibility reports every break; the empty report is its nil error. */
  method ValidateConnectionCompatibility(released: Manifest, candidate: Manifest) returns (breaks: seq<Break>)
    ensures breaks == ConnectionBreaks(released, candidate)
  {
    breaks := FindAuthMethodBreaks(released.auth, candidate.auth);
    var found := FindSettingBreaks("spec.configuration", released.configuration, candidate.configuration);
    breaks := breaks + found;
  }

  method FindHostKeptBreaks(pair: ConnectionMethodPair) returns (breaks: seq<Break>)
    requires pair.candidate.Some?
    ensures breaks == [] <==>
      HostKeptCredentials.HostKept(pair.released.m) == HostKeptCredentials.HostKept(pair.candidate.value.m)
  {
    hide HostKeptCredentials.HostKept, HostKeptCredentials.KeptInOrder;
    var owner := pair.released.owner + " host-kept credentials";
    var releasedKept := HostKeptCredentials.HostKeptCredentials(pair.released.m);
    var candidateKept := HostKeptCredentials.HostKeptCredentials(pair.candidate.value.m);
    ScopeBreaksEmpty(owner, releasedKept, candidateKept);
    breaks := ScopeBreaks(owner, releasedKept, candidateKept);
  }

  /** ValidateHostKeptCredentialCompatibility: nil exactly when every surviving method keeps its host-kept fields. */
  method ValidateHostKeptCredentialCompatibility(released: Manifest, candidate: Manifest) returns (breaks: seq<Break>)
    ensures breaks == [] <==>
      forall m :: m in AuthMethods(released.auth) ==> PairKeepsHostKept(released.auth, candidate.auth, m)
  {
    hide HostKeptCredentials.HostKept, AuthMethods;
    breaks := [];
    var pairs := PairConnectionMethods(released.auth, candidate.auth);
    ghost var methods := AuthMethods(released.auth);
    for index := 0 to |pairs|
      invariant breaks == [] <==>
        forall m :: m in methods[..index] ==> PairKeepsHostKept(released.auth, candidate.auth, m)
    {
      assert methods[..index + 1] == methods[..index] + [methods[index]];
      if pairs[index].candidate.None? {
        continue;
      }
      var found := FindHostKeptBreaks(pairs[index]);
      assert found == [] <==> PairKeepsHostKept(released.auth, candidate.auth, methods[index]);
      breaks := breaks + found;
    }
    assert methods[..|pairs|] == methods;
  }

  ghost predicate PairKeepsHostKept(released: Auth, candidate: Auth, m: AuthMethod)
  {
    var pair := PairOf(released, candidate, m);
    pair.candidate.Some? ==>
      HostKeptCredentials.HostKept(m) == HostKeptCredentials.HostKept(pair.candidate.value.m)
  }

  lemma ValidAuthUniqueIDs(auth: Auth)
    requires ValidAuth(auth)
    ensures UniqueIDs(AuthMethods(auth))
  {
  }

  lemma PairsKeepHostKept(released: Auth, candidate: Auth)
    requires ValidAuth(candidate)
    ensures (forall m :: m in AuthMethods(released) ==> PairKeepsHostKept(released, candidate, m)) <==>
      HostKeptUnchanged(released, candidate)
  {
    hide HostKeptCredentials.HostKept, PairOf, ValidAuth, UniqueIDs, AuthMethods, Serves;
    ValidAuthUniqueIDs(candidate);
    forall m | m in AuthMethods(released) ensures PairServes(released, candidate, m) {
      PairFindsServing(released, candidate, m);
    }
    if HostKeptUnchanged(released, candidate) {
      forall m | m in AuthMethods(released) ensures PairKeepsHostKept(released, candidate, m) {
        assert PairServes(released, candidate, m);
      }
    } else {
      var m, serving :| m in AuthMethods(released) && Serves(released, candidate, m, serving) &&
        HostKeptCredentials.HostKept(m) != HostKeptCredentials.HostKept(serving);
      assert PairServes(released, candidate, m);
      assert !PairKeepsHostKept(released, candidate, m);
    }
  }

  // ----- The reports are empty exactly when the contract is kept -----

  lemma ScopeBreaksEmpty(owner: string, released: seq<string>, candidate: seq<string>)
    ensures ScopeBreaks(owner, released, candidate) == [] <==> SameElements(released, candidate)
  {
    MissingEmpty(released, candidate);
    MissingEmpty(candidate, released);
  }

  lemma OAuthScopeBreaksEmpty(owner: string, released: ValueSource, candidate: ValueSource)
    ensures released.fromSetting == candidate.fromSetting ==>
      (OAuthScopeBreaks(owner, released, candidate) == [] <==> OAuthScopesKept(released, candidate))
    ensures released.fromSetting != candidate.fromSetting ==> OAuthScopeBreaks(owner, released, candidate) != []
  {
    ScopeBreaksEmpty(owner, released.list, candidate.list);
  }

  /** One released field has no break exactly when the candidate field of that name keeps it. */
  lemma FieldBreaksAtEmpty(owner: string, released: Field, candidate: seq<Field>)
    requires UniqueNames(candidate)
    ensures CredentialFieldBreaksAt(owner, released, ByName(candidate)) == [] <==>
      CredentialFieldKeptIn(released, candidate)
    ensures SettingBreaksAt(owner, released, ByName(candidate)) == [] <==>
      SettingKeptIn(released, candidate)
  {
    ByNameFinds(candidate);
    forall kept | kept in candidate && kept.name == released.name ensures ByName(candidate)[released.name] == kept {
      ByNameUnique(candidate, kept);
    }
    if released.name in ByName(candidate) {
      var found := ByName(candidate)[released.name];
      MissingEmpty(released.enumValues, found.enumValues);
      MissingEmpty(found.enumValues, released.enumValues);
      assert CredentialFieldBreaksAt(owner, released, ByName(candidate)) == [] <==>
        CredentialFieldKept(released, found);
      assert SettingBreaksAt(owner, released, ByName(candidate)) == [] <==> SettingKept(released, found);
    }
  }

  lemma {:induction false} ReleasedFieldBreaksEmpty(owner: string, released: seq<Field>, candidate: seq<Field>)
    requires UniqueNames(candidate)
    ensures ReleasedFieldBreaks(owner, released, ByName(candidate), false) == [] <==>
      forall field :: field in released ==> CredentialFieldKeptIn(field, candidate)
    ensures ReleasedFieldBreaks(owner, released, ByName(candidate), true) == [] <==>
      forall field :: field in released ==> SettingKeptIn(field, candidate)
  {
    hide CredentialFieldBreaksAt, SettingBreaksAt, CredentialFieldKeptIn, SettingKeptIn, ByName;
    if released == [] {
    } else {
      var initial, field := released[..|released| - 1], released[|released| - 1];
      ReleasedFieldBreaksEmpty(owner, initial, candidate);
      FieldBreaksAtEmpty(owner, field, candidate);
      assert released == initial + [field];
    }
  }

  lemma {:induction false} AddedFieldBreaksEmpty(owner: string, candidate: seq<Field>, released: seq<Field>)
    ensures AddedFieldBreaks(owner, candidate, ByName(released), false) == [] <==> Names(candidate) <= Names(released)
    ensures AddedFieldBreaks(owner, candidate, ByName(released), true) == [] <==>
      forall field :: field in candidate && field.required ==> field.name in Names(released)
  {
    ByNameFinds(released);
    if candidate == [] {
    } else {
      var initial, field := candidate[..|candidate| - 1], candidate[|candidate| - 1];
      AddedFieldBreaksEmpty(owner, initial, released);
      assert candidate == initial + [field];
      NamesOfConcat(initial, [field]);
    }
  }

  lemma FieldBreaksEmpty(owner: string, released: seq<Field>, candidate: seq<Field>)
    requires UniqueNames(candidate)
    ensures FieldBreaks(owner, released, candidate, false) == [] <==> CredentialFieldsKept(released, candidate)
    ensures FieldBreaks(owner, released, candidate, true) == [] <==> SettingsKept(released, candidate)
  {
    ReleasedFieldBreaksEmpty(owner, released, candidate);
    AddedFieldBreaksEmpty(owner, candidate, released);
  }

  lemma MethodBreaksEmpty(released: ConnectionMethod, candidate: ConnectionMethod)
    requires UniqueNames(candidate.m.fields) && UniqueNames(ConfigurationOf(candidate.m))
    ensures MethodBreaks(released, candidate) == [] <==> MethodKept(released.m, candidate.m)
  {
    hide FieldBreaks, ScopeBreaks, OAuthScopeBreaks, CredentialFieldsKept, SettingsKept, SameElements, UniqueNames;
    var owner, before, after := released.owner, released.m, candidate.m;
    FieldBreaksEmpty(owner, before.fields, after.fields);
    OAuthScopeBreaksEmpty(owner + " OAuth scopes", OAuthScopes(before.oauth2), OAuthScopes(after.oauth2));
    ScopeBreaksEmpty(owner + " OAuth user scopes", OAuthUserScopes(before.oauth2), OAuthUserScopes(after.oauth2));
    if before.clientCredentials.Some? && after.clientCredentials.Some? {
      ScopeBreaksEmpty(owner + " client credentials scopes", before.clientCredentials.value.scopes,
        after.clientCredentials.value.scopes);
    }
    if before.jwtBearer.Some? && after.jwtBearer.Some? {
      ScopeBreaksEmpty(owner + " JWT bearer scopes", before.jwtBearer.value.scopes, after.jwtBearer.value.scopes);
    }
    FieldBreaksEmpty(owner + " configuration", ConfigurationOf(before), ConfigurationOf(after));
  }

  lemma {:induction false} MethodsByIDFinds(auth: Auth, methods: seq<AuthMethod>)
    ensures forall m :: m in methods ==> m.id in MethodsByID(auth, methods)
    ensures forall id :: id in MethodsByID(auth, methods) ==>
      MethodsByID(auth, methods)[id].m in methods && MethodsByID(auth, methods)[id].m.id == id
  {
    if methods == [] {
    } else {
      MethodsByIDFinds(auth, methods[..|methods| - 1]);
      assert methods == methods[..|methods| - 1] + [methods[|methods| - 1]];
    }
  }

  /** The pair's candidate is the one method that serves m, or None when no method does. */
  ghost predicate PairServes(released: Auth, candidate: Auth, m: AuthMethod)
  {
    var found := PairOf(released, candidate, m).candidate;
    if found.None? then forall serving :: !Serves(released, candidate, m, serving)
    else forall serving :: Serves(released, candidate, m, serving) <==> serving == found.value.m
  }

  lemma PairFindsServing(released: Auth, candidate: Auth, m: AuthMethod)
    requires UniqueIDs(AuthMethods(candidate))
    ensures PairServes(released, candidate, m)
  {
    MethodsByIDFinds(candidate, AuthMethods(candidate));
    hide MethodsByID, AuthMethods;
    var found := PairOf(released, candidate, m).candidate;
    if found.Some? {
      assert Serves(released, candidate, m, found.value.m);
    }
  }

  lemma PairBreaksEmpty(released: Auth, candidate: Auth, m: AuthMethod)
    requires ValidAuth(candidate)
    ensures PairBreaks(PairOf(released, candidate, m)) == [] <==> StillServed(released, candidate, m)
  {
    hide MethodBreaks, MethodKept, MethodsByID;
    PairFindsServing(released, candidate, m);
    var pair := PairOf(released, candidate, m);
    if pair.candidate.Some? {
      assert Serves(released, candidate, m, pair.candidate.value.m);
      MethodBreaksEmpty(pair.released, pair.candidate.value);
    }
  }

  lemma {:induction false} MethodsBreaksEmpty(released: Auth, candidate: Auth, methods: seq<AuthMethod>)
    requires ValidAuth(candidate)
    ensures MethodsBreaks(released, candidate, methods) == [] <==>
      forall m :: m in methods ==> StillServed(released, candidate, m)
  {
    hide PairOf, PairBreaks, StillServed, ValidAuth;
    if methods == [] {
    } else {
      var initial, m := methods[..|methods| - 1], methods[|methods| - 1];
      MethodsBreaksEmpty(released, candidate, initial);
      PairBreaksEmpty(released, candidate, m);
      assert methods == initial + [m];
    }
  }

  /** The error is nil exactly when the candidate keeps every connection of the released manifest. */
  lemma NoBreaksIffConnectionKept(released: Manifest, candidate: Manifest)
    requires ValidManifest(candidate)
    ensures ConnectionBreaks(released, candidate) == [] <==> ConnectionKept(released, candidate)
  {
    MethodsBreaksEmpty(released.auth, candidate.auth, AuthMethods(released.auth));
    FieldBreaksEmpty("spec.configuration", released.configuration, candidate.configuration);
  }
}
