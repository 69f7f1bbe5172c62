/** The part of a connector manifest that decides a connection: its settings, authentication methods, credential
    fields and token grants, with the uniqueness rules that every released manifest passed. */
module Manifests {
  import opened Wrappers
  import opened Texts

  datatype FieldType =
    | StringField | UrlField | IntegerField | BooleanField | DurationField
    | StringListField | StringMapField | EnumField | SecretStringField

  datatype Field = Field(name: string, fieldType: FieldType, required: bool, enumValues: seq<string>)

  datatype ValueSource = ValueSource(list: seq<string>, fromSetting: string)

  datatype CredentialMapping = CredentialMapping(credential: string, source: string)

  datatype RefreshGrant = RefreshGrant(refreshTokenCredential: string, credentialMappings: seq<CredentialMapping>)

  datatype OAuth2 = OAuth2(
    clientSecretCredential: string, scopes: ValueSource, userScopes: seq<string>,
    credentialMappings: seq<CredentialMapping>, refreshGrants: seq<RefreshGrant>)

  datatype ClientCredentialsGrant = ClientCredentialsGrant(
    clientIDCredential: string, clientSecretCredential: string, scopes: seq<string>,
    credentialMappings: seq<CredentialMapping>)

  /** privateKeyCredential is empty for a private key that the key credential holds. */
  datatype JwtBearerGrant = JwtBearerGrant(
    keyCredential: string, privateKeyCredential: string, scopes: seq<string>,
    credentialMappings: seq<CredentialMapping>)

  datatype AuthMethod = AuthMethod(
    id: string, authType: string, fields: seq<Field>, configuration: Option<seq<Field>>,
    oauth2: Option<OAuth2>, clientCredentials: Option<ClientCredentialsGrant>, jwtBearer: Option<JwtBearerGrant>)

  /** spec.auth: one method described by its own fields, or a list of methods with a default. */
  datatype Auth = Auth(
    authType: string, fields: seq<Field>, oauth2: Option<OAuth2>,
    clientCredentials: Option<ClientCredentialsGrant>, jwtBearer: Option<JwtBearerGrant>,
    defaultMethod: string, methods: seq<AuthMethod>)

  datatype Manifest = Manifest(configuration: seq<Field>, auth: Auth)

  const AuthMethodKey := "auth_method"

  /** A spec.auth without methods is one method with the empty ID. */
  function SingleMethod(auth: Auth): AuthMethod
  {
    AuthMethod("", auth.authType, auth.fields, None, auth.oauth2, auth.clientCredentials, auth.jwtBearer)
  }

  function AuthMethods(auth: Auth): seq<AuthMethod>
  {
    if auth.methods == [] then [SingleMethod(auth)] else auth.methods
  }

  function ConfigurationOf(m: AuthMethod): seq<Field>
  {
    if m.configuration.None? then [] else m.configuration.value
  }

  function Names(fields: seq<Field>): set<string>
  {
    set field | field in fields :: field.name
  }

  ghost predicate UniqueNames(fields: seq<Field>)
  {
    forall i, j :: 0 <= i < j < |fields| ==> fields[i].name != fields[j].name
  }

  ghost predicate UniqueIDs(methods: seq<AuthMethod>)
  {
    forall i, j :: 0 <= i < j < |methods| ==> methods[i].id != methods[j].id
  }

  function MethodFields(methods: seq<AuthMethod>): seq<Field>
  {
    if methods == [] then [] else MethodFields(methods[..|methods| - 1]) + methods[|methods| - 1].fields
  }

  function Optional(fields: seq<Field>): seq<Field>
  {
    if fields == [] then []
    else Optional(fields[..|fields| - 1]) + [fields[|fields| - 1].(required := false)]
  }

  function MethodSettings(methods: seq<AuthMethod>): seq<Field>
  {
    if methods == [] then []
    else MethodSettings(methods[..|methods| - 1]) + Optional(ConfigurationOf(methods[|methods| - 1]))
  }

  /** The fields of the generated Config: spec.configuration, then every method's settings, never required. */
  function ConfigFields(manifest: Manifest): seq<Field>
  {
    manifest.configuration + MethodSettings(manifest.auth.methods)
  }

  ghost predicate IsSecretField(m: AuthMethod, name: string)
  {
    exists field :: field in m.fields && field.name == name && field.fieldType == SecretStringField
  }

  ghost predicate IsPublicField(m: AuthMethod, name: string)
  {
    exists field :: field in m.fields && field.name == name && field.fieldType != SecretStringField
  }

  ghost predicate ValidClientCredentials(m: AuthMethod, grant: ClientCredentialsGrant)
  {
    m.authType == "apiKey" && IsPublicField(m, grant.clientIDCredential) &&
      IsSecretField(m, grant.clientSecretCredential)
  }

  ghost predicate ValidJwtBearer(m: AuthMethod, grant: JwtBearerGrant)
  {
    && m.authType == "serviceAccount"
    && (grant.keyCredential != "" ==> IsSecretField(m, grant.keyCredential))
    && (if grant.privateKeyCredential == "" then grant.keyCredential != ""
      else IsSecretField(m, grant.privateKeyCredential))
  }

  /** Each kind of grant belongs to one type of method, and its secrets are declared fields. */
  ghost predicate ValidGrants(m: AuthMethod)
  {
    && (m.oauth2.Some? <==> m.authType == "oauth2")
    && (m.clientCredentials.Some? ==> ValidClientCredentials(m, m.clientCredentials.value))
    && (m.jwtBearer.Some? ==> ValidJwtBearer(m, m.jwtBearer.value))
  }

  /** The rules of Manifest.Validate that the release theorems rest on. */
  ghost predicate ValidAuth(auth: Auth)
  {
    && (forall m :: m in AuthMethods(auth) ==> ValidGrants(m))
    && if auth.methods == [] then
      UniqueNames(auth.fields)
    else
      && UniqueIDs(auth.methods)
      && (forall m :: m in auth.methods ==> m.id != "" && UniqueNames(m.fields) && UniqueNames(ConfigurationOf(m)))
      && AuthMethodKey !in Names(MethodFields(auth.methods))
      && SharedFieldsAgree(auth.methods)
      && (exists m :: m in auth.methods && m.id == auth.defaultMethod)
  }

  /** Credential fields of the same name have the same type in every method. */
  ghost predicate SharedFieldsAgree(methods: seq<AuthMethod>)
  {
    forall left, right :: left in MethodFields(methods) && right in MethodFields(methods) && left.name == right.name ==>
      left.fieldType == right.fieldType
  }

  ghost predicate ValidManifest(manifest: Manifest)
  {
    && ValidAuth(manifest.auth)
    && UniqueNames(manifest.configuration)
    && UniqueNames(ConfigFields(manifest))
  }

  // ----- The seen-map loops of schema/manifest.go -----

  /** ^[a-z][A-Za-z0-9_]*$ */
  predicate IsFieldName(name: string)
  {
    && name != "" && IsLower(name[0])
    && forall i :: 1 <= i < |name| ==> IsLower(name[i]) || IsUpper(name[i]) || IsDigit(name[i]) || name[i] == '_'
  }

  predicate ValidField(field: Field, allowSecret: bool)
  {
    && IsFieldName(field.name)
    && (field.fieldType == SecretStringField ==> allowSecret)
    && (field.fieldType == EnumField ==> field.enumValues != [])
  }

  /** validateFields, for the members that the model has. */
  method ValidateFields(fields: seq<Field>, allowSecret: bool) returns (hasProblems: bool)
    ensures !hasProblems <==> UniqueNames(fields) && forall field :: field in fields ==> ValidField(field, allowSecret)
  {
    hide IsFieldName;
    hasProblems := false;
    var seen: set<string> := {};
    for index := 0 to |fields|
      invariant seen == Names(fields[..index])
      invariant !hasProblems <==>
        UniqueNames(fields[..index]) && forall field :: field in fields[..index] ==> ValidField(field, allowSecret)
    {
      var field := fields[index];
      assert fields[..index + 1] == fields[..index] + [field];
      SeenIffRepeated(fields[..index], field);
      if !IsFieldName(field.name) || field.name in seen {
        hasProblems := true;
      }
      seen := seen + {field.name};
      if field.fieldType == SecretStringField && !allowSecret {
        hasProblems := true;
      }
      if field.fieldType == EnumField && field.enumValues == [] {
        hasProblems := true;
      }
    }
    assert fields[..|fields|] == fields;
  }

  /** One more field keeps the names unique exactly when its name was not seen. */
  lemma SeenIffRepeated(fields: seq<Field>, field: Field)
    ensures UniqueNames(fields + [field]) <==> UniqueNames(fields) && field.name !in Names(fields)
    ensures Names(fields + [field]) == Names(fields) + {field.name}
  {
    NamesOfConcat(fields, [field]);
    if field.name in Names(fields) {
      var twin :| twin in fields && twin.name == field.name;
      var earlier :| 0 <= earlier < |fields| && fields[earlier] == twin;
      assert (fields + [field])[earlier].name == (fields + [field])[|fields|].name;
    } else {
      UniqueNamesSnoc(fields, field);
    }
  }

  lemma NamesOfConcat(left: seq<Field>, right: seq<Field>)
    ensures Names(left + right) == Names(left) + Names(right)
  {
    forall name | name in Names(left) + Names(right) ensures name in Names(left + right) {
      var field :| field in left + right && field.name == name;
    }
  }

  lemma UniqueNamesSnoc(fields: seq<Field>, field: Field)
    requires field.name !in Names(fields)
    ensures UniqueNames(fields + [field]) <==> UniqueNames(fields)
  {
    var longer := fields + [field];
    if UniqueNames(longer) {
      forall i, j | 0 <= i < j < |fields| ensures fields[i].name != fields[j].name {
        assert longer[i] == fields[i] && longer[j] == fields[j];
      }
    }
    if UniqueNames(fields) {
      forall i, j | 0 <= i < j < |longer| ensures longer[i].name != longer[j].name {
        assert longer[i] in fields;
      }
    }
  }

  /** One field per name over all methods, the first declaration, never required: the decoded credential struct. */
  function FirstByName(fields: seq<Field>): seq<Field>
  {
    if fields == [] then []
    else
      var kept, field := FirstByName(fields[..|fields| - 1]), fields[|fields| - 1];
      if field.name in Names(kept) then kept else kept + [field.(required := false)]
  }

  function CredentialFields(auth: Auth): seq<Field>
  {
    if auth.methods == [] then auth.fields else FirstByName(MethodFields(auth.methods))
  }

  /** The inner loop of allFields: one method's fields that no earlier method declared. */
  method AppendUnseen(kept: seq<Field>, own: seq<Field>, ghost before: seq<Field>) returns (fields: seq<Field>)
    requires kept == FirstByName(before)
    ensures fields == FirstByName(before + own)
  {
    fields := kept;
    assert before + own[..0] == before;
    for position := 0 to |own|
      invariant fields == FirstByName(before + own[..position])
    {
      var field := own[position];
      assert before + own[..position + 1] == (before + own[..position]) + [field];
      if field.name in Names(fields) {
        continue;
      }
      fields := fields + [field.(required := false)];
    }
    assert own[..|own|] == own;
  }

  /** allFields: nested loops over methods and fields. */
  method AllFields(auth: Auth) returns (fields: seq<Field>)
    ensures fields == CredentialFields(auth)
  {
    if auth.methods == [] {
      return auth.fields;
    }
    fields := [];
    for index := 0 to |auth.methods|
      invariant fields == FirstByName(MethodFields(auth.methods[..index]))
    {
      assert auth.methods[..index + 1] == auth.methods[..index] + [auth.methods[index]];
      fields := AppendUnseen(fields, auth.methods[index].fields, MethodFields(auth.methods[..index]));
    }
    assert auth.methods[..|auth.methods|] == auth.methods;
  }

  /** The credential struct holds exactly the declared names, each once, with a declared type. */
  lemma FirstByNameProperties(fields: seq<Field>)
    ensures Names(FirstByName(fields)) == Names(fields)
    ensures UniqueNames(FirstByName(fields))
    ensures forall kept :: kept in FirstByName(fields) ==>
      !kept.required && exists field :: field in fields && field.name == kept.name && field.fieldType == kept.fieldType
  {
    FirstByNameNames(fields);
    hide FirstByName;
    forall kept | kept in FirstByName(fields)
      ensures !kept.required && exists field ::
        field in fields && field.name == kept.name && field.fieldType == kept.fieldType
    {
      var field := FirstByNameOrigin(fields, kept);
    }
  }

  lemma {:induction false} FirstByNameNames(fields: seq<Field>)
    ensures Names(FirstByName(fields)) == Names(fields) && UniqueNames(FirstByName(fields))
  {
    if fields != [] {
      var initial, field := fields[..|fields| - 1], fields[|fields| - 1];
      FirstByNameNames(initial);
      assert fields == initial + [field];
      SeenIffRepeated(initial, field);
      SeenIffRepeated(FirstByName(initial), field.(required := false));
      hide Names, UniqueNames;
    }
  }

  lemma {:induction false} FirstByNameOrigin(fields: seq<Field>, kept: Field) returns (field: Field)
    requires kept in FirstByName(fields)
    ensures field in fields && field.name == kept.name && field.fieldType == kept.fieldType && !kept.required
  {
    hide Names;
    var initial := fields[..|fields| - 1];
    if kept in FirstByName(initial) {
      field := FirstByNameOrigin(initial, kept);
    } else {
      field := fields[|fields| - 1];
    }
  }

  lemma {:induction false} MethodFieldsMembers(methods: seq<AuthMethod>, field: Field)
    ensures field in MethodFields(methods) <==> exists m :: m in methods && field in m.fields
  {
    if methods == [] {
    } else {
      var initial, final := methods[..|methods| - 1], methods[|methods| - 1];
      MethodFieldsMembers(initial, field);
      assert methods == initial + [final];
    }
  }

  lemma {:induction false} OptionalMembers(fields: seq<Field>, field: Field)
    ensures field in Optional(fields) <==>
      !field.required && exists original :: original in fields && field == original.(required := false)
  {
    if fields == [] {
    } else {
      var initial, final := fields[..|fields| - 1], fields[|fields| - 1];
      OptionalMembers(initial, field);
      assert fields == initial + [final];
    }
  }

  lemma {:induction false} MethodSettingsMembers(methods: seq<AuthMethod>, field: Field)
    ensures field in MethodSettings(methods) <==>
      exists m, original :: m in methods && original in ConfigurationOf(m) &&
        field == original.(required := false)
  {
    if methods == [] {
    } else {
      var initial, final := methods[..|methods| - 1], methods[|methods| - 1];
      MethodSettingsMembers(initial, field);
      OptionalMembers(ConfigurationOf(final), field);
      assert methods == initial + [final];
    }
  }

  /** The inner loop of generatedConfigFields. */
  method OptionalCopies(own: seq<Field>) returns (fields: seq<Field>)
    ensures fields == Optional(own)
  {
    fields := [];
    for position := 0 to |own|
      invariant fields == Optional(own[..position])
    {
      assert own[..position + 1] == own[..position] + [own[position]];
      fields := fields + [own[position].(required := false)];
    }
    assert own[..|own|] == own;
  }

  /** generatedConfigFields: nested appends. */
  method GeneratedConfigFields(manifest: Manifest) returns (fields: seq<Field>)
    ensures fields == ConfigFields(manifest)
  {
    hide Optional;
    var methods := manifest.auth.methods;
    var settings := [];
    for index := 0 to |methods|
      invariant settings == MethodSettings(methods[..index])
    {
      assert methods[..index + 1] == methods[..index] + [methods[index]];
      var own := OptionalCopies(ConfigurationOf(methods[index]));
      settings := settings + own;
    }
    assert methods[..|methods|] == methods;
    fields := manifest.configuration + settings;
  }
}
