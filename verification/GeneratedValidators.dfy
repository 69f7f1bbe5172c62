/** The meaning of the validators that code generation emits for a manifest, as predicates over stored JSON objects. */
module GeneratedValidators {
  import opened Wrappers
  import opened Manifests
  import opened ConnectionCompatibility
  import HostKeptCredentials

  datatype Json =
    | Null
    | Bool(truth: bool)
    | Integer(number: int)
    | Fraction
    | Text(text: string)
    | Array(items: seq<Json>)
    | Object(members: map<string, Json>)

  /** A decoded Go value: string, int64, bool, []string or map[string]string. */
  datatype GoValue =
    | GoString(text: string)
    | GoInt(number: int)
    | GoBool(truth: bool)
    | GoList(items: seq<string>)
    | GoMap(entries: map<string, string>)

  type Stored = map<string, Json>

  /** url.Parse succeeding with a scheme and a host name. */
  type UrlCheck = string -> bool

  // ----- encoding/json into the generated structs -----

  function ZeroValue(fieldType: FieldType): GoValue
  {
    match fieldType
    case IntegerField | DurationField => GoInt(0)
    case BooleanField => GoBool(false)
    case StringListField => GoList([])
    case StringMapField => GoMap(map[])
    case _ => GoString("")
  }

  function DecodeText(value: Json): Option<string>
  {
    match value
    case Null => Some("")
    case Text(text) => Some(text)
    case _ => None
  }

  function Decode(fieldType: FieldType, value: Json): Option<GoValue>
  {
    if value.Null? then Some(ZeroValue(fieldType))
    else match fieldType
      case IntegerField | DurationField =>
        if value.Integer? && -0x8000_0000_0000_0000 <= value.number < 0x8000_0000_0000_0000
          then Some(GoInt(value.number)) else None
      case BooleanField =>
        if value.Bool? then Some(GoBool(value.truth)) else None
      case StringListField =>
        if value.Array? && forall i :: 0 <= i < |value.items| ==> DecodeText(value.items[i]).Some?
        then Some(GoList(seq(|value.items|, i requires 0 <= i < |value.items| => DecodeText(value.items[i]).value)))
        else None
      case StringMapField =>
        if value.Object? && forall key :: key in value.members ==> DecodeText(value.members[key]).Some?
        then Some(GoMap(map key | key in value.members :: DecodeText(value.members[key]).value))
        else None
      case _ =>
        if value.Text? then Some(GoString(value.text)) else None
  }

  /** The decoded member, or the zero value of an absent one. */
  function Member(stored: Stored, field: Field): Option<GoValue>
  {
    if field.name in stored then Decode(field.fieldType, stored[field.name]) else Some(ZeroValue(field.fieldType))
  }

  /** A strict decoder rejects unknown members and members of another type. */
  ghost predicate DecodesStrictly(stored: Stored, fields: seq<Field>)
  {
    && stored.Keys <= Names(fields)
    && forall field :: field in fields ==> Member(stored, field).Some?
  }

  // ----- writeFieldValidation -----

  /** The generated checks of one field. A required boolean emits a comparison with "", which does not compile, so
      its validator accepts nothing. */
  predicate FieldAccepts(isURL: UrlCheck, field: Field, isRequired: bool, value: GoValue)
  {
    match field.fieldType
    case IntegerField | DurationField => value.GoInt? && value.number >= 0 && (isRequired ==> value.number > 0)
    case BooleanField => !isRequired
    case StringListField | StringMapField => isRequired ==> value != ZeroValue(field.fieldType)
    case StringField | SecretStringField => isRequired ==> value != GoString("")
    case UrlField =>
      && (isRequired ==> value != GoString(""))
      && (value != GoString("") ==> value.GoString? && isURL(value.text))
    case EnumField =>
      && (isRequired ==> value != GoString(""))
      && (value != GoString("") ==> value.GoString? && value.text in field.enumValues)
  }

  predicate MemberAccepted(isURL: UrlCheck, field: Field, isRequired: bool, stored: Stored)
  {
    var value := Member(stored, field);
    value.Some? && FieldAccepts(isURL, field, isRequired, value.value)
  }

  // ----- Settings -----

  ghost predicate SettingsAccepted(isURL: UrlCheck, manifest: Manifest, stored: Stored)
  {
    && DecodesStrictly(stored, ConfigFields(manifest))
    && forall field :: field in ConfigFields(manifest) ==> MemberAccepted(isURL, field, field.required, stored)
  }

  // ----- Credentials -----

  /** Validate checks a stored credential; validateSharedCredential checks one served without host-kept fields. */
  datatype Validator = Full | Shared

  function MintedMappings(m: AuthMethod): seq<CredentialMapping>
  {
    (if m.clientCredentials.Some? then m.clientCredentials.value.credentialMappings else []) +
    (if m.jwtBearer.Some? then m.jwtBearer.value.credentialMappings else [])
  }

  predicate NamesAccessToken(mapping: CredentialMapping)
  {
    mapping.source == "access_token"
  }

  ghost predicate FilledFromAccessToken(mappings: seq<CredentialMapping>, name: string)
  {
    exists mapping :: mapping in mappings && NamesAccessToken(mapping) && mapping.credential == name
  }

  /** The field is filled from the access token that a grant of the method mints. */
  ghost predicate IsMinted(m: AuthMethod, name: string)
  {
    FilledFromAccessToken(MintedMappings(m), name)
  }

  ghost predicate IsRequired(validator: Validator, m: AuthMethod, field: Field)
  {
    match validator
    case Full => field.required
    case Shared => field.name !in HostKeptCredentials.HostKept(m) && (field.required || IsMinted(m, field.name))
  }

  /** mintedAccessTokenCredentials */
  method MintedAccessTokenCredentials(m: AuthMethod) returns (fields: seq<string>)
    ensures forall name :: name in fields <==> IsMinted(m, name)
  {
    hide NamesAccessToken, MintedMappings;
    var mappings := MintedMappings(m);
    fields := [];
    for index := 0 to |mappings|
      invariant forall name :: name in fields <==> FilledFromAccessToken(mappings[..index], name)
    {
      var mapping := mappings[index];
      assert mappings[..index + 1] == mappings[..index] + [mapping];
      if NamesAccessToken(mapping) {
        fields := fields + [mapping.credential];
      }
    }
    assert mappings[..|mappings|] == mappings;
  }

  /** SharedRequiredCredentialFields: what a broker must serve to an application. */
  method SharedRequiredCredentialFields(m: AuthMethod) returns (required: seq<string>)
    ensures forall name :: name in required <==>
      exists field :: field in m.fields && field.name == name && IsRequired(Shared, m, field)
  {
    hide IsMinted, HostKeptCredentials.HostKept, HostKeptCredentials.KeptInOrder;
    required := [];
    for index := 0 to |m.fields|
      invariant forall name :: name in required <==>
        exists field :: field in m.fields[..index] && field.name == name && IsRequired(Shared, m, field)
    {
      var field := m.fields[index];
      assert m.fields[..index + 1] == m.fields[..index] + [field];
      var kept := HostKeptCredentials.HostKeptCredentials(m);
      var minted := MintedAccessTokenCredentials(m);
      assert field.name in kept <==> field.name in Elements(kept);
      if field.name !in kept && (field.required || field.name in minted) {
        required := required + [field.name];
      }
    }
    assert m.fields[..|m.fields|] == m.fields;
  }

  const SelectionField := Field(AuthMethodKey, StringField, false, [])

  function StructFields(auth: Auth): seq<Field>
  {
    CredentialFields(auth) + if auth.methods == [] then [] else [SelectionField]
  }

  /** The method a decoded credential selects; one saved without auth_method uses the default. */
  function SelectedID(auth: Auth, stored: Stored): string
  {
    if auth.methods == [] then ""
    else
      var selected := Member(stored, SelectionField);
      if selected == Some(GoString("")) || selected.None? then auth.defaultMethod
      else if selected.value.GoString? then selected.value.text else ""
  }

  ghost predicate Selects(auth: Auth, stored: Stored, m: AuthMethod)
  {
    m in AuthMethods(auth) && m.id == SelectedID(auth, stored)
  }

  ghost predicate MethodAccepts(isURL: UrlCheck, validator: Validator, m: AuthMethod, stored: Stored)
  {
    forall field :: field in m.fields ==> MemberAccepted(isURL, field, IsRequired(validator, m, field), stored)
  }

  ghost predicate CredentialAccepted(isURL: UrlCheck, validator: Validator, auth: Auth, stored: Stored)
  {
    && DecodesStrictly(stored, StructFields(auth))
    && exists m :: Selects(auth, stored, m) && MethodAccepts(isURL, validator, m, stored)
  }

  // ----- A candidate that passes the check accepts every stored object of the released manifest -----

  /** The credential struct declares each method field with that field's own type. */
  lemma StructDeclaresMethodFields(auth: Auth, m: AuthMethod, field: Field)
    requires ValidAuth(auth) && m in AuthMethods(auth) && field in m.fields
    ensures field.name in Names(StructFields(auth))
    ensures forall declared :: declared in StructFields(auth) && declared.name == field.name ==>
      declared.fieldType == field.fieldType
  {
    if auth.methods == [] {
      assert StructFields(auth) == auth.fields;
    } else {
      MethodFieldIsNamed(auth.methods, m, field);
      NamesOfConcat(CredentialFields(auth), [SelectionField]);
      FirstByNameNames(MethodFields(auth.methods));
      forall declared | declared in StructFields(auth) && declared.name == field.name
        ensures declared.fieldType == field.fieldType
      {
        StructFieldHasType(auth, declared, field);
      }
    }
  }

  lemma MethodFieldIsNamed(methods: seq<AuthMethod>, m: AuthMethod, field: Field)
    requires m in methods && field in m.fields
    ensures field in MethodFields(methods) && field.name in Names(MethodFields(methods))
  {
    MethodFieldsMembers(methods, field);
  }

  lemma StructFieldHasType(auth: Auth, declared: Field, field: Field)
    requires ValidAuth(auth) && auth.methods != [] && declared in StructFields(auth)
    requires field in MethodFields(auth.methods) && declared.name == field.name
    ensures declared.fieldType == field.fieldType
  {
    hide FirstByName, MethodFields;
    assert field.name in Names(MethodFields(auth.methods)) && field.name != AuthMethodKey;
    assert declared in FirstByName(MethodFields(auth.methods));
    var origin := FirstByNameOrigin(MethodFields(auth.methods), declared);
  }

  /** Every struct field is a method field of the same name and type, or the selection field. */
  lemma StructFieldOrigin(auth: Auth, declared: Field) returns (m: AuthMethod, field: Field)
    requires ValidAuth(auth) && declared in StructFields(auth) && !(auth.methods != [] && declared == SelectionField)
    ensures m in AuthMethods(auth) && field in m.fields
    ensures field.name == declared.name && field.fieldType == declared.fieldType
  {
    if auth.methods == [] {
      m, field := SingleMethod(auth), declared;
    } else {
      FirstByNameProperties(MethodFields(auth.methods));
      field :| field in MethodFields(auth.methods) && field.name == declared.name &&
        field.fieldType == declared.fieldType;
      MethodFieldsMembers(auth.methods, field);
      m :| m in auth.methods && field in m.fields;
    }
  }

  /** Each released struct field keeps its name and type in the candidate's struct. */
  lemma StructFieldKept(released: Auth, candidate: Auth, declared: Field)
    requires ValidAuth(released) && ValidAuth(candidate) && AuthKept(released, candidate)
    requires declared in StructFields(released)
    ensures declared.name in Names(StructFields(candidate))
    ensures forall other :: other in StructFields(candidate) && other.name == declared.name ==>
      other.fieldType == declared.fieldType
  {
    if released.methods != [] && declared == SelectionField {
      MethodsStayMethods(released, candidate);
      FirstByNameProperties(MethodFields(candidate.methods));
      assert SelectionField in StructFields(candidate);
    } else {
      var m, field := StructFieldOrigin(released, declared);
      assert StillServed(released, candidate, m);
      var serving :| Serves(released, candidate, m, serving) && MethodKept(m, serving);
      assert CredentialFieldKeptIn(field, serving.fields);
      var kept :| kept in serving.fields && CredentialFieldKept(field, kept);
      StructDeclaresMethodFields(candidate, serving, kept);
    }
  }

  /** Methods never go back to a single method, whose empty ID no released method has. */
  lemma MethodsStayMethods(released: Auth, candidate: Auth)
    requires ValidAuth(released) && AuthKept(released, candidate) && released.methods != []
    ensures candidate.methods != []
  {
    var m := released.methods[0];
    assert StillServed(released, candidate, m);
  }

  /** A struct field that only the candidate declares is absent from a released object. */
  lemma StructStillDecodes(released: Auth, candidate: Auth, stored: Stored)
    requires ValidAuth(released) && ValidAuth(candidate) && AuthKept(released, candidate)
    requires DecodesStrictly(stored, StructFields(released))
    ensures DecodesStrictly(stored, StructFields(candidate))
  {
    forall name | name in stored.Keys ensures name in Names(StructFields(candidate)) {
      var declared :| declared in StructFields(released) && declared.name == name;
      StructFieldKept(released, candidate, declared);
    }
    forall other | other in StructFields(candidate) ensures Member(stored, other).Some? {
      if other.name in stored {
        var declared :| declared in StructFields(released) && declared.name == other.name;
        StructFieldKept(released, candidate, declared);
        assert Member(stored, declared).Some?;
      }
    }
  }

  /** A method and the candidate method that serves it accept the same stored objects. */
  lemma ServingMethodAcceptsSame(isURL: UrlCheck, m: AuthMethod, serving: AuthMethod, stored: Stored)
    requires UniqueNames(m.fields) && UniqueNames(serving.fields) && CredentialFieldsKept(m.fields, serving.fields)
    ensures MethodAccepts(isURL, Full, m, stored) <==> MethodAccepts(isURL, Full, serving, stored)
  {
    if MethodAccepts(isURL, Full, m, stored) {
      forall kept | kept in serving.fields ensures MemberAccepted(isURL, kept, kept.required, stored) {
        assert kept.name in Names(m.fields);
        var field :| field in m.fields && field.name == kept.name;
        assert CredentialFieldKeptIn(field, serving.fields);
        var twin :| twin in serving.fields && CredentialFieldKept(field, twin);
        assert twin == kept;
        assert MemberAccepted(isURL, field, IsRequired(Full, m, field), stored);
        SameEnumAccepts(isURL, field, kept, stored);
      }
    }
    if MethodAccepts(isURL, Full, serving, stored) {
      forall field | field in m.fields ensures MemberAccepted(isURL, field, field.required, stored) {
        assert CredentialFieldKeptIn(field, serving.fields);
        var kept :| kept in serving.fields && CredentialFieldKept(field, kept);
        assert MemberAccepted(isURL, kept, IsRequired(Full, serving, kept), stored);
        SameEnumAccepts(isURL, kept, field, stored);
      }
    }
  }

  lemma SameEnumAccepts(isURL: UrlCheck, left: Field, right: Field, stored: Stored)
    requires left.name == right.name && left.fieldType == right.fieldType && left.required == right.required
    requires SameElements(left.enumValues, right.enumValues)
    requires MemberAccepted(isURL, left, left.required, stored)
    ensures MemberAccepted(isURL, right, right.required, stored)
  {
    assert forall value :: value in left.enumValues ==> value in Elements(left.enumValues);
  }

  /** A single method that moves under methods has no field named auth_method, which methods reserve. */
  lemma SingleMethodNamesNone(released: Auth, candidate: Auth, stored: Stored)
    requires ValidAuth(candidate) && AuthKept(released, candidate)
    requires released.methods == [] && candidate.methods != [] && DecodesStrictly(stored, StructFields(released))
    ensures AuthMethodKey !in stored
  {
    hide AuthKept, ScopesKept, SettingsKept, UniqueNames, UniqueIDs, SharedFieldsAgree, Decode, ZeroValue;
    var serving := ServingOf(released, candidate, SingleMethod(released));
    if AuthMethodKey in stored {
      var declared :| declared in released.fields && declared.name == AuthMethodKey;
      assert CredentialFieldKeptIn(declared, serving.fields);
      var kept :| kept in serving.fields && CredentialFieldKept(declared, kept);
      MethodFieldsMembers(candidate.methods, kept);
    }
  }

  /** The candidate method selected by a released credential is the one that serves the released selection. */
  lemma SelectionServes(released: Auth, candidate: Auth, stored: Stored, m: AuthMethod)
    requires ValidAuth(released) && ValidAuth(candidate) && AuthKept(released, candidate)
    requires DecodesStrictly(stored, StructFields(released)) && Selects(released, stored, m)
    ensures ServingID(released, candidate, m) == SelectedID(candidate, stored)
  {
    if released.methods == [] {
      if candidate.methods != [] {
        SingleMethodNamesNone(released, candidate, stored);
      }
    } else {
      MethodsStayMethods(released, candidate);
    }
  }

  lemma DeclaredMethod(auth: Auth, m: AuthMethod)
    requires ValidAuth(auth) && m in AuthMethods(auth)
    ensures UniqueNames(m.fields)
    ensures forall other :: other in AuthMethods(auth) && other.id == m.id ==> other == m
  {
  }

  lemma ServingOf(released: Auth, candidate: Auth, m: AuthMethod) returns (serving: AuthMethod)
    requires AuthKept(released, candidate) && m in AuthMethods(released)
    ensures Serves(released, candidate, m, serving) && MethodKept(m, serving)
  {
    assert StillServed(released, candidate, m);
    serving :| Serves(released, candidate, m, serving) && MethodKept(m, serving);
  }

  /** Stored credentials keep working, whether or not they name their method. */
  lemma CredentialsStayAccepted(isURL: UrlCheck, released: Auth, candidate: Auth, stored: Stored)
    requires ValidAuth(released) && ValidAuth(candidate) && AuthKept(released, candidate)
    requires CredentialAccepted(isURL, Full, released, stored)
    ensures CredentialAccepted(isURL, Full, candidate, stored)
  {
    hide DecodesStrictly, MethodAccepts, AuthKept, SettingsKept, CredentialFieldsKept, ScopesKept, SelectedID;
    hide ValidAuth, AuthMethods, ServingID, StructFields;
    StructStillDecodes(released, candidate, stored);
    var m :| Selects(released, stored, m) && MethodAccepts(isURL, Full, m, stored);
    SelectionServes(released, candidate, stored, m);
    var serving := ServingOf(released, candidate, m);
    DeclaredMethod(released, m);
    DeclaredMethod(candidate, serving);
    ServingMethodAcceptsSame(isURL, m, serving, stored);
    assert Selects(candidate, stored, serving);
  }

  /** The check is exact: of the objects that the released struct decodes, the candidate accepts no others. */
  lemma CandidateAcceptsNoMore(isURL: UrlCheck, released: Auth, candidate: Auth, stored: Stored)
    requires ValidAuth(released) && ValidAuth(candidate) && AuthKept(released, candidate)
    requires DecodesStrictly(stored, StructFields(released)) && exists m :: Selects(released, stored, m)
    ensures CredentialAccepted(isURL, Full, candidate, stored) <==> CredentialAccepted(isURL, Full, released, stored)
  {
    hide DecodesStrictly, MethodAccepts, AuthKept, SettingsKept, CredentialFieldsKept, ScopesKept, SelectedID;
    hide ValidAuth, AuthMethods, ServingID, StructFields;
    if CredentialAccepted(isURL, Full, candidate, stored) {
      var m :| Selects(released, stored, m);
      SelectionServes(released, candidate, stored, m);
      var serving := ServingOf(released, candidate, m);
      var chosen :| Selects(candidate, stored, chosen) && MethodAccepts(isURL, Full, chosen, stored);
      DeclaredMethod(released, m);
      DeclaredMethod(candidate, serving);
      assert chosen == serving;
      ServingMethodAcceptsSame(isURL, m, serving, stored);
    }
    if CredentialAccepted(isURL, Full, released, stored) {
      CredentialsStayAccepted(isURL, released, candidate, stored);
    }
  }

  // ----- Settings -----

  /** Where a generated Config field comes from. */
  lemma ConfigFieldOrigin(manifest: Manifest, field: Field) returns (owner: Option<AuthMethod>, original: Field)
    requires field in ConfigFields(manifest)
    ensures owner.None? ==> original == field && field in manifest.configuration
    ensures owner.Some? ==>
      owner.value in manifest.auth.methods && original in ConfigurationOf(owner.value) &&
        field == original.(required := false)
  {
    if field in manifest.configuration {
      owner, original := None, field;
    } else {
      MethodSettingsMembers(manifest.auth.methods, field);
      var m, own :| m in manifest.auth.methods && own in ConfigurationOf(m) && field == own.(required := false);
      owner, original := Some(m), own;
    }
  }

  /** Each released Config field is kept by a candidate Config field. */
  lemma ConfigFieldKept(released: Manifest, candidate: Manifest, field: Field) returns (kept: Field)
    requires ValidManifest(released) && ValidManifest(candidate) && ConnectionKept(released, candidate)
    requires field in ConfigFields(released)
    ensures kept in ConfigFields(candidate) && SettingKept(field, kept)
  {
    var owner, original := ConfigFieldOrigin(released, field);
    if owner.None? {
      assert SettingKeptIn(field, candidate.configuration);
      kept :| kept in candidate.configuration && SettingKept(field, kept);
    } else {
      MethodsStayMethods(released.auth, candidate.auth);
      var serving := ServingOf(released.auth, candidate.auth, owner.value);
      assert SettingKeptIn(original, ConfigurationOf(serving));
      var own :| own in ConfigurationOf(serving) && SettingKept(original, own);
      kept := own.(required := false);
      MethodSettingsMembers(candidate.auth.methods, kept);
    }
  }

  /** A required candidate setting was already declared by the released manifest. */
  lemma RequiredSettingIsOld(released: Manifest, candidate: Manifest, field: Field)
    requires ConnectionKept(released, candidate) && field in ConfigFields(candidate) && field.required
    ensures field.name in Names(ConfigFields(released))
  {
    var owner, original := ConfigFieldOrigin(candidate, field);
    NamesOfConcat(released.configuration, MethodSettings(released.auth.methods));
  }

  lemma SettingStaysAccepted(isURL: UrlCheck, field: Field, kept: Field, stored: Stored)
    requires SettingKept(field, kept) && MemberAccepted(isURL, field, field.required, stored)
    ensures MemberAccepted(isURL, kept, kept.required, stored)
  {
    assert forall value :: value in field.enumValues ==> value in Elements(field.enumValues);
  }

  lemma AbsentSettingAccepted(isURL: UrlCheck, field: Field, stored: Stored)
    requires field.name !in stored && !field.required
    ensures MemberAccepted(isURL, field, field.required, stored)
  {
  }

  /** Stored settings keep working: fields that only the candidate declares are absent and optional. */
  lemma SettingsStayAccepted(isURL: UrlCheck, released: Manifest, candidate: Manifest, stored: Stored)
    requires ValidManifest(released) && ValidManifest(candidate) && ConnectionKept(released, candidate)
    requires SettingsAccepted(isURL, released, stored)
    ensures SettingsAccepted(isURL, candidate, stored)
  {
    hide ConfigFields, MemberAccepted, ValidManifest, ConnectionKept, Decode, ZeroValue;
    forall name | name in stored.Keys ensures name in Names(ConfigFields(candidate)) {
      var field :| field in ConfigFields(released) && field.name == name;
      var kept := ConfigFieldKept(released, candidate, field);
    }
    forall other | other in ConfigFields(candidate)
      ensures MemberAccepted(isURL, other, other.required, stored) && Member(stored, other).Some?
    {
      CandidateSettingAccepted(isURL, released, candidate, other, stored);
      AcceptedMemberDecodes(isURL, other, other.required, stored);
    }
  }

  lemma AcceptedMemberDecodes(isURL: UrlCheck, field: Field, isRequired: bool, stored: Stored)
    requires MemberAccepted(isURL, field, isRequired, stored)
    ensures Member(stored, field).Some?
  {
  }

  lemma CandidateSettingAccepted(
    isURL: UrlCheck, released: Manifest, candidate: Manifest, other: Field, stored: Stored)
    requires ValidManifest(released) && ValidManifest(candidate) && ConnectionKept(released, candidate)
    requires SettingsAccepted(isURL, released, stored) && other in ConfigFields(candidate)
    ensures MemberAccepted(isURL, other, other.required, stored)
  {
    hide *;
    if other.name in Names(ConfigFields(released)) {
      var field := AcceptedSetting(isURL, released, other.name, stored);
      var kept := ConfigFieldKept(released, candidate, field);
      SettingKeepsName(field, kept);
      SettingIsUnique(candidate, kept, other);
      SettingStaysAccepted(isURL, field, kept, stored);
    } else {
      if other.required {
        RequiredSettingIsOld(released, candidate, other);
      }
      UnnamedIsAbsent(isURL, released, other.name, stored);
      AbsentSettingAccepted(isURL, other, stored);
    }
  }

  lemma AcceptedSetting(isURL: UrlCheck, manifest: Manifest, name: string, stored: Stored) returns (field: Field)
    requires SettingsAccepted(isURL, manifest, stored) && name in Names(ConfigFields(manifest))
    ensures field in ConfigFields(manifest) && field.name == name
    ensures MemberAccepted(isURL, field, field.required, stored)
  {
    hide ConfigFields, MemberAccepted;
    field :| field in ConfigFields(manifest) && field.name == name;
  }

  lemma UnnamedIsAbsent(isURL: UrlCheck, manifest: Manifest, name: string, stored: Stored)
    requires SettingsAccepted(isURL, manifest, stored) && name !in Names(ConfigFields(manifest))
    ensures name !in stored
  {
    hide ConfigFields, MemberAccepted, Names;
  }

  lemma SettingKeepsName(field: Field, kept: Field)
    requires SettingKept(field, kept)
    ensures field.name == kept.name
  {
  }

  lemma SettingIsUnique(manifest: Manifest, left: Field, right: Field)
    requires ValidManifest(manifest) && left in ConfigFields(manifest) && right in ConfigFields(manifest)
    requires left.name == right.name
    ensures left == right
  {
    hide ConfigFields, ValidAuth;
  }

  // ----- Shared credentials -----

  /** A host serves a shared credential without the fields that a method keeps. */
  function Strip(stored: Stored, kept: set<string>): Stored
  {
    stored - kept
  }

  /** The minted access token, which only the host can fetch, has been filled in. */
  ghost predicate MintedFieldsFilled(isURL: UrlCheck, m: AuthMethod, stored: Stored)
  {
    forall field :: field in m.fields && IsMinted(m, field.name) && field.name !in HostKeptCredentials.HostKept(m) ==>
      MemberAccepted(isURL, field, true, stored)
  }

  lemma StrippedStillDecodes(auth: Auth, stored: Stored, kept: set<string>)
    requires DecodesStrictly(stored, StructFields(auth))
    ensures DecodesStrictly(Strip(stored, kept), StructFields(auth))
  {
    hide StructFields, Decode, ZeroValue;
    forall field | field in StructFields(auth) ensures Member(Strip(stored, kept), field).Some? {
      assert Member(stored, field).Some?;
    }
  }

  /** The selection survives stripping, because no method has a field named auth_method. */
  lemma StrippedStillSelects(auth: Auth, stored: Stored, m: AuthMethod)
    requires ValidAuth(auth) && Selects(auth, stored, m)
    ensures Selects(auth, Strip(stored, HostKeptCredentials.HostKept(m)), m)
  {
    hide Decode, ZeroValue, HostKeptCredentials.ServesOnlyTheHost;
    var kept := HostKeptCredentials.HostKept(m);
    if auth.methods != [] {
      if AuthMethodKey in kept {
        var field :| field in m.fields && field.name == AuthMethodKey;
        MethodFieldsMembers(auth.methods, field);
      }
      assert Member(Strip(stored, kept), SelectionField) == Member(stored, SelectionField);
    }
  }

  lemma StrippedMemberAccepted(isURL: UrlCheck, m: AuthMethod, field: Field, stored: Stored)
    requires field in m.fields && MethodAccepts(isURL, Full, m, stored) && MintedFieldsFilled(isURL, m, stored)
    ensures MemberAccepted(isURL, field, IsRequired(Shared, m, field), Strip(stored, HostKeptCredentials.HostKept(m)))
  {
    hide HostKeptCredentials.HostKept, Decode, IsMinted;
    var shared := Strip(stored, HostKeptCredentials.HostKept(m));
    assert MemberAccepted(isURL, field, IsRequired(Full, m, field), stored);
    if field.name in HostKeptCredentials.HostKept(m) {
      AbsentSettingAccepted(isURL, field.(required := false), shared);
      assert MemberAccepted(isURL, field, false, shared);
    } else {
      assert Member(shared, field) == Member(stored, field);
    }
  }

  /** Stripping exactly a method's own host-kept fields turns a full credential into a shared one. */
  lemma StrippedCredentialIsShared(isURL: UrlCheck, auth: Auth, stored: Stored, m: AuthMethod)
    requires ValidAuth(auth) && DecodesStrictly(stored, StructFields(auth))
    requires Selects(auth, stored, m) && MethodAccepts(isURL, Full, m, stored) && MintedFieldsFilled(isURL, m, stored)
    ensures CredentialAccepted(isURL, Shared, auth, Strip(stored, HostKeptCredentials.HostKept(m)))
  {
    hide ValidAuth, DecodesStrictly, Selects, MintedFieldsFilled, HostKeptCredentials.HostKept, MemberAccepted;
    hide IsRequired;
    var shared := Strip(stored, HostKeptCredentials.HostKept(m));
    StrippedStillDecodes(auth, stored, HostKeptCredentials.HostKept(m));
    StrippedStillSelects(auth, stored, m);
    forall field | field in m.fields ensures MemberAccepted(isURL, field, IsRequired(Shared, m, field), shared) {
      StrippedMemberAccepted(isURL, m, field, stored);
    }
  }
}
