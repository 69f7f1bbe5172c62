/** What the generated validators accept, said on the stored JSON alone: no decoding, no Go values, no zero values. */
module AcceptedObjects {
  import opened Wrappers
  import opened Manifests
  import opened GeneratedValidators
  import HostKeptCredentials

  // ----- One member -----

  predicate IsTextOrNull(value: Json)
  {
    value.Text? || value.Null?
  }

  /** The JSON that a field of the type may hold. */
  predicate HasType(fieldType: FieldType, value: Json)
  {
    match fieldType
    case IntegerField | DurationField =>
      value.Null? || (value.Integer? && -0x8000_0000_0000_0000 <= value.number < 0x8000_0000_0000_0000)
    case BooleanField => value.Null? || value.Bool?
    case StringListField => value.Null? || (value.Array? && forall item :: item in value.items ==> IsTextOrNull(item))
    case StringMapField =>
      value.Null? || (value.Object? && forall key :: key in value.members ==> IsTextOrNull(value.members[key]))
    case StringField | SecretStringField | UrlField | EnumField => IsTextOrNull(value)
  }

  /** The JSON that fills a required field. No value fills a required boolean. */
  predicate IsFilled(fieldType: FieldType, value: Json)
  {
    match fieldType
    case IntegerField | DurationField => value.Integer? && value.number > 0
    case BooleanField => false
    case StringListField => value.Array? && value.items != []
    case StringMapField => value.Object? && value.members != map[]
    case StringField | SecretStringField | UrlField | EnumField => value.Text? && value.text != ""
  }

  /** What a present member must satisfy besides its type. */
  predicate IsSound(isURL: UrlCheck, field: Field, value: Json)
  {
    && (field.fieldType == UrlField && value.Text? && value.text != "" ==> isURL(value.text))
    && (field.fieldType == EnumField && value.Text? && value.text != "" ==> value.text in field.enumValues)
    && (field.fieldType in {IntegerField, DurationField} && value.Integer? ==> value.number >= 0)
  }

  predicate Meets(isURL: UrlCheck, field: Field, isRequired: bool, stored: Stored)
  {
    && (field.name in stored ==>
      HasType(field.fieldType, stored[field.name]) && IsSound(isURL, field, stored[field.name]))
    && (isRequired ==> field.name in stored && IsFilled(field.fieldType, stored[field.name]))
  }

  lemma DecodesIffHasType(fieldType: FieldType, value: Json)
    ensures Decode(fieldType, value).Some? <==> HasType(fieldType, value)
  {
    if value.Array? {
      assert forall i :: 0 <= i < |value.items| ==> value.items[i] in value.items;
      assert forall i ::
        0 <= i < |value.items| ==> (DecodeText(value.items[i]).Some? <==> IsTextOrNull(value.items[i]));
    }
  }

  /** A required member is filled exactly when it does not decode to the zero value. */
  lemma FilledIffNotZero(fieldType: FieldType, value: Json)
    requires HasType(fieldType, value) && fieldType !in {IntegerField, DurationField, BooleanField}
    ensures Decode(fieldType, value).Some?
    ensures IsFilled(fieldType, value) <==> Decode(fieldType, value).value != ZeroValue(fieldType)
  {
    DecodesIffHasType(fieldType, value);
    if value.Array? && fieldType == StringListField {
      assert |Decode(fieldType, value).value.items| == |value.items|;
    }
    if value.Object? && fieldType == StringMapField {
      assert Decode(fieldType, value).value.entries.Keys == value.members.Keys;
      assert value.members == map[] <==> value.members.Keys == {};
      assert Decode(fieldType, value).value.entries == map[] <==> Decode(fieldType, value).value.entries.Keys == {};
    }
  }

  /** The generated checks of one field, on the stored JSON. */
  lemma AcceptedIffMeets(isURL: UrlCheck, field: Field, isRequired: bool, stored: Stored)
    ensures MemberAccepted(isURL, field, isRequired, stored) <==> Meets(isURL, field, isRequired, stored)
  {
    if field.name in stored {
      var value := stored[field.name];
      DecodesIffHasType(field.fieldType, value);
      if HasType(field.fieldType, value) && field.fieldType !in {IntegerField, DurationField, BooleanField} {
        FilledIffNotZero(field.fieldType, value);
      }
    }
  }

  // ----- Credentials -----

  /** Every member is declared by some method, or selects one, and has the declared type. */
  ghost predicate HasDeclaredMembers(auth: Auth, stored: Stored)
  {
    && (forall name :: name in stored ==> IsDeclared(auth, name) || (auth.methods != [] && name == "auth_method"))
    && (forall m, field :: m in AuthMethods(auth) && field in m.fields && field.name in stored ==>
          HasType(field.fieldType, stored[field.name]))
    && (auth.methods != [] && "auth_method" in stored ==> IsTextOrNull(stored["auth_method"]))
  }

  ghost predicate IsDeclared(auth: Auth, name: string)
  {
    exists m :: m in AuthMethods(auth) && name in Names(m.fields)
  }

  /** The method that the object names, or the default one when it names none. */
  ghost predicate IsSelected(auth: Auth, stored: Stored, m: AuthMethod)
  {
    && m in AuthMethods(auth)
    && (auth.methods != [] ==>
          if "auth_method" in stored && stored["auth_method"].Text? && stored["auth_method"].text != ""
          then m.id == stored["auth_method"].text else m.id == auth.defaultMethod)
  }

  /** Full: the required fields. Shared: those that no host keeps, and the minted access tokens. */
  ghost function RequiredNames(validator: Validator, m: AuthMethod): set<string>
  {
    match validator
    case Full => set field | field in m.fields && field.required :: field.name
    case Shared =>
      set field | field in m.fields && !HostKeptCredentials.ServesOnlyTheHost(m, field.name) &&
        (field.required || FilledFromAccessToken(MintedMappings(m), field.name)) :: field.name
  }

  lemma RequiredIffNamed(validator: Validator, m: AuthMethod, field: Field)
    requires UniqueNames(m.fields) && field in m.fields
    ensures IsRequired(validator, m, field) <==> field.name in RequiredNames(validator, m)
  {
    hide HostKeptCredentials.ServesOnlyTheHost, FilledFromAccessToken;
    if field.name in RequiredNames(validator, m) {
      assert forall other :: other in m.fields && other.name == field.name ==> other == field;
    }
  }

  /** SharedRequiredCredentialFields lists exactly what the shared validator requires. */
  method SharedRequired(m: AuthMethod) returns (required: seq<string>)
    ensures Elements(required) == RequiredNames(Shared, m)
  {
    hide HostKeptCredentials.ServesOnlyTheHost, FilledFromAccessToken;
    required := SharedRequiredCredentialFields(m);
  }

  lemma SelectsIffSelected(auth: Auth, stored: Stored, m: AuthMethod)
    requires auth.methods != [] && "auth_method" in stored ==> IsTextOrNull(stored["auth_method"])
    ensures Selects(auth, stored, m) <==> IsSelected(auth, stored, m)
  {
  }

  lemma StructNames(auth: Auth, name: string)
    ensures name in Names(StructFields(auth)) <==>
      IsDeclared(auth, name) || (auth.methods != [] && name == "auth_method")
  {
    if auth.methods == [] {
      assert AuthMethods(auth) == [SingleMethod(auth)];
      assert StructFields(auth) == auth.fields;
    } else {
      NamesOfConcat(CredentialFields(auth), [SelectionField]);
      FirstByNameProperties(MethodFields(auth.methods));
      DeclaredByMethod(auth, name);
    }
  }

  lemma DeclaredByMethod(auth: Auth, name: string)
    requires auth.methods != []
    ensures name in Names(MethodFields(auth.methods)) <==> IsDeclared(auth, name)
  {
    if name in Names(MethodFields(auth.methods)) {
      var field :| field in MethodFields(auth.methods) && field.name == name;
      MethodFieldsMembers(auth.methods, field);
    }
    if IsDeclared(auth, name) {
      var m :| m in AuthMethods(auth) && name in Names(m.fields);
      var field :| field in m.fields && field.name == name;
      MethodFieldsMembers(auth.methods, field);
    }
  }

  lemma DecodesIffDeclared(auth: Auth, stored: Stored)
    requires ValidAuth(auth)
    ensures DecodesStrictly(stored, StructFields(auth)) <==> HasDeclaredMembers(auth, stored)
  {
    hide StructFields, Decode, HasType, ZeroValue, ValidAuth, IsDeclared;
    forall name
      ensures name in Names(StructFields(auth)) <==>
      IsDeclared(auth, name) || (auth.methods != [] && name == "auth_method")
    {
      StructNames(auth, name);
    }
    if DecodesStrictly(stored, StructFields(auth)) {
      DecodedIsDeclared(auth, stored);
    }
    if HasDeclaredMembers(auth, stored) {
      DeclaredDecodes(auth, stored);
    }
  }

  lemma DecodedIsDeclared(auth: Auth, stored: Stored)
    requires ValidAuth(auth) && DecodesStrictly(stored, StructFields(auth))
    ensures forall m, field :: m in AuthMethods(auth) && field in m.fields && field.name in stored ==>
      HasType(field.fieldType, stored[field.name])
    ensures auth.methods != [] && "auth_method" in stored ==> IsTextOrNull(stored["auth_method"])
  {
    hide HasType, Decode, ValidAuth;
    forall m, field | m in AuthMethods(auth) && field in m.fields && field.name in stored
      ensures HasType(field.fieldType, stored[field.name])
    {
      StructDeclaresMethodFields(auth, m, field);
      var declared :| declared in StructFields(auth) && declared.name == field.name;
      assert Member(stored, declared).Some?;
      DecodesIffHasType(field.fieldType, stored[field.name]);
    }
    if auth.methods != [] && "auth_method" in stored {
      assert SelectionField in StructFields(auth);
      assert Member(stored, SelectionField).Some?;
      DecodesIffHasType(StringField, stored["auth_method"]);
      SelectionIsText(stored["auth_method"]);
    }
  }

  lemma SelectionIsText(value: Json)
    ensures HasType(StringField, value) <==> IsTextOrNull(value)
  {
  }

  lemma DeclaredDecodes(auth: Auth, stored: Stored)
    requires ValidAuth(auth) && HasDeclaredMembers(auth, stored)
    ensures forall declared :: declared in StructFields(auth) ==> Member(stored, declared).Some?
  {
    hide HasType, Decode, ValidAuth;
    forall declared | declared in StructFields(auth) ensures Member(stored, declared).Some? {
      if declared.name in stored {
        DecodesIffHasType(declared.fieldType, stored[declared.name]);
        if auth.methods != [] && declared == SelectionField {
          SelectionIsText(stored[declared.name]);
        } else {
          var m, field := StructFieldOrigin(auth, declared);
        }
      }
    }
  }

  /** A credential is accepted exactly when its members are declared, and it meets every field of a method
      it selects. */
  lemma CredentialAcceptedIff(isURL: UrlCheck, validator: Validator, auth: Auth, stored: Stored)
    requires ValidAuth(auth)
    ensures CredentialAccepted(isURL, validator, auth, stored) <==>
      HasDeclaredMembers(auth, stored) &&
      exists m :: IsSelected(auth, stored, m) &&
        forall field :: field in m.fields ==> Meets(isURL, field, field.name in RequiredNames(validator, m), stored)
  {
    hide Meets, MemberAccepted, RequiredNames, IsRequired, ValidAuth;
    DecodesIffDeclared(auth, stored);
    if HasDeclaredMembers(auth, stored) {
      forall m ensures Selects(auth, stored, m) <==> IsSelected(auth, stored, m) {
        SelectsIffSelected(auth, stored, m);
      }
      forall m | m in AuthMethods(auth) ensures MethodAccepts(isURL, validator, m, stored) <==>
        forall field :: field in m.fields ==> Meets(isURL, field, field.name in RequiredNames(validator, m), stored)
      {
        DeclaredMethod(auth, m);
        MethodAcceptsIff(isURL, validator, m, stored);
      }
    }
  }

  lemma MethodAcceptsIff(isURL: UrlCheck, validator: Validator, m: AuthMethod, stored: Stored)
    requires UniqueNames(m.fields)
    ensures MethodAccepts(isURL, validator, m, stored) <==>
      forall field :: field in m.fields ==> Meets(isURL, field, field.name in RequiredNames(validator, m), stored)
  {
    hide Meets, MemberAccepted, RequiredNames, IsRequired;
    forall field | field in m.fields
      ensures MemberAccepted(isURL, field, IsRequired(validator, m, field), stored) <==>
        Meets(isURL, field, field.name in RequiredNames(validator, m), stored)
    {
      RequiredIffNamed(validator, m, field);
      AcceptedIffMeets(isURL, field, IsRequired(validator, m, field), stored);
    }
  }

  // ----- Settings -----

  ghost predicate IsSetting(manifest: Manifest, name: string)
  {
    name in Names(manifest.configuration) || exists m :: m in manifest.auth.methods && name in Names(ConfigurationOf(m))
  }

  /** Settings are accepted exactly when every member is a setting and meets it; a method's settings are optional. */
  lemma SettingsAcceptedIff(isURL: UrlCheck, manifest: Manifest, stored: Stored)
    ensures SettingsAccepted(isURL, manifest, stored) <==>
      && (forall name :: name in stored ==> IsSetting(manifest, name))
      && (forall field :: field in manifest.configuration ==> Meets(isURL, field, field.required, stored))
      && (forall m, field ::
        m in manifest.auth.methods && field in ConfigurationOf(m) ==> Meets(isURL, field, false, stored))
  {
    hide Meets, MemberAccepted, Decode, ZeroValue;
    forall name ensures name in Names(ConfigFields(manifest)) <==> IsSetting(manifest, name) {
      SettingNames(manifest, name);
    }
    forall field: Field
      ensures MemberAccepted(isURL, field, field.required, stored) <==> Meets(isURL, field, field.required, stored)
    {
      AcceptedIffMeets(isURL, field, field.required, stored);
    }
    MeetsSettings(isURL, manifest, stored);
    forall field: Field | MemberAccepted(isURL, field, field.required, stored) ensures Member(stored, field).Some? {
      AcceptedDecodes(isURL, field, stored);
    }
  }

  lemma AcceptedDecodes(isURL: UrlCheck, field: Field, stored: Stored)
    requires MemberAccepted(isURL, field, field.required, stored)
    ensures Member(stored, field).Some?
  {
  }

  lemma SettingNames(manifest: Manifest, name: string)
    ensures name in Names(ConfigFields(manifest)) <==> IsSetting(manifest, name)
  {
    NamesOfConcat(manifest.configuration, MethodSettings(manifest.auth.methods));
    if name in Names(MethodSettings(manifest.auth.methods)) {
      var field :| field in MethodSettings(manifest.auth.methods) && field.name == name;
      MethodSettingsMembers(manifest.auth.methods, field);
    }
    if m :| m in manifest.auth.methods && name in Names(ConfigurationOf(m)) {
      var field :| field in ConfigurationOf(m) && field.name == name;
      MethodSettingsMembers(manifest.auth.methods, field.(required := false));
    }
  }

  lemma MeetsSettings(isURL: UrlCheck, manifest: Manifest, stored: Stored)
    ensures (forall field :: field in ConfigFields(manifest) ==> Meets(isURL, field, field.required, stored)) <==>
      && (forall field :: field in manifest.configuration ==> Meets(isURL, field, field.required, stored))
      && (forall m, field ::
        m in manifest.auth.methods && field in ConfigurationOf(m) ==> Meets(isURL, field, false, stored))
  {
    hide Meets;
    var methods := manifest.auth.methods;
    if forall field :: field in ConfigFields(manifest) ==> Meets(isURL, field, field.required, stored) {
      forall m, field | m in methods && field in ConfigurationOf(m) ensures Meets(isURL, field, false, stored) {
        MethodSettingsMembers(methods, field.(required := false));
        assert field.(required := false) in ConfigFields(manifest);
        MeetsOptional(isURL, field, stored);
      }
    }
    if forall m, field :: m in methods && field in ConfigurationOf(m) ==> Meets(isURL, field, false, stored) {
      forall field | field in MethodSettings(methods) ensures Meets(isURL, field, field.required, stored) {
        MethodSettingsMembers(methods, field);
        var m, original :| m in methods && original in ConfigurationOf(m) && field == original.(required := false);
        MeetsOptional(isURL, original, stored);
      }
    }
  }

  lemma MeetsOptional(isURL: UrlCheck, field: Field, stored: Stored)
    ensures Meets(isURL, field.(required := false), false, stored) <==> Meets(isURL, field, false, stored)
  {
  }
}
