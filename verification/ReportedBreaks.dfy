/** What each break of a compatibility report means: the report holds exactly the changes that the contract forbids. */
module ReportedBreaks {
  import opened Wrappers
  import opened Manifests
  import opened SortedStrings
  import opened ConnectionCompatibility

  /** The values that only the first list holds, once each, in increasing order. */
  ghost predicate ListsOnly(values: seq<string>, first: seq<string>, second: seq<string>)
  {
    values != [] && IsIncreasing(values) && forall value :: value in values <==> value in first && value !in second
  }

  /** Two increasing lists of the same values are the same. */
  lemma {:induction false} IncreasingIsUnique(left: seq<string>, right: seq<string>)
    requires IsIncreasing(left) && IsIncreasing(right) && forall value :: value in left <==> value in right
    ensures left == right
  {
    assert |left| > 0 ==> left[0] in left;
    assert |right| > 0 ==> right[0] in right;
    if left != [] {
      assert left[0] in right && right != [];
      assert right[0] in left;
      var i :| 0 <= i < |left| && left[i] == right[0];
      var j :| 0 <= j < |right| && right[j] == left[0];
      BeforeIsTotalOrder(left[0], right[0], left[0]);
      assert left[0] == right[0];
      IncreasingTail(left);
      IncreasingTail(right);
      assert left == [left[0]] + left[1..] && right == [right[0]] + right[1..];
      BeforeIsTotalOrder(left[0], left[0], left[0]);
      forall value ensures value in left[1..] <==> value in right[1..] {
        assert value in left[1..] <==> value in left && value != left[0];
        assert value in right[1..] <==> value in right && value != right[0];
      }
      IncreasingIsUnique(left[1..], right[1..]);
    }
  }

  lemma MissingListsOnly(expected: seq<string>, actual: seq<string>)
    ensures Missing(expected, actual) != [] ==> ListsOnly(Missing(expected, actual), expected, actual)
    ensures forall values :: ListsOnly(values, expected, actual) ==> values == Missing(expected, actual)
  {
    hide Missing;
    MissingIsDifference(expected, actual);
    var missing := Missing(expected, actual);
    forall value ensures value in missing <==> value in expected && value !in actual {
      assert value in missing <==> value in Elements(missing);
    }
    forall values | ListsOnly(values, expected, actual) ensures values == missing {
      IncreasingIsUnique(values, missing);
    }
  }

  // ----- Scopes -----

  ghost predicate ScopeChange(owner: string, released: seq<string>, candidate: seq<string>, b: Break)
  {
    || (b.ScopesAdded? && b.owner == owner && ListsOnly(b.scopes, candidate, released))
    || (b.ScopesRemoved? && b.owner == owner && ListsOnly(b.scopes, released, candidate))
  }

  lemma ScopeBreaksMean(owner: string, released: seq<string>, candidate: seq<string>, b: Break)
    ensures b in ScopeBreaks(owner, released, candidate) <==> ScopeChange(owner, released, candidate, b)
  {
    hide Missing, ListsOnly;
    MissingListsOnly(candidate, released);
    MissingListsOnly(released, candidate);
    NothingListed(candidate, released);
    NothingListed(released, candidate);
  }

  lemma NothingListed(first: seq<string>, second: seq<string>)
    ensures !ListsOnly([], first, second)
  {
  }

  ghost predicate OAuthScopeChange(owner: string, released: ValueSource, candidate: ValueSource, b: Break)
  {
    if released.fromSetting == candidate.fromSetting then ScopeChange(owner, released.list, candidate.list, b)
    else if candidate.fromSetting == "" then b == ScopesBecomeFixed(owner, released.fromSetting)
    else if released.fromSetting == "" then b == ScopesBecomeSetting(owner, candidate.fromSetting)
    else b == ScopeSettingChanges(owner, released.fromSetting, candidate.fromSetting)
  }

  lemma OAuthScopeBreaksMean(owner: string, released: ValueSource, candidate: ValueSource, b: Break)
    ensures b in OAuthScopeBreaks(owner, released, candidate) <==> OAuthScopeChange(owner, released, candidate, b)
  {
    hide ScopeBreaks, ScopeChange;
    ScopeBreaksMean(owner, released.list, candidate.list, b);
  }

  // ----- Fields -----

  /** A change of a field that both declare: credential fields keep type, requirement and values; settings keep their
      type and values and never become required. */
  ghost predicate FieldChange(owner: string, released: Field, candidate: Field, areSettings: bool, b: Break)
  {
    || (released.fieldType != candidate.fieldType &&
        b == FieldTypeChanges(owner, released.name, released.fieldType, candidate.fieldType))
    || (!areSettings && released.required != candidate.required &&
        b == RequiredChanges(owner, released.name, released.required, candidate.required))
    || (!areSettings && Elements(released.enumValues) != Elements(candidate.enumValues) &&
        b == EnumValuesChange(owner, released.name))
    || (areSettings && !released.required && candidate.required && b == FieldBecomesRequired(owner, released.name))
    || (areSettings && b.EnumValuesRemoved? && b.owner == owner && b.name == released.name &&
        ListsOnly(b.removed, released.enumValues, candidate.enumValues))
  }

  ghost predicate ReleasedChange(owner: string, released: Field, candidate: seq<Field>, areSettings: bool, b: Break)
  {
    if released.name in Names(candidate) then
      exists field ::
        field in candidate && field.name == released.name && FieldChange(owner, released, field, areSettings, b)
    else b == FieldRemoved(owner, released.name)
  }

  ghost predicate Addition(owner: string, added: Field, released: seq<Field>, areSettings: bool, b: Break)
  {
    && added.name !in Names(released)
    && if areSettings then added.required && b == RequiredFieldAdded(owner, added.name)
       else b == CredentialFieldAdded(owner, added.name)
  }

  ghost predicate FieldsChange(owner: string, released: seq<Field>, candidate: seq<Field>, areSettings: bool, b: Break)
  {
    || (exists field :: field in released && ReleasedChange(owner, field, candidate, areSettings, b))
    || (exists field :: field in candidate && Addition(owner, field, released, areSettings, b))
  }

  lemma SameEnumsIff(released: seq<string>, candidate: seq<string>)
    ensures (Missing(released, candidate) == [] && Missing(candidate, released) == []) <==>
      Elements(released) == Elements(candidate)
  {
    MissingEmpty(released, candidate);
    MissingEmpty(candidate, released);
  }

  lemma FieldBreaksAtMean(owner: string, released: Field, candidate: seq<Field>, areSettings: bool, b: Break)
    requires UniqueNames(candidate)
    ensures b in (if areSettings then SettingBreaksAt(owner, released, ByName(candidate))
                  else CredentialFieldBreaksAt(owner, released, ByName(candidate))) <==>
      ReleasedChange(owner, released, candidate, areSettings, b)
  {
    hide Missing, ListsOnly, ByName;
    ByNameFinds(candidate);
    if released.name in Names(candidate) {
      var found := ByName(candidate)[released.name];
      forall field | field in candidate && field.name == released.name ensures field == found {
        ByNameUnique(candidate, field);
      }
      SameEnumsIff(released.enumValues, found.enumValues);
      MissingListsOnly(released.enumValues, found.enumValues);
      NothingListed(released.enumValues, found.enumValues);
      FieldChangeReported(owner, released, found, areSettings, ByName(candidate), b);
    }
  }

  lemma FieldChangeReported(
    owner: string, released: Field, found: Field, areSettings: bool, candidates: map<string, Field>, b: Break)
    requires released.name in candidates && candidates[released.name] == found
    ensures b in (if areSettings then SettingBreaksAt(owner, released, candidates)
                  else CredentialFieldBreaksAt(owner, released, candidates)) <==>
      FieldChange(owner, released, found, areSettings, b)
  {
    hide Missing, ListsOnly, Elements;
    SameEnumsIff(released.enumValues, found.enumValues);
    MissingListsOnly(released.enumValues, found.enumValues);
    NothingListed(released.enumValues, found.enumValues);
  }

  lemma {:induction false} ReleasedBreaksMean(
    owner: string, released: seq<Field>, candidate: seq<Field>, areSettings: bool, b: Break)
    requires UniqueNames(candidate)
    ensures b in ReleasedFieldBreaks(owner, released, ByName(candidate), areSettings) <==>
      exists field :: field in released && ReleasedChange(owner, field, candidate, areSettings, b)
  {
    hide ReleasedChange, SettingBreaksAt, CredentialFieldBreaksAt, ByName;
    if released != [] {
      var initial, last := released[..|released| - 1], released[|released| - 1];
      ReleasedBreaksMean(owner, initial, candidate, areSettings, b);
      FieldBreaksAtMean(owner, last, candidate, areSettings, b);
      assert released == initial + [last];
    }
  }

  lemma AddedStep(owner: string, candidate: seq<Field>, released: seq<Field>, areSettings: bool, b: Break)
    requires candidate != []
    ensures var initial, last := candidate[..|candidate| - 1], candidate[|candidate| - 1];
      b in AddedFieldBreaks(owner, candidate, ByName(released), areSettings) <==>
      (b in AddedFieldBreaks(owner, initial, ByName(released), areSettings) ||
       Addition(owner, last, released, areSettings, b))
  {
    ByNameFinds(released);
    hide ByName, Names;
  }

  lemma {:induction false} AddedBreaksMean(
    owner: string, candidate: seq<Field>, released: seq<Field>, areSettings: bool, b: Break)
    ensures b in AddedFieldBreaks(owner, candidate, ByName(released), areSettings) <==>
      exists field :: field in candidate && Addition(owner, field, released, areSettings, b)
  {
    hide ByName, Addition, Names;
    if candidate != [] {
      var initial, last := candidate[..|candidate| - 1], candidate[|candidate| - 1];
      AddedBreaksMean(owner, initial, released, areSettings, b);
      AddedStep(owner, candidate, released, areSettings, b);
      hide AddedFieldBreaks;
      assert candidate == initial + [last];
    }
  }

  lemma FieldBreaksMean(owner: string, released: seq<Field>, candidate: seq<Field>, areSettings: bool, b: Break)
    requires UniqueNames(candidate)
    ensures b in FieldBreaks(owner, released, candidate, areSettings) <==>
      FieldsChange(owner, released, candidate, areSettings, b)
  {
    hide ReleasedChange, Addition, ReleasedFieldBreaks, AddedFieldBreaks;
    ReleasedBreaksMean(owner, released, candidate, areSettings, b);
    AddedBreaksMean(owner, candidate, released, areSettings, b);
  }

  // ----- Methods and manifests -----

  ghost predicate GrantScopeChange(owner: string, released: AuthMethod, candidate: AuthMethod, b: Break)
  {
    || (released.clientCredentials.Some? && candidate.clientCredentials.Some? &&
        ScopeChange(owner + " client credentials scopes", released.clientCredentials.value.scopes,
                    candidate.clientCredentials.value.scopes, b))
    || (released.jwtBearer.Some? && candidate.jwtBearer.Some? &&
        ScopeChange(owner + " JWT bearer scopes", released.jwtBearer.value.scopes, candidate.jwtBearer.value.scopes, b))
  }

  ghost predicate MethodChange(owner: string, released: AuthMethod, candidate: AuthMethod, b: Break)
  {
    || (released.authType != candidate.authType && b == MethodTypeChanges(owner, released.authType, candidate.authType))
    || FieldsChange(owner, released.fields, candidate.fields, false, b)
    || OAuthScopeChange(owner + " OAuth scopes", OAuthScopes(released.oauth2), OAuthScopes(candidate.oauth2), b)
    || ScopeChange(owner + " OAuth user scopes", OAuthUserScopes(released.oauth2), OAuthUserScopes(candidate.oauth2), b)
    || GrantScopeChange(owner, released, candidate, b)
    || FieldsChange(owner + " configuration", ConfigurationOf(released), ConfigurationOf(candidate), true, b)
  }

  lemma MethodBreaksMean(released: ConnectionMethod, candidate: ConnectionMethod, b: Break)
    requires UniqueNames(candidate.m.fields) && UniqueNames(ConfigurationOf(candidate.m))
    ensures b in MethodBreaks(released, candidate) <==> MethodChange(released.owner, released.m, candidate.m, b)
  {
    hide FieldBreaks, ScopeBreaks, OAuthScopeBreaks, FieldsChange, ScopeChange, OAuthScopeChange, UniqueNames;
    var owner, before, after := released.owner, released.m, candidate.m;
    FieldBreaksMean(owner, before.fields, after.fields, false, b);
    OAuthScopeBreaksMean(owner + " OAuth scopes", OAuthScopes(before.oauth2), OAuthScopes(after.oauth2), b);
    ScopeBreaksMean(owner + " OAuth user scopes", OAuthUserScopes(before.oauth2), OAuthUserScopes(after.oauth2), b);
    if before.clientCredentials.Some? && after.clientCredentials.Some? {
      ScopeBreaksMean(owner + " client credentials scopes", before.clientCredentials.value.scopes,
        after.clientCredentials.value.scopes, b);
    }
    if before.jwtBearer.Some? && after.jwtBearer.Some? {
      ScopeBreaksMean(owner + " JWT bearer scopes", before.jwtBearer.value.scopes, after.jwtBearer.value.scopes, b);
    }
    FieldBreaksMean(owner + " configuration", ConfigurationOf(before), ConfigurationOf(after), true, b);
  }

  /** The name that a report uses for a released method. */
  function OwnerOf(released: Auth, candidate: Auth, m: AuthMethod): string
  {
    if released.methods != [] then "auth method " + m.id
    else if candidate.methods != [] then "spec.auth, now auth method " + candidate.defaultMethod + ","
    else "spec.auth"
  }

  /** A released method that nothing serves, or a change in the method that serves it. */
  ghost predicate ServiceChange(released: Auth, candidate: Auth, m: AuthMethod, b: Break)
  {
    || ((forall serving :: !Serves(released, candidate, m, serving)) &&
      b == MethodRemoved(OwnerOf(released, candidate, m)))
    || (exists serving :: Serves(released, candidate, m, serving) &&
          MethodChange(OwnerOf(released, candidate, m), m, serving, b))
  }

  lemma PairBreaksMean(released: Auth, candidate: Auth, m: AuthMethod, b: Break)
    requires ValidAuth(candidate) && m in AuthMethods(released)
    ensures b in PairBreaks(PairOf(released, candidate, m)) <==> ServiceChange(released, candidate, m, b)
  {
    ValidAuthUniqueIDs(candidate);
    PairFindsServing(released, candidate, m);
    var pair := PairOf(released, candidate, m);
    assert pair.released == ConnectionMethod(OwnerOf(released, candidate, m), m);
    hide PairOf, MethodBreaks, MethodChange;
    if pair.candidate.Some? {
      ServingHasUniqueNames(released, candidate, m, pair.candidate.value.m);
      hide ValidAuth, Serves;
      MethodBreaksMean(pair.released, pair.candidate.value, b);
    }
  }

  lemma ServingHasUniqueNames(released: Auth, candidate: Auth, m: AuthMethod, serving: AuthMethod)
    requires ValidAuth(candidate) && Serves(released, candidate, m, serving)
    ensures UniqueNames(serving.fields) && UniqueNames(ConfigurationOf(serving))
  {
  }

  lemma {:induction false} MethodsBreaksMean(released: Auth, candidate: Auth, methods: seq<AuthMethod>, b: Break)
    requires ValidAuth(candidate) && forall m :: m in methods ==> m in AuthMethods(released)
    ensures b in MethodsBreaks(released, candidate, methods) <==>
      exists m :: m in methods && ServiceChange(released, candidate, m, b)
  {
    hide PairOf, PairBreaks, ServiceChange, ValidAuth, AuthMethods;
    if methods != [] {
      var initial, last := methods[..|methods| - 1], methods[|methods| - 1];
      assert methods == initial + [last];
      assert last in methods && forall m :: m in initial ==> m in methods;
      MethodsBreaksMean(released, candidate, initial, b);
      PairBreaksMean(released, candidate, last, b);
    }
  }

  /** The report of a candidate against a released manifest holds a break exactly when that change was made. */
  lemma ReportIsExact(released: Manifest, candidate: Manifest, b: Break)
    requires ValidManifest(candidate)
    ensures b in ConnectionBreaks(released, candidate) <==>
      || (released.auth.methods != [] && candidate.auth.methods != [] &&
          released.auth.defaultMethod != candidate.auth.defaultMethod &&
          b == DefaultMethodChanges(released.auth.defaultMethod, candidate.auth.defaultMethod))
      || (exists m :: m in AuthMethods(released.auth) && ServiceChange(released.auth, candidate.auth, m, b))
      || FieldsChange("spec.configuration", released.configuration, candidate.configuration, true, b)
  {
    hide MethodsBreaks, FieldBreaks, ServiceChange, FieldsChange, AuthMethods, ValidAuth, UniqueNames;
    MethodsBreaksMean(released.auth, candidate.auth, AuthMethods(released.auth), b);
    FieldBreaksMean("spec.configuration", released.configuration, candidate.configuration, true, b);
  }
}
