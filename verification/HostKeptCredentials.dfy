/** The credential fields that a host keeps from applications because they only refresh or mint the access token. */
module HostKeptCredentials {
  import opened Wrappers
  import opened Texts
  import opened Manifests

  predicate NamesRefreshToken(mapping: CredentialMapping)
  {
    mapping.source == "refresh_token" || HasSuffix(mapping.source, ".refresh_token")
  }

  ghost predicate FilledFromRefreshToken(mappings: seq<CredentialMapping>, name: string)
  {
    exists mapping :: mapping in mappings && NamesRefreshToken(mapping) && mapping.credential == name
  }

  ghost predicate ServesOnlyOAuth(oauth: OAuth2, name: string)
  {
    || name == oauth.clientSecretCredential
    || FilledFromRefreshToken(oauth.credentialMappings, name)
    || exists grant :: grant in oauth.refreshGrants &&
         (name == grant.refreshTokenCredential || FilledFromRefreshToken(grant.credentialMappings, name))
  }

  /** The documented rule, one disjunct per kind of grant. */
  ghost predicate ServesOnlyTheHost(m: AuthMethod, name: string)
  {
    || (m.oauth2.Some? && ServesOnlyOAuth(m.oauth2.value, name))
    || (m.clientCredentials.Some? && name == m.clientCredentials.value.clientSecretCredential)
    || (m.jwtBearer.Some? &&
      (name == m.jwtBearer.value.keyCredential || name == m.jwtBearer.value.privateKeyCredential))
  }

  ghost function HostKept(m: AuthMethod): set<string>
  {
    set field | field in m.fields && ServesOnlyTheHost(m, field.name) :: field.name
  }

  /** The names of the fields that kept holds, in field order. */
  function KeptInOrder(fields: seq<Field>, kept: set<string>): seq<string>
  {
    if fields == [] then []
    else
      var names, field := KeptInOrder(fields[..|fields| - 1], kept), fields[|fields| - 1];
      if field.name in kept then names + [field.name] else names
  }

  lemma {:induction false} KeptInOrderElements(fields: seq<Field>, kept: set<string>)
    ensures Elements(KeptInOrder(fields, kept)) == Names(fields) * kept
  {
    if fields == [] {
    } else {
      var initial, field := fields[..|fields| - 1], fields[|fields| - 1];
      KeptInOrderElements(initial, kept);
      assert fields == initial + [field];
      NamesOfConcat(initial, [field]);
      assert Elements(KeptInOrder(fields, kept)) ==
        Elements(KeptInOrder(initial, kept)) + if field.name in kept then {field.name} else {};
    }
  }

  /** Collects the names that a set of mappings fills from a refresh token. */
  method CollectRefreshTokens(mappings: seq<CredentialMapping>, kept: set<string>) returns (more: set<string>)
    ensures forall name :: name in more <==> name in kept || FilledFromRefreshToken(mappings, name)
  {
    more := kept;
    for index := 0 to |mappings|
      invariant forall name :: name in more <==> name in kept || FilledFromRefreshToken(mappings[..index], name)
    {
      assert mappings[..index + 1] == mappings[..index] + [mappings[index]];
      if NamesRefreshToken(mappings[index]) {
        more := more + {mappings[index].credential};
      }
    }
    assert mappings[..|mappings|] == mappings;
  }

  lemma FilledFromEither(left: seq<CredentialMapping>, right: seq<CredentialMapping>, name: string)
    ensures FilledFromRefreshToken(left + right, name) <==>
      FilledFromRefreshToken(left, name) || FilledFromRefreshToken(right, name)
  {
  }

  method CollectOAuth(oauth: OAuth2) returns (kept: set<string>)
    ensures forall name :: name in kept <==> ServesOnlyOAuth(oauth, name)
  {
    hide FilledFromRefreshToken;
    kept := {oauth.clientSecretCredential};
    var mappings := oauth.credentialMappings;
    var grants := oauth.refreshGrants;
    for index := 0 to |grants|
      invariant forall name :: name in kept <==>
        (name == oauth.clientSecretCredential ||
         exists grant :: grant in grants[..index] && name == grant.refreshTokenCredential)
      invariant forall name :: FilledFromRefreshToken(mappings, name) <==>
        (FilledFromRefreshToken(oauth.credentialMappings, name) ||
         exists grant :: grant in grants[..index] && FilledFromRefreshToken(grant.credentialMappings, name))
    {
      assert grants[..index + 1] == grants[..index] + [grants[index]];
      kept := kept + {grants[index].refreshTokenCredential};
      forall name {
        FilledFromEither(mappings, grants[index].credentialMappings, name);
      }
      mappings := mappings + grants[index].credentialMappings;
    }
    assert grants[..|grants|] == grants;
    kept := CollectRefreshTokens(mappings, kept);
  }

  /** HostKeptCredentials: the kept map is filled grant by grant, then read in field order. */
  method HostKeptCredentials(m: AuthMethod) returns (fields: seq<string>)
    ensures fields == KeptInOrder(m.fields, HostKept(m))
    ensures Elements(fields) == HostKept(m)
  {
    var kept: set<string> := {};
    if m.oauth2.Some? {
      kept := CollectOAuth(m.oauth2.value);
    }
    if m.clientCredentials.Some? {
      kept := kept + {m.clientCredentials.value.clientSecretCredential};
    }
    if m.jwtBearer.Some? {
      kept := kept + {m.jwtBearer.value.keyCredential};
      kept := kept + {m.jwtBearer.value.privateKeyCredential};
    }
    fields := [];
    for index := 0 to |m.fields|
      invariant fields == KeptInOrder(m.fields[..index], HostKept(m))
    {
      var field := m.fields[index];
      assert m.fields[..index + 1] == m.fields[..index] + [field];
      assert field.name in kept <==> field.name in HostKept(m);
      if field.name in kept {
        fields := fields + [field.name];
      }
    }
    assert m.fields[..|m.fields|] == m.fields;
    KeptInOrderElements(m.fields, HostKept(m));
    assert Names(m.fields) * HostKept(m) == HostKept(m);
  }
}
