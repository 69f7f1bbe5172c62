/** The release gate of one component as a state machine over its admitted releases. */
module ReleaseGate {
  import opened Wrappers
  import opened Texts
  import opened Manifests
  import opened ConnectorVersions
  import opened ConnectionCompatibility
  import opened GeneratedValidators
  import HostKeptCredentials

  /** What git show reads at a release commit: its manifest, and whether the host-kept rule file exists there. */
  datatype Snapshot = Snapshot(manifest: Manifest, publishesHostKept: bool)

  datatype Release = Release(tag: string, version: string, sourceCommit: string, snapshot: Snapshot)

  /** A Go module component also checks the one-time tag migration. */
  datatype Component = Component(directory: string, language: string)

  function Path(component: Component): string
  {
    component.directory + "/" + component.language
  }

  function AsReachable(release: Release): Reachable
  {
    Reachable(release.tag, release.version, release.sourceCommit)
  }

  function Major(release: Release): nat
  {
    if IsVersion(release.version) then VersionParts(release.version).value.major else 0
  }

  function Last(history: seq<Release>): Release
    requires history != []
  {
    history[|history| - 1]
  }

  // ----- One step -----

  /** validateGoMigrationVersion: a legacy tag is followed by exactly one minor bump. */
  predicate MigrationAllows(component: Component, latestTag: string, latestVersion: string, target: string)
    requires IsVersion(latestVersion)
  {
    var parts := VersionParts(latestVersion).value;
    || component.language != "go"
    || HasPrefix(latestTag, component.directory + "/go/")
    || target == RenderVersion(Parts(parts.major, parts.minor + 1, 0))
  }

  ghost predicate KeepsConnections(latest: Snapshot, next: Manifest)
  {
    && ConnectionKept(latest.manifest, next)
    && (latest.publishesHostKept ==> HostKeptUnchanged(latest.manifest.auth, next.auth))
  }

  ghost predicate Follows(component: Component, latest: Release, next: Release)
  {
    && Older(latest.version, next.version)
    && MigrationAllows(component, latest.tag, latest.version, next.version)
    && (Major(latest) == Major(next) ==> KeepsConnections(latest.snapshot, next.snapshot.manifest))
  }

  ghost predicate Admits(component: Component, history: seq<Release>, next: Release)
  {
    && IsVersion(next.version)
    && ValidManifest(next.snapshot.manifest)
    && (history != [] ==> Follows(component, Last(history), next))
  }

  /** Every reachable state of the gate: each release was admitted after the ones before it. */
  ghost predicate IsRun(component: Component, history: seq<Release>)
  {
    history != [] ==>
      IsRun(component, history[..|history| - 1]) && Admits(component, history[..|history| - 1], Last(history))
  }

  // ----- The code of one step -----

  datatype Transition = Behind | InvalidTarget | Current | PendingRelease

  /** validateConnectorVersionTransition; the empty baseline means no release. */
  method ValidateVersionTransition(baseline: string, target: string) returns (transition: Transition)
    requires baseline != "" ==> IsVersion(baseline)
    requires MatchVersion(target).Some? ==> IsVersion(target)
    ensures transition == InvalidTarget <==> !IsVersion(target)
    ensures transition == Behind <==> IsVersion(target) && baseline != "" && Older(target, baseline)
    ensures transition == PendingRelease <==> IsVersion(target) && (baseline == "" || Older(baseline, target))
  {
    hide MatchVersion;
    if MatchVersion(target).None? {
      if IsVersion(target) {
        VersionMatches(target);
      }
      return InvalidTarget;
    }
    if baseline == "" {
      return PendingRelease;
    }
    OlderIsStrictTotalOrder(target, baseline, target);
    var comparison := CompareConnectorVersions(target, baseline);
    if comparison < 0 {
      return Behind;
    }
    return if comparison > 0 then PendingRelease else Current;
  }

  /** validateConnectionCompatibility of cmd/connectorctl: both checks, only within one major version. */
  method ValidateGateCompatibility(latest: Release, next: Manifest, target: string) returns (isKept: bool)
    requires IsVersion(latest.version) && IsVersion(target) && ValidManifest(next)
    ensures isKept <==>
      (Major(latest) == VersionParts(target).value.major ==> KeepsConnections(latest.snapshot, next))
  {
    hide MatchVersion, VersionParts, ConnectionBreaks, ConnectionKept, HostKeptUnchanged, ValidManifest, ValidAuth;
    hide PairKeepsHostKept;
    if VersionParts(latest.version).value.major != VersionParts(target).value.major {
      return true;
    }
    var breaks := ValidateConnectionCompatibility(latest.snapshot.manifest, next);
    NoBreaksIffConnectionKept(latest.snapshot.manifest, next);
    isKept := breaks == [];
    if latest.snapshot.publishesHostKept {
      var hostBreaks := ValidateHostKeptCredentialCompatibility(latest.snapshot.manifest, next);
      ValidManifestHasValidAuth(next);
      PairsKeepHostKept(latest.snapshot.manifest.auth, next.auth);
      isKept := isKept && hostBreaks == [];
    }
  }

  lemma ValidManifestHasValidAuth(manifest: Manifest)
    requires ValidManifest(manifest)
    ensures ValidAuth(manifest.auth)
  {
  }

  /** The tag listing shows exactly the component's admitted releases, in any order, and each commit its snapshot. */
  ghost predicate Shows(lines: seq<seq<string>>, commits: map<string, Snapshot>, component: Component,
      history: seq<Release>)
  {
    && VersionsFit(lines)
    && (forall listed :: Lists(lines, Path(component), listed) <==>
      exists release :: release in history && AsReachable(release) == listed)
    && (forall release ::
      release in history ==> release.sourceCommit in commits && commits[release.sourceCommit] == release.snapshot)
  }

  /** The release-matrix decision for one component: it admits next exactly when the state machine steps. */
  method DecideRelease(component: Component, lines: seq<seq<string>>, commits: map<string, Snapshot>,
                       next: Release, ghost history: seq<Release>) returns (isAdmitted: bool)
    requires IsRun(component, history) && Shows(lines, commits, component, history)
    requires ValidManifest(next.snapshot.manifest)
    requires MatchVersion(next.version).Some? ==> IsVersion(next.version)
    ensures isAdmitted <==> Admits(component, history, next)
  {
    hide MatchVersion, VersionParts, ReadTag, ValidManifest, KeepsConnections, Lists, VersionsFit;
    var latest := LatestReachableConnectorReleases(lines);
    if history != [] {
      assert Last(history) in history;
      assert Lists(lines, Path(component), AsReachable(Last(history)));
    }
    if Path(component) !in latest {
      var transition := ValidateVersionTransition("", next.version);
      return transition == PendingRelease;
    }
    var found := latest[Path(component)];
    LatestIsLast(component, history, lines, commits, found);
    assert Last(history) in history;
    var snapshot := commits[found.sourceCommit];
    RunIsValid(component, history, |history| - 1);
    assert found.version != "" by { VersionIsNotEmpty(found.version); }
    var transition := ValidateVersionTransition(found.version, next.version);
    if transition != PendingRelease {
      return false;
    }
    if !MigrationAllows(component, found.tag, found.version, next.version) {
      return false;
    }
    var release := Release(found.tag, found.version, found.sourceCommit, snapshot);
    isAdmitted := ValidateGateCompatibility(release, next.snapshot.manifest, next.version);
  }

  lemma VersionIsNotEmpty(version: string)
    requires IsVersion(version)
    ensures version != ""
  {
  }

  // ----- Invariants of every run -----

  lemma {:induction false} RunPrefix(component: Component, history: seq<Release>, length: nat)
    requires IsRun(component, history) && length <= |history|
    ensures IsRun(component, history[..length])
    decreases |history|
  {
    hide Admits;
    if length < |history| {
      RunPrefix(component, history[..|history| - 1], length);
      assert history[..|history| - 1][..length] == history[..length];
    } else {
      assert history[..length] == history;
    }
  }

  lemma RunIsValid(component: Component, history: seq<Release>, index: nat)
    requires IsRun(component, history) && index < |history|
    ensures IsVersion(history[index].version) && ValidManifest(history[index].snapshot.manifest)
  {
    hide ValidManifest, IsVersion;
    RunPrefix(component, history, index + 1);
    assert Last(history[..index + 1]) == history[index];
  }

  lemma RunSteps(component: Component, history: seq<Release>, index: nat)
    requires IsRun(component, history) && index + 1 < |history|
    ensures Follows(component, history[index], history[index + 1])
  {
    RunPrefix(component, history, index + 2);
    var prefix := history[..index + 2];
    RunAdmitsLast(component, prefix);
    hide *;
    assert prefix[|prefix| - 2] == history[index] && prefix[|prefix| - 1] == history[index + 1];
  }

  lemma RunAdmitsLast(component: Component, history: seq<Release>)
    requires IsRun(component, history) && |history| >= 2
    ensures Follows(component, history[|history| - 2], history[|history| - 1])
  {
    hide Follows, ValidManifest, IsVersion;
    var before := history[..|history| - 1];
    assert before[|before| - 1] == history[|history| - 2];
  }

  /** Versions strictly increase along every run. */
  lemma {:induction false} VersionsIncrease(component: Component, history: seq<Release>, earlier: nat, later: nat)
    requires IsRun(component, history) && earlier < later < |history|
    ensures Older(history[earlier].version, history[later].version)
    decreases later
  {
    hide IsRun, IsVersion, Older, ValidManifest, MigrationAllows, KeepsConnections, Major;
    RunSteps(component, history, later - 1);
    if earlier < later - 1 {
      VersionsIncrease(component, history, earlier, later - 1);
      RunIsValid(component, history, earlier);
      RunIsValid(component, history, later - 1);
      RunIsValid(component, history, later);
      OlderIsStrictTotalOrder(history[earlier].version, history[later - 1].version, history[later].version);
    }
  }

  /** In every run, the release after a legacy Go tag is exactly the next minor version. */
  lemma MigrationIsOneMinor(component: Component, history: seq<Release>, index: nat)
    requires IsRun(component, history) && index + 1 < |history| && component.language == "go"
    requires !HasPrefix(history[index].tag, component.directory + "/go/")
    ensures IsVersion(history[index].version) && IsVersion(history[index + 1].version)
    ensures var before, after :=
      VersionParts(history[index].version).value, VersionParts(history[index + 1].version).value;
      after.major == before.major && after.minor == before.minor + 1 && after.patch == 0
  {
    hide IsRun, VersionParts, HasPrefix, KeepsConnections, Older;
    RunSteps(component, history, index);
    RunIsValid(component, history, index);
    RunIsValid(component, history, index + 1);
    var before, after := history[index].version, history[index + 1].version;
    RenderedParts(VersionParts(before).value, after);
  }

  lemma RenderedParts(parts: Parts, version: string)
    requires IsVersion(version) && version == RenderVersion(Parts(parts.major, parts.minor + 1, 0))
    ensures VersionParts(version).value == Parts(parts.major, parts.minor + 1, 0)
  {
    RenderedValue(Parts(parts.major, parts.minor + 1, 0));
  }

  /** The release after any other tag may be any newer version that keeps the connections of its major version. */
  lemma NewTagsAreFree(component: Component, latest: Release, next: Release)
    requires component.language != "go" || HasPrefix(latest.tag, component.directory + "/go/")
    requires IsVersion(latest.version)
    ensures Follows(component, latest, next) <==>
      Older(latest.version, next.version) &&
      (Major(latest) == Major(next) ==> KeepsConnections(latest.snapshot, next.snapshot.manifest))
  {
    hide Older, KeepsConnections, Major, HasPrefix, IsVersion;
  }

  /** The releases of one major version are contiguous. */
  lemma MajorsAreContiguous(component: Component, history: seq<Release>, earlier: nat, middle: nat, later: nat)
    requires IsRun(component, history) && earlier <= middle <= later < |history|
    requires Major(history[earlier]) == Major(history[later])
    ensures Major(history[middle]) == Major(history[earlier])
  {
    hide IsRun, VersionParts, Older;
    RunIsValid(component, history, earlier);
    RunIsValid(component, history, middle);
    RunIsValid(component, history, later);
    if earlier < middle {
      VersionsIncrease(component, history, earlier, middle);
      OlderIsStrictTotalOrder(history[earlier].version, history[middle].version, history[middle].version);
    }
    if middle < later {
      VersionsIncrease(component, history, middle, later);
      OlderIsStrictTotalOrder(history[middle].version, history[later].version, history[later].version);
    }
  }

  /** For every order of the tag listing, the scanned latest release is the last admitted one. */
  lemma LatestIsLast(component: Component, history: seq<Release>, lines: seq<seq<string>>,
      commits: map<string, Snapshot>, found: Reachable)
    requires IsRun(component, history) && Shows(lines, commits, component, history)
    requires IsLatest(lines, Path(component), found)
    ensures history != [] && found == AsReachable(Last(history))
  {
    hide IsRun, Older, Lists, VersionsFit;
    var release :| release in history && AsReachable(release) == found;
    var index :| 0 <= index < |history| && history[index] == release;
    assert Last(history) in history;
    assert Lists(lines, Path(component), AsReachable(Last(history)));
    if index < |history| - 1 {
      VersionsIncrease(component, history, index, |history| - 1);
    }
  }

  /** Neighbours of one major version passed the connection check. */
  lemma NeighboursKeepConnections(component: Component, history: seq<Release>, earlier: nat, later: nat)
    requires IsRun(component, history) && earlier < later < |history|
    requires Major(history[earlier]) == Major(history[later])
    ensures Major(history[later - 1]) == Major(history[later])
    ensures KeepsConnections(history[later - 1].snapshot, history[later].snapshot.manifest)
    ensures ValidManifest(history[later - 1].snapshot.manifest) && ValidManifest(history[later].snapshot.manifest)
  {
    hide IsRun, Major, KeepsConnections, ValidManifest, MigrationAllows, Older, IsVersion, VersionParts;
    MajorsAreContiguous(component, history, earlier, later - 1, later);
    RunSteps(component, history, later - 1);
    RunIsValid(component, history, later - 1);
    RunIsValid(component, history, later);
  }

  /** Whole-run credential safety: what one release accepts, every later release of its major version accepts. */
  lemma {:induction false} CredentialsSurviveUpgrades(
    isURL: UrlCheck, component: Component, history: seq<Release>, earlier: nat, later: nat, stored: Stored)
    requires IsRun(component, history) && earlier <= later < |history|
    requires Major(history[earlier]) == Major(history[later])
    requires CredentialAccepted(isURL, Full, history[earlier].snapshot.manifest.auth, stored)
    ensures CredentialAccepted(isURL, Full, history[later].snapshot.manifest.auth, stored)
    decreases later
  {
    hide IsRun, Major, CredentialAccepted, AuthKept, ValidAuth, SettingsKept;
    if earlier < later {
      NeighboursKeepConnections(component, history, earlier, later);
      CredentialsSurviveUpgrades(isURL, component, history, earlier, later - 1, stored);
      CredentialsStayAccepted(isURL, history[later - 1].snapshot.manifest.auth, history[later].snapshot.manifest.auth,
        stored);
    }
  }

  /** Whole-run settings safety. */
  lemma {:induction false} SettingsSurviveUpgrades(
    isURL: UrlCheck, component: Component, history: seq<Release>, earlier: nat, later: nat, stored: Stored)
    requires IsRun(component, history) && earlier <= later < |history|
    requires Major(history[earlier]) == Major(history[later])
    requires SettingsAccepted(isURL, history[earlier].snapshot.manifest, stored)
    ensures SettingsAccepted(isURL, history[later].snapshot.manifest, stored)
    decreases later
  {
    hide IsRun, Major, SettingsAccepted, ConnectionKept, ValidManifest;
    if earlier < later {
      NeighboursKeepConnections(component, history, earlier, later);
      SettingsSurviveUpgrades(isURL, component, history, earlier, later - 1, stored);
      SettingsStayAccepted(isURL, history[later - 1].snapshot.manifest, history[later].snapshot.manifest, stored);
    }
  }

  // ----- Shared credentials stripped by the newest release's declarations -----

  /** Every check between two releases also compared the host-kept credentials. */
  ghost predicate HostKeptPublished(history: seq<Release>, earlier: nat, later: nat)
    requires later <= |history|
  {
    forall index :: earlier <= index < later ==> history[index].snapshot.publishesHostKept
  }

  lemma PairSelectsSameHostKept(released: Manifest, candidate: Manifest, stored: Stored, m: AuthMethod,
      serving: AuthMethod)
    requires ValidManifest(released) && ValidManifest(candidate) && ConnectionKept(released, candidate)
    requires HostKeptUnchanged(released.auth, candidate.auth)
    requires DecodesStrictly(stored, StructFields(released.auth))
    requires Selects(released.auth, stored, m) && Selects(candidate.auth, stored, serving)
    ensures HostKeptCredentials.HostKept(m) == HostKeptCredentials.HostKept(serving)
  {
    hide SelectedID, DecodesStrictly, ValidAuth, AuthKept, SettingsKept;
    SelectionServes(released.auth, candidate.auth, stored, m);
    assert Serves(released.auth, candidate.auth, m, serving);
  }

  lemma NeighboursKeepHostKept(component: Component, history: seq<Release>, earlier: nat, later: nat)
    requires IsRun(component, history) && earlier < later < |history|
    requires Major(history[earlier]) == Major(history[later]) && HostKeptPublished(history, earlier, later)
    ensures Major(history[later - 1]) == Major(history[earlier]) && HostKeptPublished(history, earlier, later - 1)
    ensures var released, candidate := history[later - 1].snapshot.manifest, history[later].snapshot.manifest;
      && ValidManifest(released) && ValidManifest(candidate)
      && ConnectionKept(released, candidate) && HostKeptUnchanged(released.auth, candidate.auth)
  {
    hide IsRun, Major, ConnectionKept, HostKeptUnchanged, ValidManifest;
    NeighboursKeepConnections(component, history, earlier, later);
  }

  lemma AcceptedSelects(isURL: UrlCheck, auth: Auth, stored: Stored) returns (m: AuthMethod)
    requires CredentialAccepted(isURL, Full, auth, stored)
    ensures DecodesStrictly(stored, StructFields(auth)) && Selects(auth, stored, m)
  {
    hide Selects, MethodAccepts, DecodesStrictly;
    m :| Selects(auth, stored, m) && MethodAccepts(isURL, Full, m, stored);
  }

  /** The method that a stored credential selects keeps its host-kept fields along the whole major version. */
  lemma {:induction false} HostKeptStable(
    isURL: UrlCheck, component: Component, history: seq<Release>, earlier: nat, later: nat,
    stored: Stored, m: AuthMethod, serving: AuthMethod)
    requires IsRun(component, history) && earlier <= later < |history|
    requires Major(history[earlier]) == Major(history[later]) && HostKeptPublished(history, earlier, later)
    requires CredentialAccepted(isURL, Full, history[earlier].snapshot.manifest.auth, stored)
    requires Selects(history[earlier].snapshot.manifest.auth, stored, m)
    requires Selects(history[later].snapshot.manifest.auth, stored, serving)
    ensures HostKeptCredentials.HostKept(m) == HostKeptCredentials.HostKept(serving)
    decreases later
  {
    hide *;
    if earlier < later {
      NeighboursKeepHostKept(component, history, earlier, later);
      CredentialsSurviveUpgrades(isURL, component, history, earlier, later - 1, stored);
      var between := AcceptedSelects(isURL, history[later - 1].snapshot.manifest.auth, stored);
      HostKeptStable(isURL, component, history, earlier, later - 1, stored, m, between);
      PairSelectsSameHostKept(history[later - 1].snapshot.manifest, history[later].snapshot.manifest, stored, between,
        serving);
    } else {
      RunIsValid(component, history, earlier);
      SelectionIsUnique(history[earlier].snapshot.manifest, stored, m, serving);
    }
  }

  lemma SelectionIsUnique(manifest: Manifest, stored: Stored, m: AuthMethod, other: AuthMethod)
    requires ValidManifest(manifest) && Selects(manifest.auth, stored, m) && Selects(manifest.auth, stored, other)
    ensures m == other
  {
    hide SelectedID;
    DeclaredMethod(manifest.auth, m);
  }

  /** A credential stripped by the newest release's list still serves the applications of an older release, and
      carries none of the fields that the older release promised to keep from them. */
  lemma SharedCredentialsSurviveUpgrades(
    isURL: UrlCheck, component: Component, history: seq<Release>, earlier: nat, later: nat,
    stored: Stored, m: AuthMethod, newest: AuthMethod)
    requires IsRun(component, history) && earlier <= later < |history|
    requires Major(history[earlier]) == Major(history[later]) && HostKeptPublished(history, earlier, later)
    requires CredentialAccepted(isURL, Full, history[earlier].snapshot.manifest.auth, stored)
    requires Selects(history[earlier].snapshot.manifest.auth, stored, m) && MintedFieldsFilled(isURL, m, stored)
    requires Selects(history[later].snapshot.manifest.auth, stored, newest)
    ensures CredentialAccepted(isURL, Shared, history[earlier].snapshot.manifest.auth,
      Strip(stored, HostKeptCredentials.HostKept(newest)))
    ensures Strip(stored, HostKeptCredentials.HostKept(newest)).Keys !! HostKeptCredentials.HostKept(m)
  {
    hide IsRun, Major, Selects, MethodAccepts, DecodesStrictly, ValidAuth, HostKeptCredentials.HostKept;
    hide MintedFieldsFilled;
    HostKeptStable(isURL, component, history, earlier, later, stored, m, newest);
    RunIsValid(component, history, earlier);
    var auth := history[earlier].snapshot.manifest.auth;
    var accepted :| Selects(auth, stored, accepted) && MethodAccepts(isURL, Full, accepted, stored);
    SelectionIsUnique(history[earlier].snapshot.manifest, stored, m, accepted);
    StrippedCredentialIsShared(isURL, auth, stored, m);
  }
}
