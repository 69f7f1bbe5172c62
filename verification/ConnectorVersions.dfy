/** Connector version strings, their order, and the tag scans that pick the latest release. */
module ConnectorVersions {
  import opened Wrappers
  import opened Texts
  import opened Numerals

  const MAX_INT := 0x7fff_ffff_ffff_ffff

  datatype Parts = Parts(major: nat, minor: nat, patch: nat)

  // ----- The pattern ^v(0|[1-9][0-9]*)\.(0|[1-9][0-9]*)\.(0|[1-9][0-9]*)$ -----

  function IndexOf(text: string, c: char): (index: nat)
    ensures index <= |text| && (index < |text| ==> text[index] == c) && c !in text[..index]
  {
    if text == [] || text[0] == c then 0 else 1 + IndexOf(text[1..], c)
  }

  lemma {:induction false} IndexOfFirst(left: string, c: char, right: string)
    requires c !in left
    ensures IndexOf(left + [c] + right, c) == |left|
  {
    var text := left + [c] + right;
    if left == [] {
      assert text[0] == c;
    } else {
      assert text[1..] == left[1..] + [c] + right;
      IndexOfFirst(left[1..], c, right);
    }
  }

  /** The texts around the first dot. */
  function SplitDot(text: string): (parts: Option<(string, string)>)
    ensures parts.Some? ==> text == parts.value.0 + "." + parts.value.1
  {
    var index := IndexOf(text, '.');
    if index == |text| then None else Some((text[..index], text[index + 1..]))
  }

  lemma SplitDotOfJoin(left: string, right: string)
    requires '.' !in left
    ensures SplitDot(left + "." + right) == Some((left, right))
  {
    IndexOfFirst(left, '.', right);
    assert (left + "." + right)[..|left|] == left && (left + "." + right)[|left| + 1..] == right;
  }

  datatype Groups = Groups(major: string, minor: string, patch: string)

  function MatchVersion(version: string): Option<Groups>
  {
    if version == [] || version[0] != 'v' then None
    else
      var outer := SplitDot(version[1..]);
      if outer.None? then None
      else
        var inner := SplitDot(outer.value.1);
        if inner.None? then None
        else
          var groups := Groups(outer.value.0, inner.value.0, inner.value.1);
          if IsCanonicalNumber(groups.major) && IsCanonicalNumber(groups.minor) && IsCanonicalNumber(groups.patch)
          then Some(groups) else None
  }

  function Join(groups: Groups): string
  {
    "v" + (groups.major + "." + (groups.minor + "." + groups.patch))
  }

  /** The match is a left inverse of joining, so a version string and its groups determine each other. */
  lemma MatchIsJoin(version: string)
    requires MatchVersion(version).Some?
    ensures Join(MatchVersion(version).value) == version
  {
    assert version == "v" + version[1..];
  }

  lemma JoinMatches(groups: Groups)
    requires IsCanonicalNumber(groups.major) && IsCanonicalNumber(groups.minor) && IsCanonicalNumber(groups.patch)
    ensures MatchVersion(Join(groups)) == Some(groups)
  {
    assert Join(groups)[1..] == groups.major + "." + (groups.minor + "." + groups.patch);
    SplitDotOfJoin(groups.major, groups.minor + "." + groups.patch);
    SplitDotOfJoin(groups.minor, groups.patch);
  }

  /** connectorVersionParts; None is its panic on a part that does not fit an int. */
  function VersionParts(version: string): Option<Parts>
  {
    match MatchVersion(version)
    case None => None
    case Some(groups) =>
      var parts := Parts(NumberValue(groups.major), NumberValue(groups.minor), NumberValue(groups.patch));
      if parts.major <= MAX_INT && parts.minor <= MAX_INT && parts.patch <= MAX_INT then Some(parts) else None
  }

  predicate IsVersion(version: string)
  {
    VersionParts(version).Some?
  }

  function RenderVersion(parts: Parts): string
  {
    Join(Groups(RenderNumber(parts.major), RenderNumber(parts.minor), RenderNumber(parts.patch)))
  }

  lemma VersionRoundTrip(version: string)
    requires IsVersion(version)
    ensures RenderVersion(VersionParts(version).value) == version
  {
    var groups := MatchVersion(version).value;
    MatchIsJoin(version);
    RenderOfValue(groups.major);
    RenderOfValue(groups.minor);
    RenderOfValue(groups.patch);
  }

  lemma PartsRoundTrip(parts: Parts)
    requires parts.major <= MAX_INT && parts.minor <= MAX_INT && parts.patch <= MAX_INT
    ensures VersionParts(RenderVersion(parts)) == Some(parts)
  {
    ValueOfRender(parts.major);
    ValueOfRender(parts.minor);
    ValueOfRender(parts.patch);
    JoinMatches(Groups(RenderNumber(parts.major), RenderNumber(parts.minor), RenderNumber(parts.patch)));
  }

  /** Rendered parts match the pattern with their own values, whatever their size. */
  lemma RenderedValue(parts: Parts)
    ensures MatchVersion(RenderVersion(parts)).Some?
    ensures VersionParts(RenderVersion(parts)).Some? ==> VersionParts(RenderVersion(parts)).value == parts
  {
    ValueOfRender(parts.major);
    ValueOfRender(parts.minor);
    ValueOfRender(parts.patch);
    JoinMatches(Groups(RenderNumber(parts.major), RenderNumber(parts.minor), RenderNumber(parts.patch)));
  }

  // ----- The order -----

  ghost predicate PartsLess(left: Parts, right: Parts)
  {
    || left.major < right.major
    || (left.major == right.major && left.minor < right.minor)
    || (left.major == right.major && left.minor == right.minor && left.patch < right.patch)
  }

  ghost predicate Older(left: string, right: string)
  {
    IsVersion(left) && IsVersion(right) && PartsLess(VersionParts(left).value, VersionParts(right).value)
  }

  function PartsList(parts: Parts): seq<nat>
  {
    [parts.major, parts.minor, parts.patch]
  }

  method CompareParts(left: Parts, right: Parts) returns (comparison: int)
    ensures comparison < 0 <==> PartsLess(left, right)
    ensures comparison > 0 <==> PartsLess(right, left)
    ensures comparison == 0 <==> left == right
  {
    var leftParts, rightParts := PartsList(left), PartsList(right);
    for index := 0 to 3
      invariant forall i :: 0 <= i < index ==> leftParts[i] == rightParts[i]
    {
      assert index == 0 || index == 1 || index == 2;
      assert index >= 1 ==> leftParts[0] == rightParts[0];
      assert index >= 2 ==> leftParts[1] == rightParts[1];
      if leftParts[index] < rightParts[index] {
        return -1;
      }
      if leftParts[index] > rightParts[index] {
        return 1;
      }
    }
    assert leftParts[0] == rightParts[0] && leftParts[1] == rightParts[1] && leftParts[2] == rightParts[2];
    return 0;
  }

  /** compareConnectorVersions: the first differing part decides. */
  method CompareConnectorVersions(left: string, right: string) returns (comparison: int)
    requires IsVersion(left) && IsVersion(right)
    ensures comparison < 0 <==> Older(left, right)
    ensures comparison > 0 <==> Older(right, left)
    ensures comparison == 0 <==> left == right
  {
    comparison := CompareParts(VersionParts(left).value, VersionParts(right).value);
    VersionRoundTrip(left);
    VersionRoundTrip(right);
  }

  lemma NotOlderThanItself(version: string)
    ensures !Older(version, version)
  {
  }

  lemma VersionMatches(version: string)
    requires IsVersion(version)
    ensures MatchVersion(version).Some?
  {
  }

  /** A strict total order in which only equal strings are unordered. */
  lemma OlderIsStrictTotalOrder(a: string, b: string, c: string)
    requires IsVersion(a) && IsVersion(b) && IsVersion(c)
    ensures !Older(a, a)
    ensures Older(a, b) || Older(b, a) || a == b
    ensures Older(a, b) && Older(b, c) ==> Older(a, c)
    ensures Older(a, b) ==> VersionParts(a).value.major <= VersionParts(b).value.major
  {
    hide RenderVersion, MatchVersion, VersionParts;
    VersionRoundTrip(a);
    VersionRoundTrip(b);
  }

  // ----- latestReachableConnectorReleases -----

  datatype Reachable = Reachable(tag: string, version: string, sourceCommit: string)

  datatype TagEntry = TagEntry(directory: string, release: Reachable)

  /** strings.LastIndex of a slash, or -1. */
  function LastSlash(text: string): (index: int)
    ensures -1 <= index < |text|
    ensures index >= 0 ==> text[index] == '/'
  {
    if text == [] then -1
    else if text[|text| - 1] == '/' then |text| - 1
    else LastSlash(text[..|text| - 1])
  }

  /** One line of git for-each-ref, split at its tabs; None for the lines that the scan skips. */
  function ReadTag(fields: seq<string>): Option<TagEntry>
  {
    if |fields| != 3 then None
    else
      var tag := fields[0];
      var separator := LastSlash(tag);
      if separator < 0 || MatchVersion(tag[separator + 1..]).None? then None
      else
        var directory := tag[..separator];
        var component :=
          if HasSuffix(directory, "/python") || HasSuffix(directory, "/typescript") || HasSuffix(directory, "/go")
          then directory else directory + "/go";
        Some(TagEntry(component,
          Reachable(tag, tag[separator + 1..], if fields[2] != "" then fields[2] else fields[1])))
  }

  lemma {:induction false} LastSlashAt(directory: string, version: string)
    requires '/' !in version
    ensures LastSlash(directory + "/" + version) == |directory|
    decreases |version|
  {
    var text := directory + "/" + version;
    if version != "" {
      var shorter := version[..|version| - 1];
      LastSlashAt(directory, shorter);
      assert text[|text| - 1] == version[|version| - 1];
      assert text[..|text| - 1] == directory + "/" + shorter;
    }
  }

  lemma VersionHasNoSlash(version: string)
    requires MatchVersion(version).Some?
    ensures '/' !in version
  {
    MatchIsJoin(version);
    var groups := MatchVersion(version).value;
    NumberHasNoSlash(groups.major);
    NumberHasNoSlash(groups.minor);
    NumberHasNoSlash(groups.patch);
    hide MatchVersion, IsCanonicalNumber;
  }

  lemma NumberHasNoSlash(digits: string)
    ensures IsCanonicalNumber(digits) ==> '/' !in digits
  {
  }

  /** What a tag line stands for: the release of the directory before its version, at the commit that an annotated tag
      points to or that a plain tag is. A directory without a language is the Go component of a legacy tag. */
  lemma TagLine(directory: string, version: string, tagged: string, peeled: string)
    requires MatchVersion(version).Some?
    ensures var tag := directory + "/" + version;
      var hasLanguage :=
        HasSuffix(directory, "/go") || HasSuffix(directory, "/python") || HasSuffix(directory, "/typescript");
      && (peeled != "" && hasLanguage ==>
            ReadTag([tag, tagged, peeled]) == Some(TagEntry(directory, Reachable(tag, version, peeled))))
      && (hasLanguage ==> ReadTag([tag, tagged, ""]) == Some(TagEntry(directory, Reachable(tag, version, tagged))))
      && (peeled != "" && !hasLanguage ==>
            ReadTag([tag, tagged, peeled]) == Some(TagEntry(directory + "/go", Reachable(tag, version, peeled))))
      && (!hasLanguage ==>
        ReadTag([tag, tagged, ""]) == Some(TagEntry(directory + "/go", Reachable(tag, version, tagged))))
  {
    hide MatchVersion, HasSuffix, LastSlash;
    VersionHasNoSlash(version);
    LastSlashAt(directory, version);
    var tag := directory + "/" + version;
    assert tag[..|directory|] == directory && tag[|directory| + 1..] == version;
  }

  /** And every line that the scan reads is such a line. */
  lemma ReadLineIsTagLine(fields: seq<string>)
    ensures ReadTag(fields).Some? <==>
      |fields| == 3 && exists directory, version ::
        fields[0] == directory + "/" + version && MatchVersion(version).Some?
  {
    hide MatchVersion, LastSlash;
    if ReadTag(fields).Some? {
      var tag, separator := fields[0], LastSlash(fields[0]);
      assert tag == tag[..separator] + "/" + tag[separator + 1..];
    }
    if |fields| == 3 {
      forall directory, version | fields[0] == directory + "/" + version && MatchVersion(version).Some?
        ensures ReadTag(fields).Some?
      {
        VersionHasNoSlash(version);
        LastSlashAt(directory, version);
        assert fields[0][|directory| + 1..] == version;
      }
    }
  }

  ghost predicate Lists(lines: seq<seq<string>>, directory: string, release: Reachable)
  {
    exists line :: line in lines && ReadTag(line) == Some(TagEntry(directory, release))
  }

  /** A listed release of the directory that no other listed release is newer than. */
  ghost predicate IsLatest(lines: seq<seq<string>>, directory: string, release: Reachable)
  {
    && Lists(lines, directory, release)
    && forall other :: Lists(lines, directory, other) ==> !Older(release.version, other.version)
  }

  ghost predicate VersionsFit(lines: seq<seq<string>>)
  {
    forall line :: line in lines && ReadTag(line).Some? ==> IsVersion(ReadTag(line).value.release.version)
  }

  method LatestReachableConnectorReleases(lines: seq<seq<string>>) returns (latest: map<string, Reachable>)
    requires VersionsFit(lines)
    ensures forall directory :: directory in latest ==> IsLatest(lines, directory, latest[directory])
    ensures forall directory, release :: Lists(lines, directory, release) ==> directory in latest
  {
    hide ReadTag, IsVersion, Older;
    latest := map[];
    for index := 0 to |lines|
      invariant forall directory :: directory in latest ==> IsLatest(lines[..index], directory, latest[directory])
      invariant forall directory, release :: Lists(lines[..index], directory, release) ==> directory in latest
    {
      var seen, more := lines[..index], lines[..index + 1];
      assert more == seen + [lines[index]];
      var entry := ReadTag(lines[index]);
      assert forall directory, release :: Lists(more, directory, release) <==>
        Lists(seen, directory, release) || entry == Some(TagEntry(directory, release));
      if entry.None? {
        continue;
      }
      var directory, release := entry.value.directory, entry.value.release;
      assert lines[index] in lines;
      if directory !in latest {
        NotOlderThanItself(release.version);
        latest := latest[directory := release];
      } else {
        var current := latest[directory];
        assert IsVersion(current.version) by {
          var line :| line in seen && ReadTag(line) == Some(TagEntry(directory, current));
          assert line in lines;
        }
        var comparison := CompareConnectorVersions(release.version, current.version);
        if comparison > 0 {
          forall other | Lists(seen, directory, other) ensures !Older(release.version, other.version) {
            if Older(release.version, other.version) {
              OlderIsStrictTotalOrder(current.version, release.version, other.version);
            }
          }
          NotOlderThanItself(release.version);
          latest := latest[directory := release];
        }
      }
    }
    assert lines[..|lines|] == lines;
  }

  /** The latest version of a component does not depend on the order in which git lists the tags. */
  lemma LatestVersionIsOrderIndependent(lines: seq<seq<string>>, others: seq<seq<string>>, directory: string,
      release: Reachable, other: Reachable)
    requires VersionsFit(lines) && Elements(lines) == Elements(others)
    requires IsLatest(lines, directory, release) && IsLatest(others, directory, other)
    ensures release.version == other.version
  {
    var line :| line in lines && ReadTag(line) == Some(TagEntry(directory, release));
    assert line in Elements(lines);
    var otherLine :| otherLine in others && ReadTag(otherLine) == Some(TagEntry(directory, other));
    assert otherLine in Elements(others);
    assert Lists(others, directory, release) && Lists(lines, directory, other);
    OlderIsStrictTotalOrder(release.version, other.version, other.version);
  }

  // ----- The language tag that the catalog shows -----

  /** A completed tag of the component whose version is not above the declared one. */
  ghost predicate IsCandidateTag(tag: string, prefix: string, declared: string)
  {
    HasPrefix(tag, prefix) && IsVersion(tag[|prefix|..]) && !Older(declared, tag[|prefix|..])
  }

  /** The scan over completedLanguageTags, whose map order is arbitrary; the empty tag means none. */
  method SelectLanguageTag(completed: seq<string>, prefix: string, declared: string) returns (selected: string)
    requires IsVersion(declared) && prefix != ""
    requires forall tag ::
      tag in completed && HasPrefix(tag, prefix) && MatchVersion(tag[|prefix|..]).Some? ==> IsVersion(tag[|prefix|..])
    ensures selected == "" <==> forall tag :: tag in completed ==> !IsCandidateTag(tag, prefix, declared)
    ensures selected != "" ==> selected in completed && IsCandidateTag(selected, prefix, declared)
    ensures selected != "" ==>
      forall tag :: tag in completed && IsCandidateTag(tag, prefix, declared) && tag != selected ==>
      Older(tag[|prefix|..], selected[|prefix|..])
  {
    hide Older, IsVersion, MatchVersion;
    selected := "";
    for index := 0 to |completed|
      invariant selected == "" ==> forall tag :: tag in completed[..index] ==> !IsCandidateTag(tag, prefix, declared)
      invariant selected != "" ==> selected in completed && IsCandidateTag(selected, prefix, declared)
      invariant selected != "" ==>
        forall tag :: tag in completed[..index] && IsCandidateTag(tag, prefix, declared) && tag != selected ==>
        Older(tag[|prefix|..], selected[|prefix|..])
    {
      var tag := completed[index];
      assert completed[..index + 1] == completed[..index] + [tag];
      assert IsCandidateTag(tag, prefix, declared) ==> MatchVersion(tag[|prefix|..]).Some? by {
        if IsCandidateTag(tag, prefix, declared) {
          VersionMatches(tag[|prefix|..]);
        }
      }
      if !HasPrefix(tag, prefix) || MatchVersion(tag[|prefix|..]).None? {
        continue;
      }
      var version := tag[|prefix|..];
      var above := CompareConnectorVersions(version, declared);
      if above > 0 {
        continue;
      }
      assert tag == prefix + version;
      if selected == "" {
        selected := tag;
      } else {
        var current := selected[|prefix|..];
        assert selected == prefix + current;
        var comparison := CompareConnectorVersions(version, current);
        if comparison > 0 {
          forall other | other in completed[..index] && IsCandidateTag(other, prefix, declared)
            ensures Older(other[|prefix|..], version)
          {
            if other != selected {
              OlderIsStrictTotalOrder(other[|prefix|..], current, version);
            }
          }
          selected := tag;
        }
      }
    }
    assert completed[..|completed|] == completed;
  }
}
