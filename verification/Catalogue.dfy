/** Choosing a supported version: `GetSupportedVersions`, `RationalizeReleaseAndVersion` and
    `GetValidPatchVersion` of `pkg/agent/datamodel/versions.go`. */
module Catalogue {
  import opened Basics
  import opened Text
  import opened Semver
  import opened Versions

  /** One operating system's supported versions: for updates, for new clusters, and the release
      that the default version is the latest patch of. */
  datatype Supply = Supply(forUpdate: seq<string>, forCreate: seq<string>, defaultRelease: string)

  /** The lists come from one version table. */
  ghost predicate FromTable(s: Supply, table: map<string, bool>) {
    && ListsTable(s.forUpdate, table, true)
    && ListsTable(s.forCreate, table, false)
  }

  /** What is offered for new clusters can be updated to. */
  predicate Nested(s: Supply) {
    forall v | v in s.forCreate :: v in s.forUpdate
  }

  method MakeSupply(table: map<string, bool>, defaultRelease: string) returns (s: Supply)
    ensures FromTable(s, table) && s.defaultRelease == defaultRelease
  {
    var forUpdate := GetAllSupportedKubernetesVersions(table, true);
    var forCreate := GetAllSupportedKubernetesVersions(table, false);
    s := Supply(forUpdate, forCreate, defaultRelease);
  }

  /** `GetDefaultKubernetesVersion` */
  function DefaultVersion(s: Supply): string {
    LatestPatch(s.defaultRelease, s.forCreate)
  }

  /** The list of `GetSupportedVersions`; only Kubernetes has one. */
  function SupportedVersions(s: Supply, kubernetes: bool, isUpdate: bool): seq<string> {
    if !kubernetes then [] else if isUpdate then s.forUpdate else s.forCreate
  }

  /** `strings.TrimPrefix(s, "v")` */
  function TrimV(s: string): string {
    if s != "" && s[0] == 'v' then s[1..] else s
  }

  /** One leading "v" goes, and nothing else. */
  lemma TrimVIs(s: string)
    ensures TrimV("v" + s) == s
    ensures TrimV(s) == s <==> !("v" <= s)
  {
    assert ("v" + s)[1..] == s;
  }

  /** What `RationalizeReleaseAndVersion` computes. A Go list without elements is nil. */
  function Rationalized(s: Supply, kubernetes: bool, orchRel: string, orchVer: string, isUpdate: bool): string {
    var rel, ver := TrimV(orchRel), TrimV(orchVer);
    var supported := SupportedVersions(s, kubernetes, isUpdate);
    if supported == [] then ""
    else if rel == "" && ver == "" then DefaultVersion(s)
    else if ver == "" then LatestPatch(rel, supported)
    else if ver in supported && (rel == "" || Release(MakeOrZero(ver)) == rel) then ver
    else ""
  }

  /** The search loops: for the version alone, or also for its release. */
  method FindVersion(supportedVersions: seq<string>, orchRel: string, orchVer: string) returns (version: string)
    ensures version == if orchVer in supportedVersions && (orchRel == "" || Release(MakeOrZero(orchVer)) == orchRel)
                       then orchVer else ""
  {
    for i := 0 to |supportedVersions|
      invariant orchVer in supportedVersions[..i] ==> orchRel != "" && Release(MakeOrZero(orchVer)) != orchRel
    {
      if supportedVersions[i] == orchVer {
        var sr := Release(MakeOrZero(supportedVersions[i]));
        if orchRel == "" || sr == orchRel {
          return orchVer;
        }
      }
    }
    return "";
  }

  method RationalizeReleaseAndVersion(s: Supply, kubernetes: bool, orchRel: string, orchVer: string, isUpdate: bool)
    returns (version: string)
    ensures version == Rationalized(s, kubernetes, orchRel, orchVer, isUpdate)
  {
    var ver, rel := TrimV(orchVer), TrimV(orchRel);
    var supportedVersions := SupportedVersions(s, kubernetes, isUpdate);
    if |supportedVersions| == 0 {
      version := "";
    } else if rel == "" && ver == "" {
      version := GetLatestPatchVersion(s.defaultRelease, s.forCreate);
    } else if ver == "" {
      version := GetLatestPatchVersion(rel, supportedVersions);
    } else {
      version := FindVersion(supportedVersions, rel, ver);
    }
  }

  /** What `GetValidPatchVersion` computes. */
  function ValidPatch(s: Supply, kubernetes: bool, orchVer: string, isUpdate: bool): string {
    var version := Rationalized(s, kubernetes, "", orchVer, isUpdate);
    if orchVer == "" || version != "" then version
    else Fallback(s, kubernetes, Parse(orchVer), isUpdate)
  }

  function Fallback(s: Supply, kubernetes: bool, parsed: Option<Version>, isUpdate: bool): string {
    if parsed.None? then "" else Rationalized(s, kubernetes, Release(parsed.value), "", isUpdate)
  }

  /** `GetValidPatchVersion`: "" or a supported version; a supported one unchanged but for a
      leading "v"; for another version the greatest readable one of its major.minor. */
  method GetValidPatchVersion(s: Supply, kubernetes: bool, orchVer: string, isUpdate: bool) returns (version: string)
    ensures version == ValidPatch(s, kubernetes, orchVer, isUpdate)
    ensures Nested(s) ==> version == "" || version in SupportedVersions(s, kubernetes, isUpdate)
    ensures TrimV(orchVer) != "" && TrimV(orchVer) in SupportedVersions(s, kubernetes, isUpdate) ==> version == TrimV(orchVer)
    ensures Parse(orchVer).Some? && orchVer !in SupportedVersions(s, kubernetes, isUpdate) ==>
              IsGreatestPatch(orchVer, Readable(SupportedVersions(s, kubernetes, isUpdate)), version)
  {
    ValidPatchFacts(s, kubernetes, orchVer, isUpdate);
    if orchVer == "" {
      version := RationalizeReleaseAndVersion(s, kubernetes, "", "", isUpdate);
      return;
    }
    version := RationalizeReleaseAndVersion(s, kubernetes, "", orchVer, isUpdate);
    if version == "" {
      var sv := Parse(orchVer);
      if sv.None? {
        return "";
      }
      var sr := Release(sv.value);
      version := RationalizeReleaseAndVersion(s, kubernetes, sr, "", isUpdate);
    }
  }

  // ---------------------------------------------------------------------------------------
  // Properties
  // ---------------------------------------------------------------------------------------

  lemma CreateIsUpdatable(s: Supply, table: map<string, bool>)
    requires FromTable(s, table)
    ensures Nested(s)
  {}

  lemma LatestIsMember(release: string, list: seq<string>)
    ensures LatestPatch(release, list) == "" || LatestPatch(release, list) in Readable(list)
    ensures LatestPatch(release, list) == "" || LatestPatch(release, list) in list
  {
    ReadableIsPart(list);
    LatestPatchIsLatest(release, list);
  }

  /** The default is computed from the list for new clusters; it is in the update list too. */
  lemma DefaultIsSupported(s: Supply)
    requires Nested(s)
    ensures DefaultVersion(s) == "" || (DefaultVersion(s) in s.forCreate && DefaultVersion(s) in s.forUpdate)
  {
    LatestIsMember(s.defaultRelease, s.forCreate);
  }

  /** The default is the latest patch of the default release among the versions offered for new
      clusters, "" exactly when there is none. */
  lemma DefaultIsLatest(s: Supply)
    ensures IsLatest(s.defaultRelease, Readable(s.forCreate), DefaultVersion(s))
  {
    LatestPatchIsLatest(s.defaultRelease, s.forCreate);
  }

  /** With both a release and a version given, a version comes back exactly when it is supported
      and of that release; each may have a leading "v". */
  lemma BothGiven(s: Supply, kubernetes: bool, major: nat, minor: nat, ver: string, isUpdate: bool)
    requires Parse(ver).Some?
    ensures var rel := Decimal(major) + ['.'] + Decimal(minor);
            var r := Rationalized(s, kubernetes, rel, ver, isUpdate);
            && (r == ver || r == "")
            && (r == ver <==> ver in SupportedVersions(s, kubernetes, isUpdate)
                              && Parse(ver).value.major == major && Parse(ver).value.minor == minor)
            && Rationalized(s, kubernetes, "v" + rel, "v" + ver, isUpdate) == r
  {
    var asked := Version(major, minor, 0, [], []);
    VersionsStartWithDigit(ver);
    ReleaseIdentifies(Parse(ver).value, asked);
    SplitRelease(asked);
    ByReleaseAndVersion(s, kubernetes, Release(asked), ver, isUpdate);
  }

  lemma ByReleaseAndVersion(s: Supply, kubernetes: bool, rel: string, ver: string, isUpdate: bool)
    requires rel != "" && rel[0] != 'v' && ver != "" && ver[0] != 'v'
    ensures Rationalized(s, kubernetes, rel, ver, isUpdate) ==
            if ver in SupportedVersions(s, kubernetes, isUpdate) && Release(MakeOrZero(ver)) == rel then ver else ""
    ensures Rationalized(s, kubernetes, "v" + rel, "v" + ver, isUpdate) == Rationalized(s, kubernetes, rel, ver, isUpdate)
  {
    assert ("v" + rel)[1..] == rel && ("v" + ver)[1..] == ver;
  }

  lemma RationalizedIsSupported(s: Supply, kubernetes: bool, rel: string, ver: string, isUpdate: bool)
    requires Nested(s)
    ensures var r := Rationalized(s, kubernetes, rel, ver, isUpdate);
            r == "" || r in SupportedVersions(s, kubernetes, isUpdate)
  {
    DefaultIsSupported(s);
    LatestIsMember(TrimV(rel), SupportedVersions(s, kubernetes, isUpdate));
  }

  /** The result is always "" or a supported version. */
  lemma ValidPatchIsSupported(s: Supply, kubernetes: bool, orchVer: string, isUpdate: bool)
    requires Nested(s)
    ensures var r := ValidPatch(s, kubernetes, orchVer, isUpdate);
            r == "" || r in SupportedVersions(s, kubernetes, isUpdate)
  {
    RationalizedIsSupported(s, kubernetes, "", orchVer, isUpdate);
    if Parse(orchVer).Some? {
      RationalizedIsSupported(s, kubernetes, Release(Parse(orchVer).value), "", isUpdate);
    }
  }

  /** A supported version is returned unchanged, with one leading "v" dropped. */
  lemma SupportedIsKept(s: Supply, kubernetes: bool, orchVer: string, isUpdate: bool)
    requires TrimV(orchVer) != "" && TrimV(orchVer) in SupportedVersions(s, kubernetes, isUpdate)
    ensures ValidPatch(s, kubernetes, orchVer, isUpdate) == TrimV(orchVer)
  {}

  ghost predicate SameRelease(a: string, b: string) {
    Parse(a).Some? && Parse(b).Some? &&
    Parse(a).value.major == Parse(b).value.major && Parse(a).value.minor == Parse(b).value.minor
  }

  lemma InReleaseIsSameRelease(v: string, orchVer: string)
    requires Parse(orchVer).Some?
    ensures InRelease(v, Release(Parse(orchVer).value)) <==> SameRelease(v, orchVer)
  {
    if Parse(v).Some? {
      ReleaseIdentifies(Parse(v).value, Parse(orchVer).value);
    }
  }

  /** The greatest version with the same major.minor, or "" if there is none. */
  ghost predicate IsGreatestPatch(orchVer: string, readable: seq<string>, r: string) {
    if r == "" then forall v | v in readable :: !SameRelease(v, orchVer)
    else r in readable && SameRelease(r, orchVer)
         && forall v | v in readable && SameRelease(v, orchVer) :: NotLater(v, r)
  }

  lemma FallbackIsLatest(s: Supply, kubernetes: bool, orchVer: string, isUpdate: bool)
    requires Parse(orchVer).Some? && orchVer !in SupportedVersions(s, kubernetes, isUpdate)
    ensures var supported := SupportedVersions(s, kubernetes, isUpdate);
            ValidPatch(s, kubernetes, orchVer, isUpdate) == LatestPatch(Release(Parse(orchVer).value), supported)
  {
    VersionsStartWithDigit(orchVer);
    NotFound(s, kubernetes, orchVer, isUpdate);
    FallbackByRelease(s, kubernetes, Parse(orchVer).value, isUpdate);
  }

  lemma NotFound(s: Supply, kubernetes: bool, orchVer: string, isUpdate: bool)
    requires TrimV(orchVer) != "" && TrimV(orchVer) !in SupportedVersions(s, kubernetes, isUpdate)
    ensures Rationalized(s, kubernetes, "", orchVer, isUpdate) == ""
  {}

  lemma FallbackByRelease(s: Supply, kubernetes: bool, sv: Version, isUpdate: bool)
    ensures Rationalized(s, kubernetes, Release(sv), "", isUpdate)
         == LatestPatch(Release(sv), SupportedVersions(s, kubernetes, isUpdate))
  {
    SplitRelease(sv);
  }

  /** Any other version is replaced by the greatest supported one of its major.minor, and by ""
      exactly when there is none, among the supported versions before the first unreadable one. */
  lemma FallbackIsGreatestPatch(s: Supply, kubernetes: bool, orchVer: string, isUpdate: bool)
    requires Parse(orchVer).Some? && orchVer !in SupportedVersions(s, kubernetes, isUpdate)
    ensures IsGreatestPatch(orchVer, Readable(SupportedVersions(s, kubernetes, isUpdate)),
                            ValidPatch(s, kubernetes, orchVer, isUpdate))
  {
    var readable := Readable(SupportedVersions(s, kubernetes, isUpdate));
    var release := Release(Parse(orchVer).value);
    FallbackIsLatest(s, kubernetes, orchVer, isUpdate);
    LatestPatchIsLatest(release, SupportedVersions(s, kubernetes, isUpdate));
    forall v | v in readable ensures InRelease(v, release) <==> SameRelease(v, orchVer) {
      InReleaseIsSameRelease(v, orchVer);
    }
  }

  /** What cannot be read as a version gives "", but for a supported version behind a "v", and for
      "" and "v", which give the default. */
  lemma UnreadableGivesNothing(s: Supply, kubernetes: bool, orchVer: string, isUpdate: bool)
    requires Parse(orchVer).None?
    ensures var supported := SupportedVersions(s, kubernetes, isUpdate);
            ValidPatch(s, kubernetes, orchVer, isUpdate) ==
            if TrimV(orchVer) == "" then (if supported == [] then "" else DefaultVersion(s))
            else if TrimV(orchVer) in supported then TrimV(orchVer) else ""
  {
    if TrimV(orchVer) != "" && TrimV(orchVer) !in SupportedVersions(s, kubernetes, isUpdate) {
      NotFound(s, kubernetes, orchVer, isUpdate);
    }
  }

  lemma ValidPatchFacts(s: Supply, kubernetes: bool, orchVer: string, isUpdate: bool)
    ensures var r, supported := ValidPatch(s, kubernetes, orchVer, isUpdate), SupportedVersions(s, kubernetes, isUpdate);
            && (Nested(s) ==> r == "" || r in supported)
            && (TrimV(orchVer) != "" && TrimV(orchVer) in supported ==> r == TrimV(orchVer))
            && (Parse(orchVer).Some? && orchVer !in supported ==> IsGreatestPatch(orchVer, Readable(supported), r))
  {
    var supported := SupportedVersions(s, kubernetes, isUpdate);
    if Nested(s) {
      ValidPatchIsSupported(s, kubernetes, orchVer, isUpdate);
    }
    if TrimV(orchVer) != "" && TrimV(orchVer) in supported {
      SupportedIsKept(s, kubernetes, orchVer, isUpdate);
    }
    if Parse(orchVer).Some? && orchVer !in supported {
      FallbackIsGreatestPatch(s, kubernetes, orchVer, isUpdate);
    }
  }

  /** A result is stable, so that asking again gives the same version, exactly when it does not
      start with "v"; no version that can be read does. */
  lemma ValidPatchIsIdempotentIff(s: Supply, kubernetes: bool, orchVer: string, isUpdate: bool)
    requires Nested(s)
    ensures var r := ValidPatch(s, kubernetes, orchVer, isUpdate);
            r != "" ==> (ValidPatch(s, kubernetes, r, isUpdate) == r <==> r[0] != 'v')
    ensures var r := ValidPatch(s, kubernetes, orchVer, isUpdate);
            r != "" && AllParse(SupportedVersions(s, kubernetes, isUpdate)) ==> r[0] != 'v'
  {
    var r := ValidPatch(s, kubernetes, orchVer, isUpdate);
    if r != "" {
      ValidPatchIsSupported(s, kubernetes, orchVer, isUpdate);
      if r[0] != 'v' {
        SupportedIsKept(s, kubernetes, r, isUpdate);
      } else {
        VersionsBehindV(s, kubernetes, r, isUpdate);
      }
      if Parse(r).Some? {
        VersionsStartWithDigit(r);
      }
    }
  }

  lemma VersionsBehindV(s: Supply, kubernetes: bool, r: string, isUpdate: bool)
    requires r != "" && r[0] == 'v'
    ensures ValidPatch(s, kubernetes, r, isUpdate) != r
  {
    NoVersionStartsWithV(r);
    UnreadableGivesNothing(s, kubernetes, r, isUpdate);
    LatestIsMember(s.defaultRelease, s.forCreate);
    ReadableIsPart(s.forCreate);
  }

  lemma NoVersionStartsWithV(r: string)
    requires r != "" && r[0] == 'v'
    ensures Parse(r).None?
  {
    if Parse(r).Some? {
      VersionsStartWithDigit(r);
      assert false;
    }
  }

  /** The comment in `RationalizeReleaseAndVersion` calls a leading "v" equivalent to none. For
      `GetValidPatchVersion` it is exactly when the version is supported as it is, or there is
      nothing to fall back to: with the "v", an unsupported patch has no fallback. */
  lemma LeadingVIsIgnoredIff(s: Supply, kubernetes: bool, orchVer: string, isUpdate: bool)
    requires TrimV(orchVer) == orchVer
    ensures ValidPatch(s, kubernetes, "v" + orchVer, isUpdate) == ValidPatch(s, kubernetes, orchVer, isUpdate) <==>
            var supported := SupportedVersions(s, kubernetes, isUpdate);
            orchVer == "" || orchVer in supported || forall v | v in Readable(supported) :: !SameRelease(v, orchVer)
  {
    WithV(s, kubernetes, orchVer, isUpdate);
    if orchVer != "" && orchVer !in SupportedVersions(s, kubernetes, isUpdate) {
      NoFallbackIff(s, kubernetes, orchVer, isUpdate);
    }
  }

  lemma NoFallbackIff(s: Supply, kubernetes: bool, orchVer: string, isUpdate: bool)
    requires TrimV(orchVer) == orchVer
    requires orchVer != "" && orchVer !in SupportedVersions(s, kubernetes, isUpdate)
    ensures ValidPatch(s, kubernetes, orchVer, isUpdate) == "" <==>
            forall v | v in Readable(SupportedVersions(s, kubernetes, isUpdate)) :: !SameRelease(v, orchVer)
  {
    if Parse(orchVer).Some? {
      FallbackIsGreatestPatch(s, kubernetes, orchVer, isUpdate);
    } else {
      UnreadableGivesNothing(s, kubernetes, orchVer, isUpdate);
    }
  }

  /** With a leading "v" only an exact match counts. */
  lemma WithV(s: Supply, kubernetes: bool, orchVer: string, isUpdate: bool)
    requires TrimV(orchVer) == orchVer
    ensures ValidPatch(s, kubernetes, "v" + orchVer, isUpdate) ==
            if orchVer == "" then ValidPatch(s, kubernetes, "", isUpdate)
            else if orchVer in SupportedVersions(s, kubernetes, isUpdate) then orchVer else ""
  {
    var withV := "v" + orchVer;
    assert TrimV(withV) == orchVer;
    NoVersionStartsWithV(withV);
  }
}
