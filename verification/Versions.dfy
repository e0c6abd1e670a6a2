/** The version catalogue of `pkg/agent/datamodel/versions.go`. The version tables are
    parameters; versions are strings, and one that does not parse compares as 0.0.0. */
module Versions {
  import opened Basics
  import opened Semver
  import opened Sorting

  /** `IsKubernetesVersionGe` */
  predicate IsKubernetesVersionGe(actualVersion: string, version: string) {
    Compare(MakeOrZero(actualVersion), MakeOrZero(version)) >= 0
  }

  /** The comparator that `sort.Slice` is given: not later than. */
  predicate NotLater(a: string, b: string) {
    IsKubernetesVersionGe(b, a)
  }

  lemma NotLaterIsTotal()
    ensures TotalPreorder(NotLater)
  {
    forall a: string, b: string ensures NotLater(a, b) || NotLater(b, a) {
      CompareIsPrecedence(MakeOrZero(a), MakeOrZero(b));
    }
    forall a: string, b: string, c: string | NotLater(a, b) && NotLater(b, c) ensures NotLater(a, c) {
      CompareIsPrecedence(MakeOrZero(a), MakeOrZero(b));
      CompareIsPrecedence(MakeOrZero(b), MakeOrZero(c));
      CompareIsPrecedence(MakeOrZero(a), MakeOrZero(c));
      CompareIsTotalPreorder(MakeOrZero(a), MakeOrZero(b), MakeOrZero(c));
    }
  }

  // ---------------------------------------------------------------------------------------
  // The supported list
  // ---------------------------------------------------------------------------------------

  /** The list holds exactly the selected versions of the table, each once. */
  ghost predicate ListsTable(versions: seq<string>, table: map<string, bool>, isUpdate: bool) {
    && NoDuplicates(versions)
    && forall v :: v in versions <==> v in table && (isUpdate || table[v])
  }

  /** No two versions of the list have the same precedence. */
  ghost predicate PrecedenceDistinct(versions: seq<string>) {
    TieFree(versions, NotLater)
  }

  method SelectVersions(allSupportedVersions: map<string, bool>, isUpdate: bool) returns (versions: seq<string>)
    ensures ListsTable(versions, allSupportedVersions, isUpdate)
  {
    versions := [];
    var todo := allSupportedVersions.Keys;
    while todo != {}
      invariant todo <= allSupportedVersions.Keys && NoDuplicates(versions)
      invariant forall v :: v in versions <==> v in allSupportedVersions && v !in todo && (isUpdate || allSupportedVersions[v])
    {
      var ver :| ver in todo;
      todo := todo - {ver};
      if isUpdate || allSupportedVersions[ver] {
        versions := versions + [ver];
      }
    }
  }

  /** `GetAllSupportedKubernetesVersions` for one table: the selected versions, ascending when no
      two tie. (With ties the comparator is no strict order, and Go promises no arrangement.) */
  method GetAllSupportedKubernetesVersions(allSupportedVersions: map<string, bool>, isUpdate: bool)
    returns (versions: seq<string>)
    ensures ListsTable(versions, allSupportedVersions, isUpdate)
    ensures PrecedenceDistinct(versions) ==> SortedBy(versions, NotLater)
  {
    var selected := SelectVersions(allSupportedVersions, isUpdate);
    versions := Sort(selected, NotLater);
    NotLaterIsTotal();
    SortSorted(selected, NotLater);
    PermutationKeepsListing(selected, versions);
  }

  /** When no two selected versions tie, the ascending list is the only one, so that the result
      depends neither on Go's map order nor on how `sort.Slice` sorts. */
  lemma SupportedListIsUnique(a: seq<string>, b: seq<string>, table: map<string, bool>, isUpdate: bool)
    requires ListsTable(a, table, isUpdate) && ListsTable(b, table, isUpdate)
    requires SortedBy(a, NotLater) && SortedBy(b, NotLater) && PrecedenceDistinct(a)
    ensures a == b
  {
    forall v ensures multiset(a)[v] == multiset(b)[v] {
      CountsOnce(a, v);
      CountsOnce(b, v);
    }
    NotLaterIsTotal();
    SortedUnique(a, b, NotLater);
  }

  // ---------------------------------------------------------------------------------------
  // Ranges
  // ---------------------------------------------------------------------------------------

  function Filter(vs: seq<string>, keep: string -> bool): seq<string> {
    if vs == [] then []
    else
      var front := Filter(vs[..|vs| - 1], keep);
      if keep(vs[|vs| - 1]) then front + [vs[|vs| - 1]] else front
  }

  predicate IsPreRelease(v: string) {
    MakeOrZero(v).pre != []
  }

  /** Later than the bound by the rules of precedence, or not earlier if it is inclusive. */
  predicate IsAbove(v: string, bound: string, inclusive: bool, preReleases: bool) {
    (preReleases || !IsPreRelease(v)) &&
    if inclusive then !Precedes(MakeOrZero(v), MakeOrZero(bound)) else Precedes(MakeOrZero(bound), MakeOrZero(v))
  }

  /** Earlier than the bound, or not later if it is inclusive. */
  predicate IsBelow(v: string, bound: string, inclusive: bool, preReleases: bool) {
    (preReleases || !IsPreRelease(v)) &&
    if inclusive then !Precedes(MakeOrZero(bound), MakeOrZero(v)) else Precedes(MakeOrZero(v), MakeOrZero(bound))
  }

  function Above(bound: string, inclusive: bool, preReleases: bool): string -> bool {
    v => IsAbove(v, bound, inclusive, preReleases)
  }

  function Below(bound: string, inclusive: bool, preReleases: bool): string -> bool {
    v => IsBelow(v, bound, inclusive, preReleases)
  }

  method GetVersionsGt(versions: seq<string>, version: string, inclusive: bool, preReleases: bool) returns (ret: seq<string>)
    ensures ret == Filter(versions, Above(version, inclusive, preReleases))
  {
    ret := [];
    var minVersion := MakeOrZero(version);
    for i := 0 to |versions|
      invariant ret == Filter(versions[..i], Above(version, inclusive, preReleases))
    {
      assert versions[..i + 1][..i] == versions[..i];
      var sv := MakeOrZero(versions[i]);
      CompareIsPrecedence(sv, minVersion);
      if !preReleases && |sv.pre| != 0 {
        continue;
      }
      if (inclusive && Compare(sv, minVersion) >= 0) || (!inclusive && Compare(sv, minVersion) == 1) {
        ret := ret + [versions[i]];
      }
    }
    assert versions[..|versions|] == versions;
  }

  method GetVersionsLt(versions: seq<string>, version: string, inclusive: bool, preReleases: bool) returns (ret: seq<string>)
    ensures ret == Filter(versions, Below(version, inclusive, preReleases))
  {
    ret := [];
    var minVersion := MakeOrZero(version);
    for i := 0 to |versions|
      invariant ret == Filter(versions[..i], Below(version, inclusive, preReleases))
    {
      assert versions[..i + 1][..i] == versions[..i];
      var sv := MakeOrZero(versions[i]);
      CompareIsPrecedence(sv, minVersion);
      if !preReleases && |sv.pre| != 0 {
        continue;
      }
      if (inclusive && Compare(sv, minVersion) <= 0) || (!inclusive && Compare(sv, minVersion) == -1) {
        ret := ret + [versions[i]];
      }
    }
    assert versions[..|versions|] == versions;
  }

  /** How often a version occurs. */
  function Count(vs: seq<string>, v: string): nat {
    multiset(vs)[v]
  }

  lemma {:induction false} FilterCount(vs: seq<string>, keep: string -> bool, v: string)
    ensures Count(Filter(vs, keep), v) == if keep(v) then Count(vs, v) else 0
  {
    if vs != [] {
      var front, last := vs[..|vs| - 1], vs[|vs| - 1];
      assert vs == front + [last];
      FilterCount(front, keep, v);
    }
  }

  /** With pre-releases on, exclusive above and inclusive below the same bound split the list. */
  lemma GtAndLtSplitTheList(versions: seq<string>, bound: string)
    ensures var above, below := Filter(versions, Above(bound, false, true)), Filter(versions, Below(bound, true, true));
            multiset(above) + multiset(below) == multiset(versions) && multiset(above) !! multiset(below)
  {
    var above, below := Filter(versions, Above(bound, false, true)), Filter(versions, Below(bound, true, true));
    forall v
      ensures multiset(above)[v] + multiset(below)[v] == multiset(versions)[v]
      ensures multiset(above)[v] == 0 || multiset(below)[v] == 0
    {
      FilterCount(versions, Above(bound, false, true), v);
      FilterCount(versions, Below(bound, true, true), v);
      CompareIsPrecedence(MakeOrZero(v), MakeOrZero(bound));
    }
  }

  /** And so do inclusive above and exclusive below. */
  lemma GeAndLessSplitTheList(versions: seq<string>, bound: string)
    ensures var above, below := Filter(versions, Above(bound, true, true)), Filter(versions, Below(bound, false, true));
            multiset(above) + multiset(below) == multiset(versions) && multiset(above) !! multiset(below)
  {
    var above, below := Filter(versions, Above(bound, true, true)), Filter(versions, Below(bound, false, true));
    forall v
      ensures multiset(above)[v] + multiset(below)[v] == multiset(versions)[v]
      ensures multiset(above)[v] == 0 || multiset(below)[v] == 0
    {
      FilterCount(versions, Above(bound, true, true), v);
      FilterCount(versions, Below(bound, false, true), v);
    }
  }

  /** The bound itself is in exactly if it is inclusive, and what is exclusively above or below is
      so inclusively. */
  lemma InclusiveAddsTies(v: string, bound: string, preReleases: bool)
    ensures preReleases || !IsPreRelease(bound) ==>
              IsAbove(bound, bound, true, preReleases) && IsBelow(bound, bound, true, preReleases)
    ensures !IsAbove(bound, bound, false, preReleases) && !IsBelow(bound, bound, false, preReleases)
    ensures IsAbove(v, bound, true, preReleases) <==>
            IsAbove(v, bound, false, preReleases)
            || ((preReleases || !IsPreRelease(v)) && Compare(MakeOrZero(v), MakeOrZero(bound)) == 0)
    ensures IsBelow(v, bound, true, preReleases) <==>
            IsBelow(v, bound, false, preReleases)
            || ((preReleases || !IsPreRelease(v)) && Compare(MakeOrZero(v), MakeOrZero(bound)) == 0)
  {
    CompareIsPrecedence(MakeOrZero(v), MakeOrZero(bound));
    CompareIsPrecedence(MakeOrZero(bound), MakeOrZero(bound));
  }

  lemma {:induction false} FilterTwice(vs: seq<string>, first: string -> bool, second: string -> bool, both: string -> bool)
    requires forall v :: both(v) <==> first(v) && second(v)
    ensures Filter(vs, both) == Filter(Filter(vs, first), second)
  {
    if vs != [] {
      var front, last := vs[..|vs| - 1], vs[|vs| - 1];
      FilterTwice(front, first, second, both);
      if first(last) {
        var kept := Filter(front, first);
        assert (kept + [last])[..|kept|] == kept;
      }
    }
  }

  /** Switching pre-releases off takes away the pre-releases and nothing else. */
  lemma WithoutPreReleases(versions: seq<string>, bound: string, inclusive: bool)
    ensures Filter(versions, Above(bound, inclusive, false))
         == Filter(Filter(versions, Above(bound, inclusive, true)), v => !IsPreRelease(v))
    ensures Filter(versions, Below(bound, inclusive, false))
         == Filter(Filter(versions, Below(bound, inclusive, true)), v => !IsPreRelease(v))
  {
    FilterTwice(versions, Above(bound, inclusive, true), v => !IsPreRelease(v), Above(bound, inclusive, false));
    FilterTwice(versions, Below(bound, inclusive, true), v => !IsPreRelease(v), Below(bound, inclusive, false));
  }

  /** The copies of one version in a list. */
  function Copies(gs: seq<string>, v: string): seq<string> {
    if gs == [] then []
    else
      var front := Copies(gs[..|gs| - 1], v);
      if gs[|gs| - 1] == v then front + [v] else front
  }

  /** The nested loops: for every version below, the equal ones above. */
  function Matches(lessThan: seq<string>, greaterThan: seq<string>): seq<string> {
    if lessThan == [] then []
    else Matches(lessThan[..|lessThan| - 1], greaterThan) + Copies(greaterThan, lessThan[|lessThan| - 1])
  }

  lemma {:induction false} CopiesCount(gs: seq<string>, lv: string, v: string)
    ensures Count(Copies(gs, lv), v) == if v == lv then Count(gs, v) else 0
  {
    if gs != [] {
      var front, last := gs[..|gs| - 1], gs[|gs| - 1];
      assert gs == front + [last];
      CopiesCount(front, lv, v);
    }
  }

  lemma {:induction false} MatchesCount(ls: seq<string>, gs: seq<string>, v: string, k: nat, n: nat)
    requires Count(ls, v) == k && Count(gs, v) == n
    ensures Count(Matches(ls, gs), v) == k * n
  {
    if ls == [] {
      TimesStep(0, n);
    } else {
      var front, last := ls[..|ls| - 1], ls[|ls| - 1];
      assert ls == front + [last];
      CopiesCount(gs, last, v);
      if last == v {
        MatchesCount(front, gs, v, k - 1, n);
        TimesStep(k - 1, n);
      } else {
        MatchesCount(front, gs, v, k, n);
      }
    }
  }

  lemma TimesStep(k: nat, n: nat)
    ensures (k + 1) * n == k * n + n && 0 * n == 0 && k * 0 == 0
  {}

  /** Within both bounds, as `GetVersionsBetween` takes them: a pre-release as lower bound admits
      pre-releases. */
  predicate IsBetween(v: string, versionMin: string, versionMax: string, inclusive: bool, preReleases: bool) {
    var pre := preReleases || MakeOrZero(versionMin).pre != [];
    IsAbove(v, versionMin, inclusive, pre) && IsBelow(v, versionMax, inclusive, pre)
  }

  /** What the range is, by precedence: a pre-release as the lower bound, but not as the upper,
      admits pre-releases, and the lower bound itself to begin with. */
  lemma RangeIs(v: string, versionMin: string, versionMax: string, preReleases: bool)
    ensures IsBetween(v, versionMin, versionMax, true, preReleases) <==>
            (preReleases || IsPreRelease(versionMin) || !IsPreRelease(v))
            && Compare(MakeOrZero(versionMin), MakeOrZero(v)) <= 0 && Compare(MakeOrZero(v), MakeOrZero(versionMax)) <= 0
    ensures IsBetween(v, versionMin, versionMax, false, preReleases) <==>
            (preReleases || IsPreRelease(versionMin) || !IsPreRelease(v))
            && Compare(MakeOrZero(versionMin), MakeOrZero(v)) < 0 && Compare(MakeOrZero(v), MakeOrZero(versionMax)) < 0
    ensures IsBetween(versionMin, versionMin, versionMax, true, preReleases) <==>
            !Precedes(MakeOrZero(versionMax), MakeOrZero(versionMin))
  {
    CompareIsPrecedence(MakeOrZero(v), MakeOrZero(versionMin));
    CompareIsPrecedence(MakeOrZero(v), MakeOrZero(versionMax));
    CompareIsPrecedence(MakeOrZero(versionMin), MakeOrZero(versionMin));
  }

  function Between(versionMin: string, versionMax: string, inclusive: bool, preReleases: bool): string -> bool {
    v => IsBetween(v, versionMin, versionMax, inclusive, preReleases)
  }

  /** A version that occurs k times in the list and lies in the range is returned k * k times. On
      a list without duplicates this is the range filter, in order. */
  method GetVersionsBetween(versions: seq<string>, versionMin: string, versionMax: string, inclusive: bool, preReleases: bool)
    returns (ret: seq<string>)
    ensures forall v :: Count(ret, v) ==
                        if IsBetween(v, versionMin, versionMax, inclusive, preReleases)
                        then Count(versions, v) * Count(versions, v) else 0
    ensures NoDuplicates(versions) ==> ret == Filter(versions, Between(versionMin, versionMax, inclusive, preReleases))
  {
    var pre := preReleases;
    if |MakeOrZero(versionMin).pre| != 0 {
      pre := true;
    }
    var greaterThan := GetVersionsGt(versions, versionMin, inclusive, pre);
    var lessThan := GetVersionsLt(versions, versionMax, inclusive, pre);
    ret := MatchLoops(lessThan, greaterThan);
    BetweenIsBoth(versionMin, versionMax, inclusive, preReleases);
    MatchedFilters(versions, Below(versionMax, inclusive, pre), Above(versionMin, inclusive, pre),
                   Between(versionMin, versionMax, inclusive, preReleases));
  }

  lemma BetweenIsBoth(versionMin: string, versionMax: string, inclusive: bool, preReleases: bool)
    ensures var pre := preReleases || MakeOrZero(versionMin).pre != [];
            forall v :: Between(versionMin, versionMax, inclusive, preReleases)(v)
                        <==> Below(versionMax, inclusive, pre)(v) && Above(versionMin, inclusive, pre)(v)
  {}

  lemma MatchedFilters(versions: seq<string>, below: string -> bool, above: string -> bool, both: string -> bool)
    requires forall v :: both(v) <==> below(v) && above(v)
    ensures var ret := Matches(Filter(versions, below), Filter(versions, above));
            && (forall v :: Count(ret, v) == if both(v) then Count(versions, v) * Count(versions, v) else 0)
            && (NoDuplicates(versions) ==> ret == Filter(versions, both))
  {
    forall v {
      MatchedCount(versions, below, above, v);
    }
    if NoDuplicates(versions) {
      MatchesOfFilters(versions, versions, below, above, both);
    }
  }

  lemma MatchedCount(versions: seq<string>, below: string -> bool, above: string -> bool, v: string)
    ensures Count(Matches(Filter(versions, below), Filter(versions, above)), v) ==
            if below(v) && above(v) then Count(versions, v) * Count(versions, v) else 0
  {
    var ls, gs := Filter(versions, below), Filter(versions, above);
    FilterCount(versions, below, v);
    FilterCount(versions, above, v);
    MatchesCount(ls, gs, v, Count(ls, v), Count(gs, v));
    TimesStep(Count(ls, v), Count(gs, v));
  }

  method MatchLoops(lessThan: seq<string>, greaterThan: seq<string>) returns (ret: seq<string>)
    ensures ret == Matches(lessThan, greaterThan)
  {
    ret := [];
    for i := 0 to |lessThan|
      invariant ret == Matches(lessThan[..i], greaterThan)
    {
      assert lessThan[..i + 1][..i] == lessThan[..i];
      var lv := lessThan[i];
      for j := 0 to |greaterThan|
        invariant ret == Matches(lessThan[..i], greaterThan) + Copies(greaterThan[..j], lv)
      {
        assert greaterThan[..j + 1][..j] == greaterThan[..j];
        if lv == greaterThan[j] {
          ret := ret + [lv];
        }
      }
      assert greaterThan[..|greaterThan|] == greaterThan;
    }
    assert lessThan[..|lessThan|] == lessThan;
  }

  lemma CopiesSnoc(gs: seq<string>, g: string, v: string)
    ensures Copies(gs + [g], v) == if g == v then Copies(gs, v) + [v] else Copies(gs, v)
  {
    assert (gs + [g])[..|gs|] == gs;
  }

  lemma MatchesSnoc(ls: seq<string>, l: string, gs: seq<string>)
    ensures Matches(ls + [l], gs) == Matches(ls, gs) + Copies(gs, l)
  {
    assert (ls + [l])[..|ls|] == ls;
  }

  lemma {:induction false} CopiesOfFilter(gs: seq<string>, keep: string -> bool, lv: string)
    requires NoDuplicates(gs)
    ensures Copies(Filter(gs, keep), lv) == if lv in gs && keep(lv) then [lv] else []
  {
    if gs != [] {
      var n := |gs| - 1;
      assert gs == gs[..n] + [gs[n]];
      assert lv in gs <==> lv in gs[..n] || lv == gs[n];
      CopiesOfFilter(gs[..n], keep, lv);
      if keep(gs[n]) {
        CopiesSnoc(Filter(gs[..n], keep), gs[n], lv);
      }
    }
  }

  lemma {:induction false} MatchesOfFilters(
      ls: seq<string>, gs: seq<string>, below: string -> bool, above: string -> bool, both: string -> bool)
    requires NoDuplicates(gs) && forall v :: both(v) <==> below(v) && above(v)
    requires forall v | v in ls :: v in gs
    ensures Matches(Filter(ls, below), Filter(gs, above)) == Filter(ls, both)
  {
    if ls != [] {
      var n := |ls| - 1;
      assert ls[n] in ls;
      forall v | v in ls[..n] ensures v in gs {
        assert v in ls;
      }
      MatchesOfFilters(ls[..n], gs, below, above, both);
      if below(ls[n]) {
        MatchesSnoc(Filter(ls[..n], below), ls[n], Filter(gs, above));
        CopiesOfFilter(gs, above, ls[n]);
      }
    }
  }

  // ---------------------------------------------------------------------------------------
  // The latest patch
  // ---------------------------------------------------------------------------------------

  predicate InRelease(ver: string, majorMinor: string) {
    Parse(ver).Some? && Release(Parse(ver).value) == majorMinor
  }

  /** The versions before the first that does not parse. */
  function Readable(list: seq<string>): seq<string> {
    if list == [] || Parse(list[0]).None? then [] else [list[0]] + Readable(list[1..])
  }

  /** The version of the release that no other readable one of it exceeds, or "". */
  ghost predicate IsLatest(majorMinor: string, readable: seq<string>, version: string) {
    if version == "" then forall v | v in readable :: !InRelease(v, majorMinor)
    else version in readable && InRelease(version, majorMinor)
         && forall v | v in readable && InRelease(v, majorMinor) :: NotLater(v, version)
  }

  function LatestFrom(majorMinor: string, list: seq<string>, best: string): string
    decreases |list|
  {
    if list == [] || Parse(list[0]).None? then best
    else
      var sv := Parse(list[0]).value;
      if Release(sv) == majorMinor && (best == "" || Compare(sv, MakeOrZero(best)) == 1)
      then LatestFrom(majorMinor, list[1..], list[0])
      else LatestFrom(majorMinor, list[1..], best)
  }

  function LatestPatch(majorMinor: string, versionsList: seq<string>): string {
    LatestFrom(majorMinor, versionsList, "")
  }

  /** `GetLatestPatchVersion`; it stops at the first version that does not parse. */
  method GetLatestPatchVersion(majorMinor: string, versionsList: seq<string>) returns (version: string)
    ensures version == LatestPatch(majorMinor, versionsList)
  {
    version := "";
    for i := 0 to |versionsList|
      invariant LatestFrom(majorMinor, versionsList[i..], version) == LatestPatch(majorMinor, versionsList)
    {
      var ver := versionsList[i];
      assert versionsList[i..][0] == ver && versionsList[i..][1..] == versionsList[i + 1..];
      if Parse(ver).None? {
        return;
      }
      var sv := Parse(ver).value;
      var sr := Release(sv);
      if sr == majorMinor {
        if version == "" {
          version := ver;
        } else {
          var current := MakeOrZero(version);
          if Compare(sv, current) == 1 {
            version := ver;
          }
        }
      }
    }
  }

  lemma NotLaterTransitive(a: string, b: string, c: string)
    requires NotLater(a, b) && NotLater(b, c)
    ensures NotLater(a, c)
  {
    NotLaterIsTotal();
  }

  /** One more version keeps the running best the latest. */
  lemma OneMoreVersion(majorMinor: string, seen: seq<string>, ver: string, best: string)
    requires IsLatest(majorMinor, seen, best) && Parse(ver).Some?
    ensures var better := InRelease(ver, majorMinor) && (best == "" || Compare(MakeOrZero(ver), MakeOrZero(best)) == 1);
            IsLatest(majorMinor, seen + [ver], if better then ver else best)
  {
    VersionsStartWithDigit(ver);
    CompareIsPrecedence(MakeOrZero(ver), MakeOrZero(best));
    CompareIsPrecedence(MakeOrZero(ver), MakeOrZero(ver));
    assert forall v | v in seen + [ver] :: v in seen || v == ver;
    if InRelease(ver, majorMinor) && best != "" {
      forall v | v in seen && InRelease(v, majorMinor) && NotLater(best, ver) ensures NotLater(v, ver) {
        NotLaterTransitive(v, best, ver);
      }
    }
  }

  lemma {:induction false} LatestFromIsLatest(majorMinor: string, seen: seq<string>, list: seq<string>, best: string)
    requires IsLatest(majorMinor, seen, best)
    ensures IsLatest(majorMinor, seen + Readable(list), LatestFrom(majorMinor, list, best))
    decreases |list|
  {
    if list == [] || Parse(list[0]).None? {
      assert seen + Readable(list) == seen;
    } else {
      var ver := list[0];
      OneMoreVersion(majorMinor, seen, ver, best);
      var better := InRelease(ver, majorMinor) && (best == "" || Compare(MakeOrZero(ver), MakeOrZero(best)) == 1);
      assert seen + Readable(list) == seen + [ver] + Readable(list[1..]);
      LatestFromIsLatest(majorMinor, seen + [ver], list[1..], if better then ver else best);
    }
  }

  /** The result is the greatest version of the release among the readable ones, or "" exactly
      when there is none. */
  lemma LatestPatchIsLatest(majorMinor: string, list: seq<string>)
    ensures IsLatest(majorMinor, Readable(list), LatestPatch(majorMinor, list))
  {
    LatestFromIsLatest(majorMinor, [], list, "");
    assert [] + Readable(list) == Readable(list);
  }

  ghost predicate AllParse(list: seq<string>) {
    forall v | v in list :: Parse(v).Some?
  }

  lemma {:induction false} AllReadable(list: seq<string>)
    requires AllParse(list)
    ensures Readable(list) == list
  {
    if list != [] {
      assert list[0] in list;
      forall v | v in list[1..] ensures v in list {}
      AllReadable(list[1..]);
    }
  }

  lemma {:induction false} ReadableIsPart(list: seq<string>)
    ensures AllParse(Readable(list)) && forall v | v in Readable(list) :: v in list
  {
    if list != [] && Parse(list[0]).Some? {
      ReadableIsPart(list[1..]);
    }
  }

  /** No other version ties with the greatest one of the release. */
  ghost predicate SoleLatest(majorMinor: string, list: seq<string>) {
    forall v, w | IsLatest(majorMinor, list, v) && IsLatest(majorMinor, list, w) :: v == w
  }

  /** On parseable lists where the greatest version has no tie, the result depends on the members
      only. */
  lemma LatestPatchIgnoresOrder(majorMinor: string, a: seq<string>, b: seq<string>)
    requires AllParse(a) && SoleLatest(majorMinor, a) && forall v :: v in a <==> v in b
    ensures LatestPatch(majorMinor, a) == LatestPatch(majorMinor, b)
  {
    AllReadable(a);
    AllReadable(b);
    LatestPatchIsLatest(majorMinor, a);
    LatestPatchIsLatest(majorMinor, b);
    SameMembersSameLatest(majorMinor, a, b, LatestPatch(majorMinor, b));
  }

  lemma SameMembersSameLatest(majorMinor: string, a: seq<string>, b: seq<string>, v: string)
    requires forall w :: w in a <==> w in b
    ensures IsLatest(majorMinor, a, v) <==> IsLatest(majorMinor, b, v)
  {}

  ghost predicate LatestIsOrderFree(majorMinor: string, a: seq<string>) {
    forall b | multiset(b) == multiset(a) :: LatestPatch(majorMinor, b) == LatestPatch(majorMinor, a)
  }

  /** Exactly when the order of a list does not matter: it has no version of the release at all,
      or everything parses and nothing ties with the greatest version of the release. */
  lemma LatestIsOrderFreeIff(majorMinor: string, a: seq<string>)
    ensures LatestIsOrderFree(majorMinor, a) <==>
            (forall v | v in a :: !InRelease(v, majorMinor)) || (AllParse(a) && SoleLatest(majorMinor, a))
  {
    if forall v | v in a :: !InRelease(v, majorMinor) {
      forall b | multiset(b) == multiset(a) ensures LatestPatch(majorMinor, b) == LatestPatch(majorMinor, a) {
        SameMembers(a, b);
        NoneOfRelease(majorMinor, a);
        NoneOfRelease(majorMinor, b);
      }
    } else if !AllParse(a) {
      var v :| v in a && InRelease(v, majorMinor);
      var w :| w in a && Parse(w).None?;
      var first := MoveToFront(a, v);
      var other := MoveToFront(a, w);
      FirstOfRelease(majorMinor, first);
      assert LatestPatch(majorMinor, other) == "";
    } else if !SoleLatest(majorMinor, a) {
      var v, w :| IsLatest(majorMinor, a, v) && IsLatest(majorMinor, a, w) && v != w;
      var first := MoveToFront(a, v);
      var other := MoveToFront(a, w);
      LatestFirstStays(majorMinor, a, first, v);
      LatestFirstStays(majorMinor, a, other, w);
    } else {
      forall b | multiset(b) == multiset(a) ensures LatestPatch(majorMinor, b) == LatestPatch(majorMinor, a) {
        SameMembers(a, b);
        LatestPatchIgnoresOrder(majorMinor, a, b);
      }
    }
  }

  lemma SameMembers(a: seq<string>, b: seq<string>)
    requires multiset(a) == multiset(b)
    ensures forall v :: v in a <==> v in b
  {
    forall v ensures v in a <==> v in b {
      assert v in a <==> v in multiset(a);
      assert v in b <==> v in multiset(b);
    }
  }

  lemma NoneOfRelease(majorMinor: string, a: seq<string>)
    requires forall v | v in a :: !InRelease(v, majorMinor)
    ensures LatestPatch(majorMinor, a) == ""
  {
    ReadableIsPart(a);
    LatestPatchIsLatest(majorMinor, a);
  }

  lemma MoveToFront(a: seq<string>, v: string) returns (b: seq<string>)
    requires v in a
    ensures multiset(b) == multiset(a) && b != [] && b[0] == v
  {
    var i :| 0 <= i < |a| && a[i] == v;
    assert a == a[..i] + [v] + a[i + 1..];
    b := [v] + a[..i] + a[i + 1..];
  }

  /** A list that starts with a version of the release yields one. */
  lemma FirstOfRelease(majorMinor: string, a: seq<string>)
    requires a != [] && InRelease(a[0], majorMinor)
    ensures LatestPatch(majorMinor, a) != ""
  {
    LatestPatchIsLatest(majorMinor, a);
    assert Readable(a)[0] == a[0];
  }

  /** The greatest version of the release wins against its ties when it comes first. */
  lemma LatestFirstStays(majorMinor: string, a: seq<string>, b: seq<string>, v: string)
    requires AllParse(a) && IsLatest(majorMinor, a, v) && v in a
    requires multiset(b) == multiset(a) && b != [] && b[0] == v
    ensures LatestPatch(majorMinor, b) == v
  {
    SameMembers(a, b);
    VersionsStartWithDigit(v);
    forall w | w in b[1..] ensures Parse(w).Some? && (InRelease(w, majorMinor) ==> NotLater(w, v)) {
      assert w in b && w in a;
    }
    NothingBetter(majorMinor, b[1..], v);
  }

  lemma {:induction false} NothingBetter(majorMinor: string, list: seq<string>, best: string)
    requires best != "" && forall w | w in list :: Parse(w).Some? && (InRelease(w, majorMinor) ==> NotLater(w, best))
    ensures LatestFrom(majorMinor, list, best) == best
    decreases |list|
  {
    if list != [] {
      var w := list[0];
      assert w in list;
      CompareIsPrecedence(MakeOrZero(w), MakeOrZero(best));
      NothingBetter(majorMinor, list[1..], best);
    }
  }
}
