/** Semantic Versioning 2.0.0 as `vendor/github.com/blang/semver` implements it: parsing, and
    `Compare` against the precedence rules of section 11. */
module Semver {
  import opened Basics
  import opened Text

  datatype Identifier = Numeric(n: nat) | Alphanumeric(s: string)

  datatype Version = Version(major: nat, minor: nat, patch: nat, pre: seq<Identifier>, build: seq<string>)

  // ---------------------------------------------------------------------------------------
  // Parsing
  // ---------------------------------------------------------------------------------------

  predicate IsAlphanumeric(c: char) {
    IsDigit(c) || 'a' <= c <= 'z' || 'A' <= c <= 'Z' || c == '-'
  }

  predicate AllAlphanumeric(s: string) {
    forall c | c in s :: IsAlphanumeric(c)
  }

  const UINT64_LIMIT: nat := 0x1_0000_0000_0000_0000

  /** A number without leading zeroes that fits 64 bits. */
  function ParseNumber(s: string): Option<nat> {
    if s != "" && AllDigits(s) && !(|s| > 1 && s[0] == '0') && DigitsValue(s) < UINT64_LIMIT
    then Some(DigitsValue(s)) else None
  }

  /** `NewPRVersion` */
  function ParseIdentifier(s: string): Option<Identifier> {
    if s == "" then None
    else if AllDigits(s) then
      var n := ParseNumber(s);
      if n.Some? then Some(Numeric(n.value)) else None
    else if AllAlphanumeric(s) then Some(Alphanumeric(s))
    else None
  }

  function ParseIdentifiers(parts: seq<string>): Option<seq<Identifier>> {
    if parts == [] then Some([])
    else
      var first := ParseIdentifier(parts[0]);
      var rest := ParseIdentifiers(parts[1..]);
      if first.Some? && rest.Some? then Some([first.value] + rest.value) else None
  }

  /** What is parsed after minor: patch and pre-release. */
  function ParseCore(core: string): Option<(nat, seq<Identifier>)> {
    var dash := CutAt(core, '-');
    var patch := ParseNumber(if dash.Some? then dash.value.0 else core);
    var pre := ParseIdentifiers(if dash.Some? then Split(dash.value.1, '.') else []);
    if patch.Some? && pre.Some? then Some((patch.value, pre.value)) else None
  }

  predicate ValidBuild(b: string) {
    b != "" && AllAlphanumeric(b)
  }

  /** What is parsed after minor, with the build metadata. */
  function ParseRest(rest: string): Option<(nat, seq<Identifier>, seq<string>)> {
    var plus := CutAt(rest, '+');
    var build := if plus.Some? then Split(plus.value.1, '.') else [];
    var core := ParseCore(if plus.Some? then plus.value.0 else rest);
    if core.Some? && forall b | b in build :: ValidBuild(b) then Some((core.value.0, core.value.1, build)) else None
  }

  /** `semver.Make` */
  function Parse(s: string): Option<Version> {
    var first := CutAt(s, '.');
    var second := if first.Some? then CutAt(first.value.1, '.') else None;
    if second.None? then None
    else
      var major, minor, rest := ParseNumber(first.value.0), ParseNumber(second.value.0), ParseRest(second.value.1);
      if major.Some? && minor.Some? && rest.Some?
      then Some(Version(major.value, minor.value, rest.value.0, rest.value.1, rest.value.2)) else None
  }

  /** The version that callers get who ignore the error. */
  function MakeOrZero(s: string): Version {
    if Parse(s).Some? then Parse(s).value else Version(0, 0, 0, [], [])
  }

  lemma VersionsStartWithDigit(s: string)
    requires Parse(s).Some?
    ensures s != "" && IsDigit(s[0])
  {
    var first := CutAt(s, '.').value.0;
    assert first != "" && AllDigits(first);
    assert first[0] in first;
    assert first[0] == s[0];
  }

  // ---------------------------------------------------------------------------------------
  // Compare
  // ---------------------------------------------------------------------------------------

  function CompareNumbers(a: nat, b: nat): int {
    if a == b then 0 else if a > b then 1 else -1
  }

  function CompareIdentifiers(a: Identifier, b: Identifier): int {
    match (a, b)
    case (Numeric(_), Alphanumeric(_)) => -1
    case (Alphanumeric(_), Numeric(_)) => 1
    case (Numeric(m), Numeric(n)) => CompareNumbers(m, n)
    case (Alphanumeric(s), Alphanumeric(t)) => if s == t then 0 else if LexLt(t, s) then 1 else -1
  }

  /** The loop over the identifiers of two pre-releases, and the comparison of their lengths. */
  function ComparePre(p: seq<Identifier>, q: seq<Identifier>): int {
    if p == [] && q == [] then 0
    else if p == [] then -1
    else if q == [] then 1
    else
      var c := CompareIdentifiers(p[0], q[0]);
      if c != 0 then c else ComparePre(p[1..], q[1..])
  }

  function Compare(v: Version, o: Version): int {
    if v.major != o.major then CompareNumbers(v.major, o.major)
    else if v.minor != o.minor then CompareNumbers(v.minor, o.minor)
    else if v.patch != o.patch then CompareNumbers(v.patch, o.patch)
    else if v.pre == [] && o.pre == [] then 0
    else if v.pre == [] then 1
    else if o.pre == [] then -1
    else ComparePre(v.pre, o.pre)
  }

  // ---------------------------------------------------------------------------------------
  // Section 11
  // ---------------------------------------------------------------------------------------

  /** Rules 11.4.1 to 11.4.3 */
  predicate IdentifierPrecedes(a: Identifier, b: Identifier) {
    match (a, b)
    case (Numeric(m), Numeric(n)) => m < n
    case (Alphanumeric(s), Alphanumeric(t)) => LexLt(s, t)
    case (Numeric(_), Alphanumeric(_)) => true
    case (Alphanumeric(_), Numeric(_)) => false
  }

  /** The two lists agree on their first k identifiers and differ there: rules 11.4 and 11.4.4. */
  predicate DifferAt(p: seq<Identifier>, q: seq<Identifier>, k: nat) {
    k <= |p| && k < |q| && p[..k] == q[..k] && (k == |p| || IdentifierPrecedes(p[k], q[k]))
  }

  /** Rules 11.3 and 11.4: a pre-release precedes the normal version. */
  predicate PreReleasePrecedes(p: seq<Identifier>, q: seq<Identifier>) {
    p != [] && (q == [] || exists k | 0 <= k < |q| :: DifferAt(p, q, k))
  }

  /** Precedence of section 11, which ignores build metadata. */
  predicate Precedes(a: Version, b: Version) {
    || a.major < b.major
    || (a.major == b.major && a.minor < b.minor)
    || (a.major == b.major && a.minor == b.minor && a.patch < b.patch)
    || (a.major == b.major && a.minor == b.minor && a.patch == b.patch && PreReleasePrecedes(a.pre, b.pre))
  }

  lemma CompareIdentifiersIsPrecedence(a: Identifier, b: Identifier)
    ensures CompareIdentifiers(a, b) == -1 <==> IdentifierPrecedes(a, b)
    ensures CompareIdentifiers(a, b) == 0 <==> a == b
    ensures CompareIdentifiers(b, a) == -CompareIdentifiers(a, b)
  {
    if a.Alphanumeric? && b.Alphanumeric? {
      LexTotal(a.s, b.s);
    }
  }

  lemma {:induction false} ComparePreIsPrecedence(p: seq<Identifier>, q: seq<Identifier>)
    ensures ComparePre(p, q) == -1 <==> exists k | 0 <= k < |q| :: DifferAt(p, q, k)
    ensures ComparePre(p, q) == 0 <==> p == q
    ensures ComparePre(q, p) == -ComparePre(p, q)
    ensures ComparePre(p, q) in {-1, 0, 1}
  {
    if p == [] && q != [] {
      assert DifferAt(p, q, 0);
    } else if p != [] && q != [] {
      CompareIdentifiersIsPrecedence(p[0], q[0]);
      ComparePreIsPrecedence(p[1..], q[1..]);
      assert p == [p[0]] + p[1..] && q == [q[0]] + q[1..];
      FirstDifference(p, q);
    }
  }

  lemma FirstDifference(p: seq<Identifier>, q: seq<Identifier>)
    requires p != [] && q != []
    ensures (exists k | 0 <= k < |q| :: DifferAt(p, q, k)) <==>
            IdentifierPrecedes(p[0], q[0]) ||
            (p[0] == q[0] && exists k | 0 <= k < |q[1..]| :: DifferAt(p[1..], q[1..], k))
  {
    if k :| 0 <= k < |q| && DifferAt(p, q, k) {
      if k > 0 {
        assert p[0] == p[..k][0] == q[..k][0] == q[0];
        assert p[1..][..k - 1] == p[..k][1..] == q[..k][1..] == q[1..][..k - 1];
        assert DifferAt(p[1..], q[1..], k - 1);
      }
    }
    if IdentifierPrecedes(p[0], q[0]) {
      assert DifferAt(p, q, 0);
    }
    if p[0] == q[0] {
      if k :| 0 <= k < |q[1..]| && DifferAt(p[1..], q[1..], k) {
        assert p[..k + 1] == [p[0]] + p[1..][..k] == q[..k + 1];
        assert DifferAt(p, q, k + 1);
      }
    }
  }

  /** `Compare` decides precedence, in both directions. */
  lemma CompareIsPrecedence(a: Version, b: Version)
    ensures Compare(a, b) == -1 <==> Precedes(a, b)
    ensures Compare(a, b) == 1 <==> Precedes(b, a)
    ensures Compare(a, b) == 0 <==> a.(build := []) == b.(build := [])
    ensures Compare(b, a) == -Compare(a, b) && Compare(a, b) in {-1, 0, 1}
  {
    ComparePreIsPrecedence(a.pre, b.pre);
    ComparePreIsPrecedence(b.pre, a.pre);
  }

  lemma {:induction false} ComparePreTransitive(p: seq<Identifier>, q: seq<Identifier>, r: seq<Identifier>)
    requires ComparePre(p, q) <= 0 && ComparePre(q, r) <= 0
    ensures ComparePre(p, r) <= 0
  {
    if p != [] && q != [] && r != [] {
      CompareIdentifiersIsPrecedence(p[0], q[0]);
      CompareIdentifiersIsPrecedence(q[0], r[0]);
      CompareIdentifiersIsPrecedence(p[0], r[0]);
      if p[0] == q[0] && q[0] == r[0] {
        ComparePreTransitive(p[1..], q[1..], r[1..]);
      } else if p[0].Alphanumeric? && q[0].Alphanumeric? && r[0].Alphanumeric? && p[0] != q[0] && q[0] != r[0] {
        LexTransitive(p[0].s, q[0].s, r[0].s);
      }
    }
  }

  /** Precedence is a total preorder: any two versions compare, and comparison is transitive. */
  lemma CompareIsTotalPreorder(a: Version, b: Version, c: Version)
    ensures Compare(a, b) <= 0 || Compare(b, a) <= 0
    ensures Compare(a, b) <= 0 && Compare(b, c) <= 0 ==> Compare(a, c) <= 0
  {
    CompareIsPrecedence(a, b);
    if Compare(a, b) <= 0 && Compare(b, c) <= 0 {
      if a.pre != [] && b.pre != [] && c.pre != [] && ComparePre(a.pre, b.pre) <= 0 && ComparePre(b.pre, c.pre) <= 0 {
        ComparePreTransitive(a.pre, b.pre, c.pre);
      }
    }
  }

  // ---------------------------------------------------------------------------------------
  // major.minor
  // ---------------------------------------------------------------------------------------

  /** `fmt.Sprintf("%d.%d", v.Major, v.Minor)` */
  function Release(v: Version): string {
    Decimal(v.major) + ['.'] + Decimal(v.minor)
  }

  /** Two versions print the same release exactly when major and minor agree. */
  lemma ReleaseIdentifies(a: Version, b: Version)
    ensures Release(a) == Release(b) <==> a.major == b.major && a.minor == b.minor
  {
    if Release(a) == Release(b) {
      SplitRelease(a);
      SplitRelease(b);
      assert Decimal(a.major) == Split(Release(a), '.')[0] == Decimal(b.major);
      assert Decimal(a.minor) == Split(Release(a), '.')[1] == Decimal(b.minor);
      DecimalValue(a.major);
      DecimalValue(b.major);
      DecimalValue(a.minor);
      DecimalValue(b.minor);
    }
  }

  lemma SplitRelease(v: Version)
    ensures Split(Release(v), '.') == [Decimal(v.major), Decimal(v.minor)]
    ensures Release(v) != "" && Release(v)[0] != 'v'
  {
    SplitConcat(Decimal(v.major), Decimal(v.minor), '.');
    SplitPlain(Decimal(v.major), '.');
    SplitPlain(Decimal(v.minor), '.');
    assert Decimal(v.major)[0] in Decimal(v.major);
  }

  // ---------------------------------------------------------------------------------------
  // Printing
  // ---------------------------------------------------------------------------------------

  predicate ValidIdentifier(id: Identifier) {
    match id
    case Numeric(n) => n < UINT64_LIMIT
    case Alphanumeric(s) => s != "" && AllAlphanumeric(s) && !AllDigits(s)
  }

  predicate Valid(v: Version) {
    && v.major < UINT64_LIMIT && v.minor < UINT64_LIMIT && v.patch < UINT64_LIMIT
    && (forall id | id in v.pre :: ValidIdentifier(id))
    && (forall b | b in v.build :: ValidBuild(b))
  }

  function PrintIdentifier(id: Identifier): string {
    match id
    case Numeric(n) => Decimal(n)
    case Alphanumeric(s) => s
  }

  function PrintIdentifiers(pre: seq<Identifier>): (parts: seq<string>)
    ensures |parts| == |pre|
  {
    if pre == [] then [] else [PrintIdentifier(pre[0])] + PrintIdentifiers(pre[1..])
  }

  /** Patch and pre-release, as in 3-rc.1 */
  function PrintCore(patch: nat, pre: seq<Identifier>): string {
    if pre == [] then Decimal(patch) else Decimal(patch) + ['-'] + Join(PrintIdentifiers(pre), '.')
  }

  /** The same with the build metadata, as in 3-rc.1+b5 */
  function PrintRest(patch: nat, pre: seq<Identifier>, build: seq<string>): string {
    var core := PrintCore(patch, pre);
    if build == [] then core else core + ['+'] + Join(build, '.')
  }

  /** The canonical text of a version: major.minor.patch, -pre-release, +build. */
  function Print(v: Version): string {
    Decimal(v.major) + ['.'] + (Decimal(v.minor) + ['.'] + PrintRest(v.patch, v.pre, v.build))
  }

  lemma NumberRoundTrip(n: nat)
    requires n < UINT64_LIMIT
    ensures ParseNumber(Decimal(n)) == Some(n)
  {
    DecimalValue(n);
    DecimalIsPlain(n);
  }

  lemma NumberIsPrinted(s: string)
    requires ParseNumber(s).Some?
    ensures Decimal(ParseNumber(s).value) == s && ParseNumber(s).value < UINT64_LIMIT
  {
    DecimalOfDigits(s);
  }

  lemma IdentifierRoundTrip(id: Identifier)
    requires ValidIdentifier(id)
    ensures ParseIdentifier(PrintIdentifier(id)) == Some(id)
  {
    if id.Numeric? {
      NumberRoundTrip(id.n);
    }
  }

  lemma IdentifierIsPrinted(s: string)
    requires ParseIdentifier(s).Some?
    ensures PrintIdentifier(ParseIdentifier(s).value) == s && ValidIdentifier(ParseIdentifier(s).value)
  {
    if AllDigits(s) {
      NumberIsPrinted(s);
    }
  }

  lemma {:induction false} IdentifiersRoundTrip(pre: seq<Identifier>)
    requires forall id | id in pre :: ValidIdentifier(id)
    ensures ParseIdentifiers(PrintIdentifiers(pre)) == Some(pre)
  {
    if pre != [] {
      var parts := PrintIdentifiers(pre);
      assert parts[0] == PrintIdentifier(pre[0]) && parts[1..] == PrintIdentifiers(pre[1..]);
      assert pre[0] in pre;
      IdentifierRoundTrip(pre[0]);
      forall id | id in pre[1..] ensures ValidIdentifier(id) {
        assert id in pre;
      }
      IdentifiersRoundTrip(pre[1..]);
      assert pre == [pre[0]] + pre[1..];
    }
  }

  lemma {:induction false} IdentifiersArePrinted(parts: seq<string>)
    requires ParseIdentifiers(parts).Some?
    ensures var pre := ParseIdentifiers(parts).value;
            PrintIdentifiers(pre) == parts && forall id | id in pre :: ValidIdentifier(id)
  {
    if parts != [] {
      IdentifierIsPrinted(parts[0]);
      IdentifiersArePrinted(parts[1..]);
      var first, rest := ParseIdentifier(parts[0]).value, ParseIdentifiers(parts[1..]).value;
      assert ([first] + rest)[1..] == rest;
      assert parts == [parts[0]] + parts[1..];
    }
  }

  lemma PrintedIdentifierIsAlphanumeric(id: Identifier)
    requires ValidIdentifier(id)
    ensures AllAlphanumeric(PrintIdentifier(id)) && '.' !in PrintIdentifier(id) && '+' !in PrintIdentifier(id)
  {}

  lemma {:induction false} PrintedIdentifiersAreAlphanumeric(pre: seq<Identifier>)
    requires forall id | id in pre :: ValidIdentifier(id)
    ensures forall s | s in PrintIdentifiers(pre) :: AllAlphanumeric(s) && '.' !in s && '+' !in s
  {
    if pre != [] {
      assert pre[0] in pre;
      PrintedIdentifierIsAlphanumeric(pre[0]);
      forall id | id in pre[1..] ensures ValidIdentifier(id) {
        assert id in pre;
      }
      PrintedIdentifiersAreAlphanumeric(pre[1..]);
    }
  }

  lemma {:induction false} JoinHasNo(parts: seq<string>, sep: char, c: char)
    requires c != sep && forall s | s in parts :: c !in s
    ensures c !in Join(parts, sep)
  {
    if |parts| == 1 {
      assert parts[0] in parts;
    } else if |parts| > 1 {
      assert parts[0] in parts;
      forall s | s in parts[1..] ensures c !in s {
        assert s in parts;
      }
      JoinHasNo(parts[1..], sep, c);
    }
  }

  lemma DecimalHasNo(n: nat, c: char)
    requires !IsDigit(c)
    ensures c !in Decimal(n)
  {}

  lemma CoreRoundTrip(patch: nat, pre: seq<Identifier>)
    requires patch < UINT64_LIMIT && forall id | id in pre :: ValidIdentifier(id)
    ensures ParseCore(PrintCore(patch, pre)) == Some((patch, pre))
    ensures '+' !in PrintCore(patch, pre)
  {
    NumberRoundTrip(patch);
    DecimalHasNo(patch, '-');
    DecimalHasNo(patch, '+');
    if pre == [] {
      CutNone(Decimal(patch), '-');
    } else {
      var parts := PrintIdentifiers(pre);
      CutFirst(Decimal(patch), '-', Join(parts, '.'));
      PrintedIdentifiersAreAlphanumeric(pre);
      SplitJoin(parts, '.');
      IdentifiersRoundTrip(pre);
      JoinHasNo(parts, '.', '+');
    }
  }

  lemma CoreIsPrinted(core: string)
    requires ParseCore(core).Some?
    ensures var (patch, pre) := ParseCore(core).value;
            PrintCore(patch, pre) == core && patch < UINT64_LIMIT && forall id | id in pre :: ValidIdentifier(id)
  {
    var dash := CutAt(core, '-');
    if dash.Some? {
      var parts := Split(dash.value.1, '.');
      CutParts(core, '-');
      NumberIsPrinted(dash.value.0);
      SplitPieces(dash.value.1, '.');
      IdentifiersArePrinted(parts);
      assert ParseIdentifiers(parts).value != [] by {
        assert |PrintIdentifiers(ParseIdentifiers(parts).value)| >= 1;
      }
    } else {
      NumberIsPrinted(core);
      assert ParseIdentifiers([]).value == [];
    }
  }

  lemma RestRoundTrip(patch: nat, pre: seq<Identifier>, build: seq<string>)
    requires patch < UINT64_LIMIT && (forall id | id in pre :: ValidIdentifier(id)) && forall b | b in build :: ValidBuild(b)
    ensures ParseRest(PrintRest(patch, pre, build)) == Some((patch, pre, build))
  {
    var core := PrintCore(patch, pre);
    CoreRoundTrip(patch, pre);
    if build == [] {
      CutNone(core, '+');
    } else {
      CutFirst(core, '+', Join(build, '.'));
      forall b | b in build ensures '.' !in b {}
      SplitJoin(build, '.');
    }
  }

  lemma RestIsPrinted(rest: string)
    requires ParseRest(rest).Some?
    ensures var (patch, pre, build) := ParseRest(rest).value;
            && PrintRest(patch, pre, build) == rest && patch < UINT64_LIMIT
            && (forall id | id in pre :: ValidIdentifier(id)) && forall b | b in build :: ValidBuild(b)
  {
    var plus := CutAt(rest, '+');
    if plus.Some? {
      CutParts(rest, '+');
      SplitPieces(plus.value.1, '.');
      CoreIsPrinted(plus.value.0);
    } else {
      CoreIsPrinted(rest);
    }
  }

  /** Every valid version is read back from its canonical text. */
  lemma ParsePrint(v: Version)
    requires Valid(v)
    ensures Parse(Print(v)) == Some(v)
  {
    var rest := PrintRest(v.patch, v.pre, v.build);
    DecimalHasNo(v.major, '.');
    DecimalHasNo(v.minor, '.');
    CutFirst(Decimal(v.major), '.', Decimal(v.minor) + ['.'] + rest);
    CutFirst(Decimal(v.minor), '.', rest);
    NumberRoundTrip(v.major);
    NumberRoundTrip(v.minor);
    RestRoundTrip(v.patch, v.pre, v.build);
  }

  /** Only canonical texts of valid versions are read. */
  lemma ParsedIsPrinted(s: string)
    requires Parse(s).Some?
    ensures Print(Parse(s).value) == s && Valid(Parse(s).value)
  {
    var first := CutAt(s, '.').value;
    var second := CutAt(first.1, '.').value;
    CutParts(s, '.');
    CutParts(first.1, '.');
    NumberIsPrinted(first.0);
    NumberIsPrinted(second.0);
    RestIsPrinted(second.1);
  }

  /** A text that is no version counts as 0.0.0. */
  lemma UnreadableIsZero(s: string)
    ensures Parse("0.0.0").Some?
    ensures Parse(s).None? ==> MakeOrZero(s) == MakeOrZero("0.0.0")
  {
    var zero := Version(0, 0, 0, [], []);
    assert Print(zero) == "0.0.0" by {
      assert Decimal(0) == "0";
    }
    ParsePrint(zero);
  }

  function OneZeroZero(pre: seq<Identifier>): Version {
    Version(1, 0, 0, pre, [])
  }

  /** The example chain of section 11: alpha, alpha.1, alpha.beta, beta, beta.2, beta.11, rc.1 and
      then the release. */
  lemma SectionElevenExample()
    ensures Compare(OneZeroZero([Alphanumeric("alpha")]), OneZeroZero([Alphanumeric("alpha"), Numeric(1)])) == -1
    ensures Compare(OneZeroZero([Alphanumeric("alpha"), Numeric(1)]), OneZeroZero([Alphanumeric("alpha"), Alphanumeric("beta")])) == -1
    ensures Compare(OneZeroZero([Alphanumeric("alpha"), Alphanumeric("beta")]), OneZeroZero([Alphanumeric("beta")])) == -1
    ensures Compare(OneZeroZero([Alphanumeric("beta")]), OneZeroZero([Alphanumeric("beta"), Numeric(2)])) == -1
    ensures Compare(OneZeroZero([Alphanumeric("beta"), Numeric(2)]), OneZeroZero([Alphanumeric("beta"), Numeric(11)])) == -1
    ensures Compare(OneZeroZero([Alphanumeric("beta"), Numeric(11)]), OneZeroZero([Alphanumeric("rc"), Numeric(1)])) == -1
    ensures Compare(OneZeroZero([Alphanumeric("rc"), Numeric(1)]), OneZeroZero([])) == -1
  {
    assert 'a' < 'b' < 'r';
    assert "alpha"[0] == 'a' && "beta"[0] == 'b' && "rc"[0] == 'r';
    SharedStart(Alphanumeric("alpha"), [], [Numeric(1)]);
    SharedStart(Alphanumeric("alpha"), [Numeric(1)], [Alphanumeric("beta")]);
    SharedStart(Alphanumeric("beta"), [], [Numeric(2)]);
    SharedStart(Alphanumeric("beta"), [Numeric(2)], [Numeric(11)]);
  }

  /** A common first identifier does not matter. */
  lemma SharedStart(first: Identifier, p: seq<Identifier>, q: seq<Identifier>)
    ensures ComparePre([first] + p, [first] + q) == ComparePre(p, q)
  {
    assert ([first] + p)[1..] == p && ([first] + q)[1..] == q;
    CompareIdentifiersIsPrecedence(first, first);
  }
}
