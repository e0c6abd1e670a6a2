/** Feature-gate strings in `pkg/agent/utils.go` and the Linux configuration fix-up of
    `pkg/agent/baker.go` that rewrites one. */
module FeatureGates {
  import opened Basics
  import opened Text

  /** `strToBool`: what `strconv.ParseBool` does not accept is false. */
  function StrToBool(s: string): bool {
    ParseBool(s) == Some(true)
  }

  function BoolToStr(b: bool): string {
    if b then "true" else "false"
  }

  /** One delimited piece as a pair: exactly one pair delimiter, both sides trimmed. */
  function PairOf(piece: string, pairDelim: char): Option<Pair> {
    var pair := Split(piece, pairDelim);
    if |pair| == 2 then Some(Pair(TrimSpace(pair[0]), TrimSpace(pair[1]))) else None
  }

  function PairsOf(pieces: seq<string>, pairDelim: char): seq<Option<Pair>> {
    seq(|pieces|, i requires 0 <= i < |pieces| => PairOf(pieces[i], pairDelim))
  }

  /** The pieces that are pairs. */
  function Present(parsed: seq<Option<Pair>>): seq<Pair> {
    if parsed == [] then []
    else
      var front, last := Present(parsed[..|parsed| - 1]), parsed[|parsed| - 1];
      if last.Some? then front + [last.value] else front
  }

  lemma NextPresent(parsed: seq<Option<Pair>>, i: nat)
    requires i < |parsed|
    ensures var m := LastWins(Present(parsed[..i]));
            LastWins(Present(parsed[..i + 1])) ==
            if parsed[i].Some? then m[parsed[i].value.key := parsed[i].value.value] else m
  {
    assert parsed[..i + 1][..i] == parsed[..i];
    if parsed[i].Some? {
      LastWinsSnoc(Present(parsed[..i]), parsed[i].value);
    }
  }

  /** The map a delimited string stands for. */
  function Parse(str: string, strDelim: char, pairDelim: char): map<string, string> {
    LastWins(Present(PairsOf(Split(str, strDelim), pairDelim)))
  }

  method StrKeyValToMap(str: string, strDelim: char, pairDelim: char) returns (m: map<string, string>)
    ensures m == Parse(str, strDelim, pairDelim)
  {
    m := map[];
    var pairs := Split(str, strDelim);
    ghost var parsed := PairsOf(pairs, pairDelim);
    for i := 0 to |pairs|
      invariant m == LastWins(Present(parsed[..i]))
    {
      NextPresent(parsed, i);
      var pair := Split(pairs[i], pairDelim);
      if |pair| == 2 {
        var key := TrimSpace(pair[0]);
        var val := TrimSpace(pair[1]);
        m := m[key := val];
      }
    }
    assert parsed[..|pairs|] == parsed;
  }

  /** Each value read as a boolean. */
  function Bools(m: map<string, string>): map<string, bool> {
    map k | k in m :: StrToBool(m[k])
  }

  /** The gates a string sets. */
  function Gates(featureGates: string): map<string, bool> {
    Bools(Parse(featureGates, ',', '='))
  }

  lemma BoolsOfUpdate(m: map<string, string>, key: string, val: string)
    ensures Bools(m[key := val]) == Bools(m)[key := StrToBool(val)]
  {}

  method StrKeyValToMapBool(str: string, strDelim: char, pairDelim: char) returns (m: map<string, bool>)
    ensures m == Bools(Parse(str, strDelim, pairDelim))
  {
    m := map[];
    var pairs := Split(str, strDelim);
    ghost var parsed := PairsOf(pairs, pairDelim);
    for i := 0 to |pairs|
      invariant m == Bools(LastWins(Present(parsed[..i])))
    {
      NextPresent(parsed, i);
      var pair := Split(pairs[i], pairDelim);
      if |pair| == 2 {
        var key := TrimSpace(pair[0]);
        var val := TrimSpace(pair[1]);
        BoolsOfUpdate(LastWins(Present(parsed[..i])), key, val);
        m := m[key := StrToBool(val)];
      }
    }
    assert parsed[..|pairs|] == parsed;
  }

  /** A key that printing and parsing leave alone. */
  predicate CleanKey(key: string) {
    Trimmed(key) && ',' !in key && '=' !in key
  }

  function PrintGate(key: string, value: bool): string {
    key + "=" + BoolToStr(value)
  }

  /** A gate string that prints the map, its gates in some order. */
  ghost predicate Prints(s: string, gates: map<string, bool>) {
    exists keys: seq<string> :: Lists(keys, gates) && s == Join(PrintAll(keys, gates), ',')
  }

  /** An order of the map's keys. */
  predicate Lists(keys: seq<string>, gates: map<string, bool>) {
    NoDuplicates(keys) && (forall k | k in gates :: k in keys) && forall k | k in keys :: k in gates
  }

  function PrintAll(keys: seq<string>, gates: map<string, bool>): seq<string>
    requires forall k | k in keys :: k in gates
  {
    seq(|keys|, i requires 0 <= i < |keys| => PrintGate(keys[i], gates[keys[i]]))
  }

  /** The keys in Go's arbitrary iteration order. */
  method KeysInSomeOrder(m: map<string, bool>) returns (keys: seq<string>)
    ensures Lists(keys, m)
  {
    keys := [];
    var todo := m.Keys;
    while todo != {}
      invariant todo <= m.Keys && NoDuplicates(keys)
      invariant forall k :: k in keys <==> k in m && k !in todo
    {
      var k :| k in todo;
      todo := todo - {k};
      keys := keys + [k];
    }
  }

  method FormatGates(keys: seq<string>, fgMap: map<string, bool>) returns (pairs: seq<string>)
    requires forall k | k in keys :: k in fgMap
    ensures pairs == PrintAll(keys, fgMap)
  {
    pairs := [];
    for i := 0 to |keys|
      invariant pairs == PrintAll(keys, fgMap)[..i]
    {
      pairs := pairs + [PrintGate(keys[i], fgMap[keys[i]])];
    }
  }

  /** `addFeatureGateString`: the order of the printed gates is arbitrary. */
  method AddFeatureGateString(featureGates: string, key: string, value: bool) returns (s: string)
    ensures Prints(s, Gates(featureGates)[key := value])
  {
    var fgMap := StrKeyValToMapBool(featureGates, ',', '=');
    fgMap := fgMap[key := value];
    var keys := KeysInSomeOrder(fgMap);
    var pairs := FormatGates(keys, fgMap);
    s := Join(pairs, ',');
    ListedIsPrinted(keys, fgMap);
  }

  lemma ListedIsPrinted(keys: seq<string>, gates: map<string, bool>)
    requires Lists(keys, gates)
    ensures Prints(Join(PrintAll(keys, gates), ','), gates)
  {}

  // ---------------------------------------------------------------------------------------
  // What is a pair
  // ---------------------------------------------------------------------------------------

  /** One delimiter between two texts, with any blanks around them, is the pair of these texts. */
  lemma SpacedPair(before: string, key: string, middle: string, middle': string, val: string, after: string, d: char)
    requires Blank(before) && Blank(middle) && Blank(middle') && Blank(after) && !IsSpace(d)
    requires Trimmed(key) && Trimmed(val) && d !in key && d !in val
    ensures PairOf(before + key + middle + [d] + (middle' + val + after), d) == Some(Pair(key, val))
  {
    var left, right := before + key + middle, middle' + val + after;
    SpacedHasNo(before, key, middle, d);
    SpacedHasNo(middle', val, after, d);
    PairOfSides(left, right, d);
    TrimSpaceOf(before, key, middle);
    TrimSpaceOf(middle', val, after);
  }

  lemma SpacedHasNo(before: string, text: string, after: string, d: char)
    requires Blank(before) && Blank(after) && !IsSpace(d) && d !in text
    ensures d !in before + text + after
  {}

  lemma SplitInTwo(left: string, right: string, d: char)
    requires d !in left && d !in right
    ensures Split(left + [d] + right, d) == [left, right]
  {
    SplitConcat(left, right, d);
    SplitPlain(left, d);
    SplitPlain(right, d);
    assert [left] + [right] == [left, right];
  }

  lemma PairOfSides(left: string, right: string, d: char)
    requires d !in left && d !in right
    ensures PairOf(left + [d] + right, d) == Some(Pair(TrimSpace(left), TrimSpace(right)))
  {
    SplitInTwo(left, right, d);
  }

  /** A piece with no delimiter, or with more than one, is none. */
  lemma NotAPair(a: string, b: string, c: string, d: char)
    ensures d !in a ==> PairOf(a, d).None?
    ensures PairOf(a + [d] + (b + [d] + c), d).None?
  {
    if d !in a {
      SplitPlain(a, d);
    }
    SplitConcat(a, b + [d] + c, d);
    SplitConcat(b, c, d);
  }

  /** A string of pieces gives the last-wins map of those that are pairs. */
  lemma PiecesAreParsed(pieces: seq<string>, strDelim: char, pairDelim: char)
    requires pieces != [] && forall p | p in pieces :: strDelim !in p
    ensures Parse(Join(pieces, strDelim), strDelim, pairDelim) == LastWins(Present(PairsOf(pieces, pairDelim)))
  {
    SplitJoin(pieces, strDelim);
  }

  /** The spellings of true that Go knows; anything else is false. */
  lemma BoolSpellings(s: string)
    ensures StrToBool(s) <==> s in ["1", "t", "T", "TRUE", "true", "True"]
    ensures ParseBool(s) == Some(false) <==> s in ["0", "f", "F", "FALSE", "false", "False"]
  {}

  // ---------------------------------------------------------------------------------------
  // The update law
  // ---------------------------------------------------------------------------------------

  lemma {:induction false} KeyComesFromPair(parsed: seq<Option<Pair>>, key: string) returns (i: nat)
    requires key in LastWins(Present(parsed))
    ensures i < |parsed| && parsed[i].Some? && parsed[i].value.key == key
  {
    i := |parsed| - 1;
    assert parsed[..i + 1] == parsed;
    NextPresent(parsed, i);
    if parsed[i].None? || parsed[i].value.key != key {
      i := KeyComesFromPair(parsed[..i], key);
    }
  }

  lemma PairKeyIsClean(piece: string)
    requires ',' !in piece && PairOf(piece, '=').Some?
    ensures CleanKey(PairOf(piece, '=').value.key)
  {
    var pair := Split(piece, '=');
    SplitPieces(piece, '=');
    assert pair[0] in pair;
    assert Join(pair[1..], '=') == pair[1];
    assert piece == pair[0] + ['='] + pair[1];
    assert forall c | c in pair[0] :: c in piece;
  }

  /** Parsing yields clean keys only. */
  lemma ParsedKeysAreClean(featureGates: string, key: string)
    requires key in Gates(featureGates)
    ensures CleanKey(key)
  {
    var pieces := Split(featureGates, ',');
    SplitPieces(featureGates, ',');
    var i := KeyComesFromPair(PairsOf(pieces, '='), key);
    assert pieces[i] in pieces;
    PairKeyIsClean(pieces[i]);
  }

  lemma PairOfParts(key: string, val: string, d: char)
    requires d !in key && d !in val && Trimmed(key) && Trimmed(val)
    ensures PairOf(key + [d] + val, d) == Some(Pair(key, val))
  {
    PairOfSides(key, val, d);
  }

  lemma BoolIsClean(b: bool)
    ensures CleanKey(BoolToStr(b)) && StrToBool(BoolToStr(b)) == b
  {}

  lemma ParsePrintedGate(key: string, value: bool)
    requires CleanKey(key)
    ensures PairOf(PrintGate(key, value), '=') == Some(Pair(key, BoolToStr(value)))
    ensures ',' !in PrintGate(key, value)
  {
    BoolIsClean(value);
    PairOfParts(key, BoolToStr(value), '=');
  }

  lemma {:induction false} AllPresent(parsed: seq<Option<Pair>>, pairs: seq<Pair>)
    requires |parsed| == |pairs| && forall i | 0 <= i < |parsed| :: parsed[i] == Some(pairs[i])
    ensures Present(parsed) == pairs
  {
    if parsed != [] {
      var n := |parsed| - 1;
      AllPresent(parsed[..n], pairs[..n]);
      assert pairs == pairs[..n] + [pairs[n]];
    }
  }

  function PairsFrom(keys: seq<string>, m: map<string, string>): seq<Pair>
    requires forall k | k in keys :: k in m
  {
    seq(|keys|, i requires 0 <= i < |keys| => Pair(keys[i], m[keys[i]]))
  }

  /** The pairs of a map at some keys give its restriction to these keys. */
  lemma {:induction false} LastWinsOfMap(keys: seq<string>, m: map<string, string>)
    requires forall k | k in keys :: k in m
    ensures LastWins(PairsFrom(keys, m)) == map k | k in keys && k in m :: m[k]
  {
    if keys != [] {
      var n := |keys| - 1;
      LastWinsOfMap(keys[..n], m);
      assert PairsFrom(keys, m)[..n] == PairsFrom(keys[..n], m) && keys == keys[..n] + [keys[n]];
    }
  }

  /** Printing a map of clean gates and parsing it gives the map, whatever the order. */
  lemma PrintedGatesParseBack(s: string, gates: map<string, bool>)
    requires Prints(s, gates) && gates != map[] && forall k | k in gates :: CleanKey(k)
    ensures Gates(s) == gates
  {
    var keys :| Lists(keys, gates) && s == Join(PrintAll(keys, gates), ',');
    var strings := map k | k in gates :: BoolToStr(gates[k]);
    assert keys != [] by {
      assert gates.Keys != {};
    }
    ParsePrintedList(keys, gates, strings);
    BoolsOfStrings(gates);
  }

  lemma ParsePrintedList(keys: seq<string>, gates: map<string, bool>, strings: map<string, string>)
    requires Lists(keys, gates) && keys != [] && forall k | k in gates :: CleanKey(k)
    requires strings == map k | k in gates :: BoolToStr(gates[k])
    ensures Parse(Join(PrintAll(keys, gates), ','), ',', '=') == strings
  {
    PrintedPieces(keys, gates);
    SplitJoin(PrintAll(keys, gates), ',');
    PrintedArePresent(keys, gates, strings);
    WholeMap(keys, strings);
  }

  lemma PrintedArePresent(keys: seq<string>, gates: map<string, bool>, strings: map<string, string>)
    requires Lists(keys, gates) && forall k | k in gates :: CleanKey(k)
    requires strings == map k | k in gates :: BoolToStr(gates[k])
    ensures Present(PairsOf(PrintAll(keys, gates), '=')) == PairsFrom(keys, strings)
  {
    PrintedPieces(keys, gates);
    AllPresent(PairsOf(PrintAll(keys, gates), '='), PairsFrom(keys, strings));
  }

  lemma WholeMap(keys: seq<string>, m: map<string, string>)
    requires (forall k | k in m :: k in keys) && forall k | k in keys :: k in m
    ensures LastWins(PairsFrom(keys, m)) == m
  {
    LastWinsOfMap(keys, m);
  }

  lemma BoolsOfStrings(gates: map<string, bool>)
    ensures Bools(map k | k in gates :: BoolToStr(gates[k])) == gates
  {
    forall k | k in gates ensures StrToBool(BoolToStr(gates[k])) == gates[k] {
      BoolIsClean(gates[k]);
    }
  }

  lemma PrintedPieces(keys: seq<string>, gates: map<string, bool>)
    requires forall k | k in keys :: k in gates && CleanKey(k)
    ensures |PrintAll(keys, gates)| == |keys|
    ensures forall p | p in PrintAll(keys, gates) :: ',' !in p
    ensures forall i | 0 <= i < |keys| ::
              PairsOf(PrintAll(keys, gates), '=')[i] == Some(Pair(keys[i], BoolToStr(gates[keys[i]])))
  {
    forall i | 0 <= i < |keys|
      ensures ',' !in PrintAll(keys, gates)[i]
      ensures PairsOf(PrintAll(keys, gates), '=')[i] == Some(Pair(keys[i], BoolToStr(gates[keys[i]])))
    {
      assert keys[i] in keys;
      ParsePrintedGate(keys[i], gates[keys[i]]);
    }
  }

  /** Every result that `AddFeatureGateString` may have obeys the update law. */
  ghost predicate UpdateLaw(featureGates: string, key: string, value: bool) {
    forall s | Prints(s, Gates(featureGates)[key := value]) :: Gates(s) == Gates(featureGates)[key := value]
  }

  /** Parsing the updated string is updating the parsed string, for every gate string and value
      and every iteration order, exactly when the key is trimmed and has no ',' and no '='. */
  lemma UpdateLawIffCleanKey(featureGates: string, key: string, value: bool)
    ensures UpdateLaw(featureGates, key, value) <==> CleanKey(key)
  {
    var updated := Gates(featureGates)[key := value];
    if CleanKey(key) {
      forall s | Prints(s, updated) ensures Gates(s) == updated {
        forall k | k in updated ensures CleanKey(k) {
          if k != key {
            ParsedKeysAreClean(featureGates, k);
          }
        }
        assert key in updated;
        PrintedGatesParseBack(s, updated);
      }
    } else {
      var keys := SomeOrder(updated.Keys);
      var s := Join(PrintAll(keys, updated), ',');
      assert Lists(keys, updated);
      assert Prints(s, updated);
      if key in Gates(s) {
        ParsedKeysAreClean(s, key);
      }
      assert key in updated;
    }
  }

  // ---------------------------------------------------------------------------------------
  // The configuration fix-up
  // ---------------------------------------------------------------------------------------

  const FEATURE_GATES := "--feature-gates"
  const DYNAMIC_CONFIG_DIR := "--dynamic-config-dir"
  const DYNAMIC_KUBELET_CONFIG := "DynamicKubeletConfig"

  function GatesOf(flags: map<string, string>): map<string, bool> {
    Gates(if FEATURE_GATES in flags then flags[FEATURE_GATES] else "")
  }

  /** What the fix-up makes of the flags: the dynamic directory is gone, the dynamic gate is
      off, and every other flag and gate is as before. */
  ghost predicate FixedUp(before: map<string, string>, after: map<string, string>) {
    && after.Keys == before.Keys - {DYNAMIC_CONFIG_DIR} + {FEATURE_GATES}
    && (forall f | f in after && f != FEATURE_GATES :: after[f] == before[f])
    && GatesOf(after) == GatesOf(before)[DYNAMIC_KUBELET_CONFIG := false]
  }

  /** The part of the configuration that the fix-up reads and writes. A nil Go map is None. */
  class NodeBootstrappingConfiguration {
    var kubeletConfig: Option<map<string, string>>
    const kubeletConfigFileEnabled: bool

    constructor (kubeletConfig: Option<map<string, string>>, kubeletConfigFileEnabled: bool)
      ensures this.kubeletConfig == kubeletConfig
      ensures this.kubeletConfigFileEnabled == kubeletConfigFileEnabled
    {
      this.kubeletConfig, this.kubeletConfigFileEnabled := kubeletConfig, kubeletConfigFileEnabled;
    }

    method ValidateAndSetLinux()
      modifies this
      ensures kubeletConfig.Some? <==> old(kubeletConfig).Some?
      ensures !kubeletConfigFileEnabled ==> kubeletConfig == old(kubeletConfig)
      ensures kubeletConfigFileEnabled && kubeletConfig.Some? ==>
                FixedUp(old(kubeletConfig).value, kubeletConfig.value)
    {
      if kubeletConfigFileEnabled {
        if kubeletConfig.Some? {
          var kubeletFlags := kubeletConfig.value;
          kubeletFlags := kubeletFlags - {DYNAMIC_CONFIG_DIR};
          var gates := if FEATURE_GATES in kubeletFlags then kubeletFlags[FEATURE_GATES] else "";
          var added := AddFeatureGateString(gates, DYNAMIC_KUBELET_CONFIG, false);
          DynamicGateIsClean();
          UpdateLawIffCleanKey(gates, DYNAMIC_KUBELET_CONFIG, false);
          kubeletConfig := Some(kubeletFlags[FEATURE_GATES := added]);
        }
      }
    }
  }

  lemma DynamicGateIsClean()
    ensures CleanKey(DYNAMIC_KUBELET_CONFIG)
  {}

  /** The flags by their names. */
  lemma DynamicIsOff(before: map<string, string>, after: map<string, string>)
    requires FixedUp(before, after)
    ensures "--dynamic-config-dir" !in after && "--feature-gates" in after
    ensures var gates := Gates(after["--feature-gates"]);
            "DynamicKubeletConfig" in gates && !gates["DynamicKubeletConfig"]
  {
    var gates := GatesOf(before)[DYNAMIC_KUBELET_CONFIG := false];
    assert GatesOf(after) == gates;
  }

  /** Running the fix-up again changes nothing but the order in which the gates are printed. */
  lemma FixUpIsIdempotent(first: map<string, string>, once: map<string, string>, twice: map<string, string>)
    requires FixedUp(first, once) && FixedUp(once, twice)
    ensures twice.Keys == once.Keys && GatesOf(twice) == GatesOf(once)
    ensures forall f | f in once && f != FEATURE_GATES :: twice[f] == once[f]
  {
    SetTwice(GatesOf(first), GatesOf(once), GatesOf(twice), DYNAMIC_KUBELET_CONFIG);
    SameKeys(first.Keys, once.Keys, twice.Keys, DYNAMIC_CONFIG_DIR, FEATURE_GATES);
  }

  lemma SetTwice(a: map<string, bool>, b: map<string, bool>, c: map<string, bool>, key: string)
    requires b == a[key := false] && c == b[key := false]
    ensures c == b
  {}

  lemma SameKeys(a: set<string>, b: set<string>, c: set<string>, gone: string, added: string)
    requires b == a - {gone} + {added} && c == b - {gone} + {added}
    ensures gone != added ==> c == b
  {}
}
