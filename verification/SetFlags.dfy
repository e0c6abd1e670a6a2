/** The `--set` flag of `pkg/aks-engine/engine/transform/apimodel_merger.go`: parsing
    key/value pairs, and collecting the values of several flags. */
module SetFlags {
  import opened Basics
  import opened Text

  /** The parser's variables. `pushed` are the pairs stored so far, in order of storing. */
  datatype Parser = Parser(
    inQuoteLiteral: bool, inDblQuoteLiteral: bool, inKey: bool,
    currentKey: string, currentValue: string, pushed: seq<Pair>)
  {
    predicate InLiteral() {
      inQuoteLiteral || inDblQuoteLiteral
    }

    function Pending(): Pair {
      Pair(currentKey, currentValue)
    }

    /** All pairs, with the one that is pushed after the last character. */
    function All(): seq<Pair> {
      if currentKey != "" then pushed + [Pending()] else pushed
    }
  }

  const START := Parser(false, false, true, "", "", [])

  function Step(p: Parser, c: char): Parser {
    match c
    case '\'' =>
      if !p.inQuoteLiteral && !p.inDblQuoteLiteral then p.(inQuoteLiteral := true, inKey := false)
      else if p.inQuoteLiteral then p.(inQuoteLiteral := false, inKey := true)
      else p
    case '"' =>
      if !p.inDblQuoteLiteral && !p.inQuoteLiteral then p.(inDblQuoteLiteral := true, inKey := false)
      else if p.inDblQuoteLiteral then p.(inDblQuoteLiteral := false, inKey := true)
      else p
    case ',' =>
      if p.InLiteral() then p.(currentValue := p.currentValue + ",")
      else p.(pushed := p.pushed + [p.Pending()], currentKey := "", currentValue := "", inKey := true)
    case '=' =>
      if p.InLiteral() || !p.inKey then p.(currentValue := p.currentValue + "=")
      else p.(inKey := false)
    case _ =>
      if p.inKey then p.(currentKey := p.currentKey + [c])
      else p.(currentValue := p.currentValue + [c])
  }

  function Run(p: Parser, s: string): Parser
    decreases |s|
  {
    if s == "" then p else Run(Step(p, s[0]), s[1..])
  }

  /** The map a `--set` literal stands for. */
  function Parse(literal: string): map<string, string> {
    LastWins(Run(START, literal).All())
  }

  /** `parseKeyValuePairs` */
  method ParseKeyValuePairs(literal: string) returns (kvpMap: map<string, string>)
    ensures kvpMap == Parse(literal)
  {
    var inQuoteLiteral, inDblQuoteLiteral, inKey := false, false, true;
    kvpMap := map[];
    var currentKey, currentValue := "", "";
    ghost var pushed: seq<Pair> := [];
    for i := 0 to |literal|
      invariant kvpMap == LastWins(pushed)
      invariant Run(Parser(inQuoteLiteral, inDblQuoteLiteral, inKey, currentKey, currentValue, pushed), literal[i..])
             == Run(START, literal)
    {
      var literalChar := literal[i];
      assert literal[i..][0] == literalChar && literal[i..][1..] == literal[i + 1..];
      match literalChar {
        case '\'' =>
          if !inQuoteLiteral && !inDblQuoteLiteral {
            inQuoteLiteral := true;
            inKey := false;
          } else if inQuoteLiteral {
            inQuoteLiteral := false;
            inKey := true;
          }
        case '"' =>
          if !inDblQuoteLiteral && !inQuoteLiteral {
            inDblQuoteLiteral := true;
            inKey := false;
          } else if inDblQuoteLiteral {
            inDblQuoteLiteral := false;
            inKey := true;
          }
        case ',' =>
          if inQuoteLiteral || inDblQuoteLiteral {
            currentValue := currentValue + [literalChar];
          } else {
            LastWinsSnoc(pushed, Pair(currentKey, currentValue));
            pushed := pushed + [Pair(currentKey, currentValue)];
            kvpMap := kvpMap[currentKey := currentValue];
            currentKey := "";
            currentValue := "";
            inKey := true;
          }
        case '=' =>
          if inQuoteLiteral || inDblQuoteLiteral || !inKey {
            currentValue := currentValue + [literalChar];
          } else {
            inKey := false;
          }
        case _ =>
          if inKey {
            currentKey := currentKey + [literalChar];
          } else {
            currentValue := currentValue + [literalChar];
          }
      }
    }
    if currentKey != "" {
      LastWinsSnoc(pushed, Pair(currentKey, currentValue));
      kvpMap := kvpMap[currentKey := currentValue];
    }
  }

  // ---------------------------------------------------------------------------------------
  // The state machine
  // ---------------------------------------------------------------------------------------

  lemma {:induction false} RunConcat(p: Parser, a: string, b: string)
    ensures Run(p, a + b) == Run(Run(p, a), b)
    decreases |a|
  {
    if a == "" {
      assert a + b == b;
    } else {
      assert (a + b)[1..] == a[1..] + b;
      RunConcat(Step(p, a[0]), a[1..], b);
    }
  }

  /** Never in both kinds of literal, and never in a literal and a key at once. */
  predicate QuoteInv(p: Parser) {
    !(p.inQuoteLiteral && p.inDblQuoteLiteral) && (p.InLiteral() ==> !p.inKey)
  }

  lemma {:induction false} QuoteInvAlways(p: Parser, s: string)
    requires QuoteInv(p)
    ensures QuoteInv(Run(p, s))
    decreases |s|
  {
    if s != "" {
      QuoteInvAlways(Step(p, s[0]), s[1..]);
    }
  }

  predicate Ordinary(c: char) {
    c != '\'' && c != '"' && c != ',' && c != '='
  }

  /** The characters of a text that have no meaning to the parser. */
  function OrdinaryOf(s: string): string {
    if s == "" then "" else (if Ordinary(s[0]) then [s[0]] else "") + OrdinaryOf(s[1..])
  }

  lemma {:induction false} OrdinaryConcat(a: string, b: string)
    ensures OrdinaryOf(a + b) == OrdinaryOf(a) + OrdinaryOf(b)
  {
    if a == "" {
      assert a + b == b;
    } else {
      assert (a + b)[1..] == a[1..] + b;
      OrdinaryConcat(a[1..], b);
      ConcatAssoc(if Ordinary(a[0]) then [a[0]] else "", OrdinaryOf(a[1..]), OrdinaryOf(b));
    }
  }

  function PairContent(pair: Pair): multiset<char> {
    multiset(OrdinaryOf(pair.key)) + multiset(OrdinaryOf(pair.value))
  }

  /** The ordinary characters of all keys and values. */
  function Content(pairs: seq<Pair>): multiset<char> {
    if pairs == [] then multiset{}
    else Content(pairs[..|pairs| - 1]) + PairContent(pairs[|pairs| - 1])
  }

  lemma ContentSnoc(pairs: seq<Pair>, pair: Pair)
    ensures Content(pairs + [pair]) == Content(pairs) + PairContent(pair)
  {
    assert (pairs + [pair])[..|pairs|] == pairs;
  }

  /** The ordinary characters stored so far and pending. */
  function Held(p: Parser): multiset<char> {
    Content(p.pushed) + PairContent(p.Pending())
  }

  lemma AppendOrdinary(s: string, c: char)
    ensures multiset(OrdinaryOf(s + [c])) == multiset(OrdinaryOf(s)) + multiset(if Ordinary(c) then [c] else [])
  {
    OrdinaryConcat(s, [c]);
    assert [c][1..] == "";
  }

  /** A character is dropped, closes the pending pair, or goes to one end. */
  lemma StepShape(p: Parser, c: char)
    ensures var q := Step(p, c);
            || (!Ordinary(c) && q.pushed == p.pushed && q.Pending() == p.Pending())
            || (!Ordinary(c) && q.pushed == p.pushed + [p.Pending()] && q.Pending() == Pair("", ""))
            || (Ordinary(c) && q.pushed == p.pushed && q.Pending() == Pair(p.currentKey + [c], p.currentValue))
            || (q.pushed == p.pushed && q.Pending() == Pair(p.currentKey, p.currentValue + [c]))
  {}

  lemma StepConserves(p: Parser, c: char)
    ensures Held(Step(p, c)) == Held(p) + multiset(if Ordinary(c) then [c] else [])
  {
    StepShape(p, c);
    ContentSnoc(p.pushed, p.Pending());
    AppendOrdinary(p.currentKey, c);
    AppendOrdinary(p.currentValue, c);
    EmptyPairHasNothing();
  }

  lemma EmptyPairHasNothing()
    ensures PairContent(Pair("", "")) == multiset{}
  {}

  lemma {:induction false} NothingLostOnTheWay(p: Parser, s: string)
    ensures Held(Run(p, s)) == Held(p) + multiset(OrdinaryOf(s))
    decreases |s|
  {
    if s != "" {
      StepConserves(p, s[0]);
      NothingLostOnTheWay(Step(p, s[0]), s[1..]);
    }
  }

  /** Conservation: every ordinary character of the literal is in exactly one key or value, as
      often as it occurs, exactly when the last pair has a key or no ordinary character in its
      value. (A value without a key at the very end is dropped.) */
  lemma ConservationIff(literal: string)
    ensures var p := Run(START, literal);
            Content(p.All()) == multiset(OrdinaryOf(literal)) <==>
            p.currentKey != "" || OrdinaryOf(p.currentValue) == ""
  {
    var p := Run(START, literal);
    NothingLostOnTheWay(START, literal);
    ContentSnoc(p.pushed, p.Pending());
    assert PairContent(START.Pending()) == multiset{};
    var lost := OrdinaryOf(p.currentValue);
    if p.currentKey == "" {
      assert PairContent(p.Pending()) == multiset(lost);
      assert Content(p.pushed) + multiset(lost) == multiset(OrdinaryOf(literal));
      if lost != "" {
        assert multiset(lost)[lost[0]] > 0;
        assert Content(p.pushed)[lost[0]] < multiset(OrdinaryOf(literal))[lost[0]];
      }
    }
  }

  // ---------------------------------------------------------------------------------------
  // Printing and parsing
  // ---------------------------------------------------------------------------------------

  /** How a value is written: bare, or as a literal in single or double quotes. */
  datatype Quote = Bare | Single | Double
  {
    function Mark(): string {
      match this
      case Bare => ""
      case Single => "'"
      case Double => "\""
    }

    /** The values that can be written so. A bare value may hold an equals sign. */
    predicate Allows(value: string) {
      match this
      case Bare => ',' !in value && '\'' !in value && '"' !in value
      case Single => '\'' !in value
      case Double => '"' !in value
    }

    /** What the parser makes of the value: the other kind of quote vanishes from a literal. */
    function Seen(value: string): string {
      match this
      case Bare => value
      case Single => Without(value, '"')
      case Double => Without(value, '\'')
    }
  }

  /** A text without one of its characters. */
  function Without(s: string, c: char): string {
    if s == "" then "" else (if s[0] == c then "" else [s[0]]) + Without(s[1..], c)
  }

  lemma {:induction false} WithoutIff(s: string, c: char)
    ensures Without(s, c) == s <==> c !in s
    ensures c !in Without(s, c)
  {
    if s != "" {
      WithoutIff(s[1..], c);
      assert s == [s[0]] + s[1..];
    }
  }

  function PrintPair(pair: Pair, quote: Quote): string {
    pair.key + ("=" + (quote.Mark() + (pair.value + quote.Mark())))
  }

  function PrintPairs(pairs: seq<Pair>, quote: Quote): string {
    if pairs == [] then ""
    else if |pairs| == 1 then PrintPair(pairs[0], quote)
    else PrintPair(pairs[0], quote) + ("," + PrintPairs(pairs[1..], quote))
  }

  predicate PlainKey(key: string) {
    key != "" && forall i | 0 <= i < |key| :: Ordinary(key[i])
  }

  lemma {:induction false} RunOverKey(p: Parser, key: string, rest: string)
    requires p.inKey && !p.InLiteral() && forall i | 0 <= i < |key| :: Ordinary(key[i])
    ensures Run(p, key + rest) == Run(p.(currentKey := p.currentKey + key), rest)
    decreases |key|
  {
    if key == "" {
      assert key + rest == rest && p.currentKey + key == p.currentKey;
    } else {
      assert (key + rest)[1..] == key[1..] + rest;
      assert p.currentKey + [key[0]] + key[1..] == p.currentKey + key;
      RunOverKey(Step(p, key[0]), key[1..], rest);
    }
  }

  /** The parser is inside a value written in this way. */
  predicate Inside(p: Parser, quote: Quote) {
    !p.inKey && p.inQuoteLiteral == quote.Single? && p.inDblQuoteLiteral == quote.Double?
  }

  lemma ValueStep(p: Parser, quote: Quote, value: string)
    requires Inside(p, quote) && value != "" && quote.Allows(value)
    ensures Step(p, value[0]) == p.(currentValue := p.currentValue + quote.Seen(value[..1])) && quote.Allows(value[1..])
    ensures quote.Seen(value) == quote.Seen(value[..1]) + quote.Seen(value[1..])
  {
    var c := value[0];
    assert c in value && value[..1] == [c] && [c][1..] == "" && [c] + "" == [c];
    assert p.currentValue + ("" + "") == p.currentValue;
    match quote {
      case Bare =>
      case Single => assert Without([c], '"') == if c == '"' then "" else [c];
      case Double => assert Without([c], '\'') == if c == '\'' then "" else [c];
    }
    assert value == value[..1] + value[1..];
  }

  lemma {:induction false} RunOverValue(p: Parser, quote: Quote, value: string, rest: string)
    requires Inside(p, quote) && quote.Allows(value)
    ensures Run(p, value + rest) == Run(p.(currentValue := p.currentValue + quote.Seen(value)), rest)
    decreases |value|
  {
    if value == "" {
      assert value + rest == rest && p.currentValue + "" == p.currentValue;
    } else {
      assert (value + rest)[1..] == value[1..] + rest;
      ValueStep(p, quote, value);
      RunOverValue(Step(p, value[0]), quote, value[1..], rest);
      ConcatAssoc(p.currentValue, quote.Seen(value[..1]), quote.Seen(value[1..]));
    }
  }

  /** What the parser makes of one printed pair. */
  lemma RunOverPair(p: Parser, pair: Pair, quote: Quote, rest: string)
    requires p == START.(pushed := p.pushed)
    requires PlainKey(pair.key) && quote.Allows(pair.value)
    ensures Run(p, PrintPair(pair, quote) + rest) ==
            Run(p.(currentKey := pair.key, currentValue := quote.Seen(pair.value), inKey := !quote.Bare?), rest)
  {
    var tail := "=" + (quote.Mark() + (pair.value + (quote.Mark() + rest)));
    assert PrintPair(pair, quote) + rest == pair.key + tail;
    assert "" + pair.key == pair.key;
    RunOverKey(p, pair.key, tail);
    RunOverQuoted(p.(currentKey := pair.key), quote, pair.value, rest);
  }

  /** After the key: the equals sign, the value, and the end of its literal. */
  lemma RunOverQuoted(p: Parser, quote: Quote, value: string, rest: string)
    requires p.inKey && !p.InLiteral() && p.currentValue == "" && quote.Allows(value)
    ensures Run(p, "=" + (quote.Mark() + (value + (quote.Mark() + rest)))) ==
            Run(p.(currentValue := quote.Seen(value), inKey := !quote.Bare?), rest)
  {
    var s1 := quote.Mark() + rest;
    var s2 := value + s1;
    var s3 := quote.Mark() + s2;
    assert ("=" + s3)[1..] == s3;
    var p2 := p.(inKey := false, inQuoteLiteral := quote.Single?, inDblQuoteLiteral := quote.Double?);
    OverMark(p.(inKey := false), quote, s2);
    RunOverValue(p2, quote, value, s1);
    assert "" + quote.Seen(value) == quote.Seen(value);
    OffMark(p2.(currentValue := quote.Seen(value)), quote, rest);
  }

  lemma OverMark(p: Parser, quote: Quote, rest: string)
    requires Inside(p, Bare)
    ensures Run(p, quote.Mark() + rest) == Run(p.(inQuoteLiteral := quote.Single?, inDblQuoteLiteral := quote.Double?), rest)
  {
    if quote.Bare? {
      assert "" + rest == rest;
    } else {
      assert (quote.Mark() + rest)[1..] == rest;
    }
  }

  lemma OffMark(p: Parser, quote: Quote, rest: string)
    requires Inside(p, quote)
    ensures Run(p, quote.Mark() + rest) ==
            Run(p.(inQuoteLiteral := false, inDblQuoteLiteral := false, inKey := !quote.Bare?), rest)
  {
    if quote.Bare? {
      assert "" + rest == rest;
    } else {
      assert (quote.Mark() + rest)[1..] == rest;
    }
  }

  function SeenPairs(pairs: seq<Pair>, quote: Quote): (r: seq<Pair>)
    ensures |r| == |pairs|
  {
    seq(|pairs|, i requires 0 <= i < |pairs| => Pair(pairs[i].key, quote.Seen(pairs[i].value)))
  }

  predicate Printable(pairs: seq<Pair>, quote: Quote) {
    forall i | 0 <= i < |pairs| :: PlainKey(pairs[i].key) && quote.Allows(pairs[i].value)
  }

  lemma {:induction false} RunOverPairs(p: Parser, pairs: seq<Pair>, quote: Quote)
    requires p == START.(pushed := p.pushed) && Printable(pairs, quote)
    ensures Run(p, PrintPairs(pairs, quote)).All() == p.pushed + SeenPairs(pairs, quote)
    decreases |pairs|
  {
    if |pairs| == 1 {
      RunOverPair(p, pairs[0], quote, "");
      assert PrintPair(pairs[0], quote) + "" == PrintPair(pairs[0], quote);
    } else if |pairs| > 1 {
      var rest := "," + PrintPairs(pairs[1..], quote);
      RunOverPair(p, pairs[0], quote, rest);
      assert rest[1..] == PrintPairs(pairs[1..], quote);
      var next := p.(pushed := p.pushed + [SeenPairs(pairs, quote)[0]]);
      RunOverPairs(next, pairs[1..], quote);
      assert SeenPairs(pairs, quote) == [SeenPairs(pairs, quote)[0]] + SeenPairs(pairs[1..], quote);
    }
  }

  /** Printing pairs as k=v, k='v' or k="v" and parsing gives their last-wins map, but for quotes
      of the other kind in a literal: they vanish. */
  lemma PrintParse(pairs: seq<Pair>, quote: Quote)
    requires Printable(pairs, quote)
    ensures Parse(PrintPairs(pairs, quote)) == LastWins(SeenPairs(pairs, quote))
  {
    RunOverPairs(START, pairs, quote);
    assert [] + SeenPairs(pairs, quote) == SeenPairs(pairs, quote);
  }

  lemma {:induction false} LastWinsSeen(pairs: seq<Pair>, quote: Quote)
    ensures LastWins(SeenPairs(pairs, quote)).Keys == LastWins(pairs).Keys
    ensures forall k | k in LastWins(pairs) :: LastWins(SeenPairs(pairs, quote))[k] == quote.Seen(LastWins(pairs)[k])
  {
    if pairs != [] {
      var n := |pairs| - 1;
      assert SeenPairs(pairs, quote)[..n] == SeenPairs(pairs[..n], quote);
      LastWinsSeen(pairs[..n], quote);
    }
  }

  /** A quote of the other kind in a literal. */
  predicate HasOtherQuote(value: string, quote: Quote) {
    (quote.Single? && '"' in value) || (quote.Double? && '\'' in value)
  }

  /** The round trip is exact if and only if no winning value holds a quote of the other kind; for
      bare values it always is. */
  lemma RoundTripIff(pairs: seq<Pair>, quote: Quote)
    requires Printable(pairs, quote)
    ensures Parse(PrintPairs(pairs, quote)) == LastWins(pairs) <==>
            forall k | k in LastWins(pairs) :: !HasOtherQuote(LastWins(pairs)[k], quote)
  {
    PrintParse(pairs, quote);
    LastWinsSeen(pairs, quote);
    forall k | k in LastWins(pairs)
      ensures LastWins(SeenPairs(pairs, quote))[k] == LastWins(pairs)[k] <==> !HasOtherQuote(LastWins(pairs)[k], quote)
    {
      WithoutIff(LastWins(pairs)[k], '"');
      WithoutIff(LastWins(pairs)[k], '\'');
    }
  }

  // ---------------------------------------------------------------------------------------
  // Composition
  // ---------------------------------------------------------------------------------------

  lemma {:induction false} LastWinsConcat(a: seq<Pair>, b: seq<Pair>)
    ensures LastWins(a + b) == LastWins(a) + LastWins(b)
  {
    if b == [] {
      assert a + b == a;
    } else {
      var n := |b| - 1;
      assert a + b == a + b[..n] + [b[n]];
      LastWinsConcat(a, b[..n]);
      LastWinsSnoc(a + b[..n], b[n]);
    }
  }

  /** The pairs stored before do not influence the parser. */
  lemma {:induction false} PushedIsOutput(p: Parser, before: seq<Pair>, s: string)
    ensures Run(p.(pushed := before + p.pushed), s) == Run(p, s).(pushed := before + Run(p, s).pushed)
    decreases |s|
  {
    if s != "" {
      var next := Step(p, s[0]);
      assert before + (p.pushed + [p.Pending()]) == before + p.pushed + [p.Pending()];
      assert Step(p.(pushed := before + p.pushed), s[0]) == next.(pushed := before + next.pushed);
      PushedIsOutput(next, before, s[1..]);
    }
  }

  /** A comma outside a literal separates completely. */
  lemma ParseAtComma(s1: string, s2: string)
    requires !Run(START, s1).InLiteral()
    ensures var p := Run(START, s1);
            Parse(s1 + "," + s2) == LastWins(p.pushed)[p.currentKey := p.currentValue] + Parse(s2)
  {
    var p := Run(START, s1);
    var q := Run(START, s2);
    var before := p.pushed + [p.Pending()];
    assert s1 + "," + s2 == s1 + ("," + s2);
    RunConcat(START, s1, "," + s2);
    assert ("," + s2)[1..] == s2;
    assert before + [] == before;
    PushedIsOutput(START, before, s2);
    assert Run(START, s1 + "," + s2) == q.(pushed := before + q.pushed);
    assert Run(START, s1 + "," + s2).All() == before + q.All();
    LastWinsConcat(before, q.All());
    LastWinsSnoc(p.pushed, p.Pending());
  }

  /** After a part that ends outside a literal, parsing is compositional exactly when that part
      ends in a pair with a key, or the pair with the empty key that the comma stores is there
      anyway or is overridden. */
  lemma CompositionIff(s1: string, s2: string)
    requires !Run(START, s1).InLiteral()
    ensures var p := Run(START, s1);
            Parse(s1 + "," + s2) == Parse(s1) + Parse(s2) <==>
            p.currentKey != "" || "" in Parse(s2) || ("" in Parse(s1) && Parse(s1)[""] == p.currentValue)
  {
    var p := Run(START, s1);
    ParseAtComma(s1, s2);
    if p.currentKey != "" {
      LastWinsSnoc(p.pushed, p.Pending());
    } else {
      UpdateShows(Parse(s1), Parse(s2), "", p.currentValue);
    }
  }

  lemma UpdateShows<V(!new)>(a: map<string, V>, b: map<string, V>, key: string, v: V)
    ensures a[key := v] + b == a + b <==> key in b || (key in a && a[key] == v)
  {
    assert key in a[key := v] + b;
    if key !in b {
      assert (a[key := v] + b)[key] == v;
    }
  }

  // ---------------------------------------------------------------------------------------
  // MapValues
  // ---------------------------------------------------------------------------------------

  /** An array key `name[index].property`, as the regular expression takes a key apart. */
  datatype ArrayKey = ArrayKey(name: string, index: string, property: string)

  datatype APIModelValue =
    APIModelValue(value: Scalar, arrayValue: bool, arrayIndex: int, arrayProperty: string, arrayName: string)

  /** `strconv.ParseInt(s, 10, bits)` with `limit` = 2^(bits - 1): an optional sign, decimal digits,
      and a value that fits. */
  function ParseInt(s: string, limit: int): Option<int> {
    var negative := s != "" && s[0] == '-';
    var digits := if s != "" && (s[0] == '-' || s[0] == '+') then s[1..] else s;
    var size: int := DigitsValue(digits);
    var i := if negative then -size else size;
    if digits != "" && AllDigits(digits) && -limit <= i < limit then Some(i) else None
  }

  const INT64_LIMIT := 0x8000_0000_0000_0000
  const INT32_LIMIT := 0x8000_0000

  function ScalarOf(s: string): Scalar {
    if ParseInt(s, INT64_LIMIT).Some? then Integer(ParseInt(s, INT64_LIMIT).value)
    else if ParseBool(s).Some? then Boolean(ParseBool(s).value)
    else Text(s)
  }

  /** What is stored for a key; nothing for an array key whose index is no 32-bit number. */
  function Entry(arrayKey: Option<ArrayKey>, keyValue: string): Option<APIModelValue> {
    var value := ScalarOf(keyValue);
    match arrayKey
    case None => Some(APIModelValue(value, false, 0, "", ""))
    case Some(ArrayKey(name, index, property)) =>
      var i := ParseInt(index, INT32_LIMIT);
      if i.None? then None else Some(APIModelValue(value, true, i.value, property, name))
  }

  /** How a pair becomes an entry, given the regular expression's verdict on keys. */
  type EntryMaker = (string, string) -> Option<APIModelValue>

  function EntryOf(arrayKey: string -> Option<ArrayKey>): EntryMaker {
    (key, keyValue) => Entry(arrayKey(key), keyValue)
  }

  /** Whether a pair is stored depends on its key alone. */
  ghost predicate KeyDecides(entryOf: EntryMaker) {
    forall k, v, w :: entryOf(k, v).Some? <==> entryOf(k, w).Some?
  }

  lemma EntryKeyDecides(arrayKey: string -> Option<ArrayKey>)
    ensures KeyDecides(EntryOf(arrayKey))
  {
    var entryOf := EntryOf(arrayKey);
    forall k, v, w ensures entryOf(k, v).Some? <==> entryOf(k, w).Some? {
      EntrySomeByKey(arrayKey(k), v, w);
    }
  }

  lemma EntrySomeByKey(arrayKey: Option<ArrayKey>, v: string, w: string)
    ensures Entry(arrayKey, v).Some? <==> Entry(arrayKey, w).Some?
  {}

  /** The entries that one flag contributes. */
  function Entries(kvpMap: map<string, string>, entryOf: EntryMaker): map<string, APIModelValue> {
    map k | k in kvpMap && entryOf(k, kvpMap[k]).Some? :: entryOf(k, kvpMap[k]).value
  }

  /** The map after all flags: each flag's entries override those before. */
  function AfterFlags(m: map<string, APIModelValue>, flags: seq<string>, entryOf: EntryMaker): map<string, APIModelValue> {
    if flags == [] then m
    else AfterFlags(m, flags[..|flags| - 1], entryOf) + Entries(Parse(flags[|flags| - 1]), entryOf)
  }

  class ModelValues {
    var m: map<string, APIModelValue>
    const entryOf: EntryMaker

    constructor (arrayKey: string -> Option<ArrayKey>)
      ensures m == map[] && entryOf == EntryOf(arrayKey)
    {
      m, entryOf := map[], EntryOf(arrayKey);
    }

    /** `MapValues`: independent of the order in which Go ranges over a flag's pairs. */
    method MapValues(setFlagValues: seq<string>)
      modifies this
      ensures m == AfterFlags(old(m), setFlagValues, entryOf)
    {
      for j := 0 to |setFlagValues|
        invariant m == AfterFlags(old(m), setFlagValues[..j], entryOf)
      {
        assert setFlagValues[..j + 1][..j] == setFlagValues[..j];
        var kvpMap := ParseKeyValuePairs(setFlagValues[j]);
        AddPairs(kvpMap);
      }
      assert setFlagValues[..|setFlagValues|] == setFlagValues;
    }

    method AddPairs(kvpMap: map<string, string>)
      modifies this
      ensures m == old(m) + Entries(kvpMap, entryOf)
    {
      var todo := kvpMap.Keys;
      ghost var done: map<string, string> := map[];
      while todo != {}
        invariant todo <= kvpMap.Keys && done.Keys == kvpMap.Keys - todo
        invariant forall k | k in done :: done[k] == kvpMap[k]
        invariant m == old(m) + Entries(done, entryOf)
      {
        var key :| key in todo;
        todo := todo - {key};
        var entry := entryOf(key, kvpMap[key]);
        if entry.Some? {
          m := m[key := entry.value];
        }
        EntriesGrow(old(m), done, key, kvpMap[key], entryOf);
        done := done[key := kvpMap[key]];
      }
      assert done == kvpMap;
    }
  }

  lemma EntriesGrow(m: map<string, APIModelValue>, done: map<string, string>, key: string, val: string,
                    entryOf: EntryMaker)
    requires key !in done
    ensures m + Entries(done[key := val], entryOf) ==
            var entry := entryOf(key, val);
            if entry.Some? then (m + Entries(done, entryOf))[key := entry.value] else m + Entries(done, entryOf)
  {
    var more := done[key := val];
    assert forall k | k in more && k != key :: more[k] == done[k];
  }

  lemma EntriesOfUnion(a: map<string, string>, b: map<string, string>, entryOf: EntryMaker)
    requires KeyDecides(entryOf)
    ensures Entries(a + b, entryOf) == Entries(a, entryOf) + Entries(b, entryOf)
  {}

  lemma EntriesOfUpdate(a: map<string, string>, key: string, val: string, entryOf: EntryMaker)
    requires KeyDecides(entryOf)
    ensures Entries(a[key := val], entryOf) == Stored(Entries(a, entryOf), key, val, entryOf)
  {}

  /** One more pair is stored, if its key is. */
  function Stored(m: map<string, APIModelValue>, key: string, val: string, entryOf: EntryMaker): map<string, APIModelValue> {
    if entryOf(key, val).Some? then m[key := entryOf(key, val).value] else m
  }

  lemma AddUnion(m: map<string, APIModelValue>, a: map<string, string>, b: map<string, string>, entryOf: EntryMaker)
    requires KeyDecides(entryOf)
    ensures m + Entries(a, entryOf) + Entries(b, entryOf) == m + Entries(a + b, entryOf)
  {
    EntriesOfUnion(a, b, entryOf);
  }

  // ---------------------------------------------------------------------------------------
  // What one flag stores
  // ---------------------------------------------------------------------------------------

  /** `%d` */
  function PrintInt(i: int): string {
    if i < 0 then "-" + Decimal(-i) else Decimal(i)
  }

  lemma ReadInt(i: int, limit: int)
    requires -limit <= i < limit
    ensures ParseInt(PrintInt(i), limit) == Some(i)
  {
    var size: nat := if i < 0 then -i else i;
    DecimalValue(size);
    ReadDigits(Decimal(size), i < 0, limit);
  }

  lemma ReadDigits(digits: string, negative: bool, limit: int)
    requires digits != "" && AllDigits(digits)
    ensures var size: int := DigitsValue(digits);
            var i := if negative then -size else size;
            ParseInt(if negative then "-" + digits else digits, limit) == if -limit <= i < limit then Some(i) else None
  {
    assert digits[0] in digits;
    assert ("-" + digits)[1..] == digits;
  }

  /** A number in range becomes an integer, `true` and `false` a boolean, and what is neither
      number nor boolean stays a text. */
  lemma ScalarsAreRead(i: int, s: string)
    ensures -INT64_LIMIT <= i < INT64_LIMIT ==> ScalarOf(PrintInt(i)) == Integer(i)
    ensures ScalarOf("true") == Boolean(true) && ScalarOf("false") == Boolean(false)
    ensures s != "" && !IsDigit(s[0]) && s[0] != '-' && s[0] != '+' && ParseBool(s).None? ==> ScalarOf(s) == Scalar.Text(s)
  {
    if -INT64_LIMIT <= i < INT64_LIMIT {
      ReadInt(i, INT64_LIMIT);
    }
    assert 't' in "true" && 'f' in "false";
    if s != "" {
      assert s[0] in s;
    }
  }

  /** A flag of one pair, in any spelling, stores its value under its key if that is no array key. */
  lemma PlainFlagIsStored(m: map<string, APIModelValue>, pair: Pair, quote: Quote, arrayKey: string -> Option<ArrayKey>)
    requires PlainKey(pair.key) && quote.Allows(pair.value) && arrayKey(pair.key) == None
    ensures AfterFlags(m, [PrintPair(pair, quote)], EntryOf(arrayKey)) ==
            m[pair.key := APIModelValue(ScalarOf(quote.Seen(pair.value)), false, 0, "", "")]
  {
    OnePairFlag(m, pair, quote, EntryOf(arrayKey));
  }

  /** For an array key with a 32-bit index it stores the parts of the key, too. */
  lemma ArrayFlagIsStored(m: map<string, APIModelValue>, pair: Pair, quote: Quote, arrayKey: string -> Option<ArrayKey>, name: string, i: int, property: string)
    requires PlainKey(pair.key) && quote.Allows(pair.value) && -INT32_LIMIT <= i < INT32_LIMIT
    requires arrayKey(pair.key) == Some(ArrayKey(name, PrintInt(i), property))
    ensures AfterFlags(m, [PrintPair(pair, quote)], EntryOf(arrayKey)) ==
            m[pair.key := APIModelValue(ScalarOf(quote.Seen(pair.value)), true, i, property, name)]
  {
    ReadInt(i, INT32_LIMIT);
    OnePairFlag(m, pair, quote, EntryOf(arrayKey));
  }

  lemma OnePairFlag(m: map<string, APIModelValue>, pair: Pair, quote: Quote, entryOf: EntryMaker)
    requires PlainKey(pair.key) && quote.Allows(pair.value)
    ensures AfterFlags(m, [PrintPair(pair, quote)], entryOf) == Stored(m, pair.key, quote.Seen(pair.value), entryOf)
  {
    OnePairParse(pair, quote);
    AfterOneFlag(m, PrintPair(pair, quote), entryOf);
    OneEntry(m, pair.key, quote.Seen(pair.value), entryOf);
  }

  lemma OnePairParse(pair: Pair, quote: Quote)
    requires PlainKey(pair.key) && quote.Allows(pair.value)
    ensures Parse(PrintPair(pair, quote)) == map[pair.key := quote.Seen(pair.value)]
  {
    var seen := Pair(pair.key, quote.Seen(pair.value));
    PrintParse([pair], quote);
    assert SeenPairs([pair], quote) == [] + [seen];
    LastWinsSnoc([], seen);
  }

  lemma OneEntry(m: map<string, APIModelValue>, key: string, val: string, entryOf: EntryMaker)
    ensures m + Entries(map[key := val], entryOf) == Stored(m, key, val, entryOf)
  {}

  /** The flag ends outside a literal, in a pair with a key. */
  predicate EndsInPair(flag: string) {
    !Run(START, flag).InLiteral() && Run(START, flag).currentKey != ""
  }

  lemma {:induction false} AfterFirstFlag(m: map<string, APIModelValue>, flags: seq<string>, entryOf: EntryMaker)
    requires flags != []
    ensures AfterFlags(m, flags, entryOf) == AfterFlags(m + Entries(Parse(flags[0]), entryOf), flags[1..], entryOf)
  {
    var n := |flags| - 1;
    if n > 0 {
      assert flags[1..][..n - 1] == flags[..n][1..];
      AfterFirstFlag(m, flags[..n], entryOf);
    } else {
      assert flags[..0] == [];
    }
  }

  /** All flags but the last end outside a literal. */
  predicate EndOutside(flags: seq<string>) {
    forall i | 0 <= i < |flags| - 1 :: !Run(START, flags[i]).InLiteral()
  }

  /** The value without a key that is dropped at the end of some flag, but which joining the flags
      stores under the empty key, not overridden by a later part. */
  function StrayValue(flags: seq<string>): Option<string>
    requires flags != []
    decreases |flags|
  {
    if |flags| == 1 then None
    else if "" in Parse(Join(flags[1..], ',')) then StrayValue(flags[1..])
    else if Run(START, flags[0]).currentKey == "" then Some(Run(START, flags[0]).currentValue)
    else None
  }

  lemma JoinFirst(flags: seq<string>)
    requires |flags| > 1
    ensures Join(flags, ',') == flags[0] + "," + Join(flags[1..], ',')
  {}

  lemma StrayIsStored(flags: seq<string>)
    requires flags != [] && EndOutside(flags) && StrayValue(flags).Some?
    ensures "" in Parse(Join(flags, ','))
  {
    JoinFirst(flags);
    ParseAtComma(flags[0], Join(flags[1..], ','));
  }

  /** Parsing two parts together, in terms of the entries of each. */
  lemma JoinTwo(m: map<string, APIModelValue>, first: string, tail: string, entryOf: EntryMaker)
    requires !Run(START, first).InLiteral() && KeyDecides(entryOf)
    ensures var p := Run(START, first);
            var apart := m + Entries(Parse(first), entryOf) + Entries(Parse(tail), entryOf);
            m + Entries(Parse(first + "," + tail), entryOf) ==
            if p.currentKey != "" || "" in Parse(tail) then apart else Stored(apart, "", p.currentValue, entryOf)
  {
    var p := Run(START, first);
    ParseAtComma(first, tail);
    if p.currentKey != "" {
      LastWinsSnoc(p.pushed, p.Pending());
      AddUnion(m, Parse(first), Parse(tail), entryOf);
    } else {
      AddUnion(m, Parse(first)["" := p.currentValue], Parse(tail), entryOf);
      EntriesOfUpdate(Parse(first), "", p.currentValue, entryOf);
      LateUpdate(m, Entries(Parse(first), entryOf), Parse(tail), p.currentValue, entryOf);
    }
  }

  lemma LateUpdate(m: map<string, APIModelValue>, a: map<string, APIModelValue>, tail: map<string, string>, val: string, entryOf: EntryMaker)
    requires KeyDecides(entryOf)
    ensures var apart := m + a + Entries(tail, entryOf);
            m + Stored(a, "", val, entryOf) + Entries(tail, entryOf) ==
            if "" in tail then apart else Stored(apart, "", val, entryOf)
  {}

  /** Joining the flags stores what repeating them stores, and the stray value. */
  lemma {:induction false} JoinFlags(m: map<string, APIModelValue>, flags: seq<string>, entryOf: EntryMaker)
    requires flags != [] && EndOutside(flags) && KeyDecides(entryOf)
    ensures var stray := StrayValue(flags);
            AfterFlags(m, [Join(flags, ',')], entryOf) ==
            if stray.None? then AfterFlags(m, flags, entryOf)
            else Stored(AfterFlags(m, flags, entryOf), "", stray.value, entryOf)
    decreases |flags|
  {
    if |flags| == 1 {
      assert flags == [Join(flags, ',')];
    } else {
      var m1 := m + Entries(Parse(flags[0]), entryOf);
      var tail := Join(flags[1..], ',');
      AfterFirstFlag(m, flags, entryOf);
      JoinFlags(m1, flags[1..], entryOf);
      AfterOneFlag(m1, tail, entryOf);
      AfterOneFlag(m, Join(flags, ','), entryOf);
      JoinFirst(flags);
      JoinTwo(m, flags[0], tail, entryOf);
      if StrayValue(flags[1..]).Some? {
        StrayIsStored(flags[1..]);
      }
    }
  }

  /** Repeating `--set` is the same as giving it once with the parts joined by commas, when every
      part but the last ends outside a literal, exactly if joining stores no stray value under
      the empty key, or what the flags leave there anyway. */
  lemma RepeatedFlagsJoinIff(m: map<string, APIModelValue>, flags: seq<string>, arrayKey: string -> Option<ArrayKey>)
    requires flags != [] && EndOutside(flags)
    ensures var stray, repeated := StrayValue(flags), AfterFlags(m, flags, EntryOf(arrayKey));
            repeated == AfterFlags(m, [Join(flags, ',')], EntryOf(arrayKey)) <==>
            stray.None? || Entry(arrayKey(""), stray.value).None?
            || ("" in repeated && Some(repeated[""]) == Entry(arrayKey(""), stray.value))
  {
    EntryKeyDecides(arrayKey);
    JoinFlags(m, flags, EntryOf(arrayKey));
    var stray, repeated := StrayValue(flags), AfterFlags(m, flags, EntryOf(arrayKey));
    if stray.Some? {
      StoredShows(repeated, "", stray.value, EntryOf(arrayKey));
    }
  }

  lemma StoredShows(m: map<string, APIModelValue>, key: string, val: string, entryOf: EntryMaker)
    ensures Stored(m, key, val, entryOf) == m <==>
            entryOf(key, val).None? || (key in m && Some(m[key]) == entryOf(key, val))
  {}

  /** In particular, when every part but the last ends in a pair with a key. */
  lemma {:induction false} NoStrayValue(flags: seq<string>)
    requires flags != [] && forall i | 0 <= i < |flags| - 1 :: EndsInPair(flags[i])
    ensures EndOutside(flags) && StrayValue(flags).None?
    decreases |flags|
  {
    if |flags| > 1 {
      NoStrayValue(flags[1..]);
      assert EndsInPair(flags[0]);
    }
  }

  lemma RepeatedFlagsJoin(m: map<string, APIModelValue>, flags: seq<string>, arrayKey: string -> Option<ArrayKey>)
    requires flags != [] && forall i | 0 <= i < |flags| - 1 :: EndsInPair(flags[i])
    ensures AfterFlags(m, flags, EntryOf(arrayKey)) == AfterFlags(m, [Join(flags, ',')], EntryOf(arrayKey))
  {
    NoStrayValue(flags);
    RepeatedFlagsJoinIff(m, flags, arrayKey);
  }

  lemma AfterOneFlag(m: map<string, APIModelValue>, flag: string, entryOf: EntryMaker)
    ensures AfterFlags(m, [flag], entryOf) == m + Entries(Parse(flag), entryOf)
  {
    assert [flag][..0] == [];
  }
}
