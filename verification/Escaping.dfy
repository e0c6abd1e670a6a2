/** The custom-data pipeline of `pkg/agent/baker.go` and `pkg/agent/utils.go`: a text is escaped
    into one line, wrapped as `{"customData": "..."}` and later decoded from JSON. */
module Escaping {
  import opened Basics
  import opened Text

  // ---------------------------------------------------------------------------------------
  // escapeSingleLine
  // ---------------------------------------------------------------------------------------

  /** The four successive global replacements of `escapeSingleLine`. */
  function EscapeSingleLine(s: string): string {
    var s1 := ReplaceAll(s, "\\", "\\\\");
    var s2 := ReplaceAll(s1, "\r\n", "\\n");
    var s3 := ReplaceAll(s2, "\n", "\\n");
    ReplaceAll(s3, "\"", "\\\"")
  }

  predicate AtCrlf(s: string) {
    |s| >= 2 && s[0] == '\r' && s[1] == '\n'
  }

  /** The length of the first token of a text: CRLF is one token, else a character is. */
  function TokenLength(s: string): nat
    requires s != ""
  {
    if AtCrlf(s) then 2 else 1
  }

  /** What a token is escaped to. */
  function EscapeToken(s: string): string
    requires s != ""
  {
    if AtCrlf(s) || s[0] == '\n' then "\\n"
    else if s[0] == '\\' then "\\\\"
    else if s[0] == '"' then "\\\""
    else [s[0]]
  }

  /** The single pass over the text that the four replacements amount to. */
  function Escape(s: string): string {
    if s == "" then "" else EscapeToken(s) + Escape(s[TokenLength(s)..])
  }

  /** Replacing one character works on the parts of a text separately. */
  lemma {:induction false} ReplaceOneConcat(a: string, b: string, old_: string, new_: string)
    requires |old_| == 1
    ensures ReplaceAll(a + b, old_, new_) == ReplaceAll(a, old_, new_) + ReplaceAll(b, old_, new_)
    decreases |a|
  {
    if a == "" {
      assert a + b == b;
    } else {
      assert (a + b)[1..] == a[1..] + b;
      assert old_ <= a <==> old_ <= a + b;
      ReplaceOneConcat(a[1..], b, old_, new_);
    }
  }

  /** A replacement moves past a prefix that it does not touch. */
  lemma {:induction false} ReplaceSkips(prefix: string, rest: string, old_: string, new_: string)
    requires old_ != "" && old_[0] !in prefix
    ensures ReplaceAll(prefix + rest, old_, new_) == prefix + ReplaceAll(rest, old_, new_)
  {
    if prefix == "" {
      assert prefix + rest == rest;
    } else {
      var s := prefix + rest;
      assert s[0] == prefix[0] != old_[0];
      assert s[1..] == prefix[1..] + rest;
      ReplaceSkips(prefix[1..], rest, old_, new_);
    }
  }

  lemma Untouched(s: string, old_: string, new_: string)
    requires old_ != "" && old_[0] !in s
    ensures ReplaceAll(s, old_, new_) == s
  {
    ReplaceSkips(s, "", old_, new_);
    assert s + "" == s;
  }

  lemma Replaced(old_: string, new_: string)
    requires old_ != ""
    ensures ReplaceAll(old_, old_, new_) == new_
  {
    assert old_[|old_|..] == "" && new_ + "" == new_;
  }

  /** Replacing CRLF goes by tokens. */
  lemma CrlfStep(s: string, new_: string)
    requires s != ""
    ensures ReplaceAll(s, "\r\n", new_) ==
            (if AtCrlf(s) then new_ else [s[0]]) + ReplaceAll(s[TokenLength(s)..], "\r\n", new_)
  {
    if AtCrlf(s) {
      assert s[..2] == "\r\n";
    }
  }

  function CrlfByTokens(s: string, new_: string): string {
    if s == "" then ""
    else (if AtCrlf(s) then new_ else [s[0]]) + CrlfByTokens(s[TokenLength(s)..], new_)
  }

  lemma {:induction false} CrlfIsByTokens(s: string, new_: string)
    ensures ReplaceAll(s, "\r\n", new_) == CrlfByTokens(s, new_)
  {
    if s != "" {
      CrlfStep(s, new_);
      CrlfIsByTokens(s[TokenLength(s)..], new_);
    }
  }

  lemma CrlfHead(a: string, b: string, new_: string)
    requires a != "" && (a[|a| - 1] != '\r' || b == "" || b[0] != '\n')
    ensures CrlfByTokens(a + b, new_) ==
            (if AtCrlf(a) then new_ else [a[0]]) + CrlfByTokens(a[TokenLength(a)..] + b, new_)
  {
    assert AtCrlf(a + b) <==> AtCrlf(a);
    assert (a + b)[TokenLength(a)..] == a[TokenLength(a)..] + b;
  }

  lemma {:induction false} CrlfByTokensConcat(a: string, b: string, new_: string)
    requires a == "" || a[|a| - 1] != '\r' || b == "" || b[0] != '\n'
    ensures CrlfByTokens(a + b, new_) == CrlfByTokens(a, new_) + CrlfByTokens(b, new_)
    decreases |a|
  {
    if a == "" {
      assert a + b == b;
    } else {
      var tail := a[TokenLength(a)..];
      CrlfHead(a, b, new_);
      CrlfByTokensConcat(tail, b, new_);
      ConcatAssoc(if AtCrlf(a) then new_ else [a[0]], CrlfByTokens(tail, new_), CrlfByTokens(b, new_));
    }
  }

  /** Replacing CRLF works on the parts of a text separately, unless one lies across. */
  lemma CrlfConcat(a: string, b: string, new_: string)
    requires a == "" || a[|a| - 1] != '\r' || b == "" || b[0] != '\n'
    ensures ReplaceAll(a + b, "\r\n", new_) == ReplaceAll(a, "\r\n", new_) + ReplaceAll(b, "\r\n", new_)
  {
    CrlfIsByTokens(a, new_);
    CrlfIsByTokens(b, new_);
    CrlfIsByTokens(a + b, new_);
    CrlfByTokensConcat(a, b, new_);
  }

  /** After the first replacement a text starts with the same character as before. */
  lemma BackslashesKeepFirst(s: string)
    requires s != ""
    ensures ReplaceAll(s, "\\", "\\\\") != "" && ReplaceAll(s, "\\", "\\\\")[0] == s[0]
  {}

  /** The last three replacements leave a text alone that has none of their characters. */
  lemma LaterPasses(s: string)
    requires '\r' !in s && '\n' !in s && '"' !in s
    ensures ReplaceAll(ReplaceAll(ReplaceAll(s, "\r\n", "\\n"), "\n", "\\n"), "\"", "\\\"") == s
  {
    Untouched(s, "\r\n", "\\n");
    Untouched(s, "\n", "\\n");
    Untouched(s, "\"", "\\\"");
  }

  lemma EscapeOneToken(s: string)
    requires s != ""
    ensures EscapeSingleLine(s[..TokenLength(s)]) == EscapeToken(s)
  {
    var token := s[..TokenLength(s)];
    if token == "\\" {
      Replaced(token, "\\\\");
      LaterPasses("\\\\");
    } else {
      Untouched(token, "\\", "\\\\");
      EscapePlainToken(s);
    }
  }

  lemma EscapePlainToken(s: string)
    requires s != "" && s[0] != '\\'
    ensures ReplaceAll(ReplaceAll(ReplaceAll(s[..TokenLength(s)], "\r\n", "\\n"), "\n", "\\n"), "\"", "\\\"") == EscapeToken(s)
  {
    var token := s[..TokenLength(s)];
    if AtCrlf(s) {
      assert token == "\r\n";
      Replaced(token, "\\n");
      Untouched("\\n", "\n", "\\n");
      Untouched("\\n", "\"", "\\\"");
    } else {
      assert token == [s[0]];
      CrlfStep(token, "\\n");
      assert ReplaceAll(token, "\r\n", "\\n") == token;
      if s[0] == '\n' {
        Replaced(token, "\\n");
        Untouched("\\n", "\"", "\\\"");
      } else {
        Untouched(token, "\n", "\\n");
        if s[0] == '"' {
          Replaced(token, "\\\"");
        } else {
          Untouched(token, "\"", "\\\"");
        }
      }
    }
  }

  /** The four replacements handle the first token of a text on its own. */
  lemma FirstToken(s: string)
    requires s != ""
    ensures EscapeSingleLine(s) == EscapeSingleLine(s[..TokenLength(s)]) + EscapeSingleLine(s[TokenLength(s)..])
  {
    var token, rest := s[..TokenLength(s)], s[TokenLength(s)..];
    assert s == token + rest;
    ReplaceOneConcat(token, rest, "\\", "\\\\");
    var t1, r1 := ReplaceAll(token, "\\", "\\\\"), ReplaceAll(rest, "\\", "\\\\");
    assert t1 == "" || t1[|t1| - 1] != '\r' || r1 == "" || r1[0] != '\n' by {
      NoCrlfAcross(s);
    }
    CrlfConcat(t1, r1, "\\n");
    var t2, r2 := ReplaceAll(t1, "\r\n", "\\n"), ReplaceAll(r1, "\r\n", "\\n");
    ReplaceOneConcat(t2, r2, "\n", "\\n");
    var t3, r3 := ReplaceAll(t2, "\n", "\\n"), ReplaceAll(r2, "\n", "\\n");
    ReplaceOneConcat(t3, r3, "\"", "\\\"");
  }

  lemma NoCrlfAcross(s: string)
    requires s != ""
    ensures var t1 := ReplaceAll(s[..TokenLength(s)], "\\", "\\\\");
            var r1 := ReplaceAll(s[TokenLength(s)..], "\\", "\\\\");
            t1 == "" || t1[|t1| - 1] != '\r' || r1 == "" || r1[0] != '\n'
  {
    var token, rest := s[..TokenLength(s)], s[TokenLength(s)..];
    if token == "\\" {
      Replaced(token, "\\\\");
    } else {
      Untouched(token, "\\", "\\\\");
      if rest != "" {
        BackslashesKeepFirst(rest);
      }
    }
  }

  /** `escapeSingleLine` escapes each token on its own, in one pass. */
  lemma {:induction false} FourReplacementsAreOnePass(s: string)
    ensures EscapeSingleLine(s) == Escape(s)
  {
    if s != "" {
      FirstToken(s);
      EscapeOneToken(s);
      FourReplacementsAreOnePass(s[TokenLength(s)..]);
    }
  }

  // ---------------------------------------------------------------------------------------
  // Decoding JSON
  // ---------------------------------------------------------------------------------------

  function HexDigit(c: char): Option<nat> {
    if '0' <= c <= '9' then Some(c as int - '0' as int)
    else if 'a' <= c <= 'f' then Some(c as int - 'a' as int + 10)
    else if 'A' <= c <= 'F' then Some(c as int - 'A' as int + 10)
    else None
  }

  /** The code unit of the four hexadecimal digits that `s` starts with. */
  function CodeUnit(s: string): (r: Option<nat>)
    ensures r.Some? ==> |s| >= 4 && r.value < 0x1_0000
  {
    if |s| < 4 then None
    else
      var a, b, c, d := HexDigit(s[0]), HexDigit(s[1]), HexDigit(s[2]), HexDigit(s[3]);
      if a.Some? && b.Some? && c.Some? && d.Some? && a.value < 16 && b.value < 16 && c.value < 16 && d.value < 16
      then Some(((a.value * 16 + b.value) * 16 + c.value) * 16 + d.value)
      else None
  }

  /** A `\u` escape, given the text after the `u`: the character and the digits and escapes
      consumed. A surrogate pair is one character; half a pair decodes to U+FFFD. */
  function UnicodeEscape(s: string): (r: Option<(char, nat)>)
    ensures r.Some? ==> 4 <= r.value.1 <= |s|
  {
    var unit := CodeUnit(s);
    if unit.None? then None
    else if unit.value < 0xD800 || 0xE000 <= unit.value then Some((unit.value as char, 4))
    else
      var low := if "\\u" <= s[4..] then CodeUnit(s[6..]) else None;
      if unit.value < 0xDC00 && low.Some? && 0xDC00 <= low.value < 0xE000 then
        Some(((0x1_0000 + (unit.value - 0xD800) * 0x400 + (low.value - 0xDC00)) as char, 10))
      else Some(('\U{FFFD}', 4))
  }

  /** The one-character escapes of section 7 of RFC 8259. */
  function ShortEscape(c: char): Option<char> {
    match c
    case '"' => Some('"')
    case '\\' => Some('\\')
    case '/' => Some('/')
    case 'b' => Some('\U{8}')
    case 'f' => Some('\U{c}')
    case 'n' => Some('\n')
    case 'r' => Some('\r')
    case 't' => Some('\t')
    case _ => None
  }

  /** A JSON string (section 7 of RFC 8259), given the text after its opening quote: the decoded
      characters and the text after its closing quote. Control characters must be escaped. */
  function ScanString(s: string): (r: Option<(string, string)>)
    ensures r.Some? ==> |r.value.1| < |s|
  {
    if s == "" then None
    else if s[0] == '"' then Some(("", s[1..]))
    else if s[0] < ' ' then None
    else if s[0] != '\\' then Prepend(s[0], ScanString(s[1..]))
    else if |s| < 2 then None
    else if s[1] == 'u' then
      var u := UnicodeEscape(s[2..]);
      if u.None? then None else Prepend(u.value.0, ScanString(s[2 + u.value.1..]))
    else
      var e := ShortEscape(s[1]);
      if e.None? then None else Prepend(e.value, ScanString(s[2..]))
  }

  function Prepend(c: char, scanned: Option<(string, string)>): Option<(string, string)> {
    if scanned.None? then None else Some(([c] + scanned.value.0, scanned.value.1))
  }

  function SkipSpace(s: string): (r: string)
    ensures |r| <= |s|
  {
    if s != "" && (s[0] == ' ' || s[0] == '\t' || s[0] == '\n' || s[0] == '\r') then SkipSpace(s[1..]) else s
  }

  /** The members of an object of strings, from the opening quote of a member name on, with the
      text after the closing brace. A null value leaves the Go string empty; any other value
      that is not a string makes `json.Unmarshal` fail. */
  function ScanMembers(s: string, members: map<string, string>): Option<(map<string, string>, string)>
    decreases |s|
  {
    if s == "" || s[0] != '"' then None
    else
      var name := ScanString(s[1..]);
      if name.None? then None
      else
        var colon := SkipSpace(name.value.1);
        if colon == "" || colon[0] != ':' then None
        else
          var value := ScanValue(SkipSpace(colon[1..]));
          if value.None? then None
          else
            var extended := members[name.value.0 := value.value.0];
            var after := SkipSpace(value.value.1);
            if after == "" then None
            else if after[0] == '}' then Some((extended, after[1..]))
            else if after[0] == ',' then ScanMembers(SkipSpace(after[1..]), extended)
            else None
  }

  function ScanValue(s: string): (r: Option<(string, string)>)
    ensures r.Some? ==> |r.value.1| < |s|
  {
    if "null" <= s then Some(("", s[4..]))
    else if s != "" && s[0] == '"' then ScanString(s[1..])
    else None
  }

  /** `json.Unmarshal` into a `map[string]string`; None stands for an error. */
  function Unmarshal(text: string): Option<map<string, string>> {
    var s := SkipSpace(text);
    if "null" <= s then (if SkipSpace(s[4..]) == "" then Some(map[]) else None)
    else if s == "" || s[0] != '{' then None
    else
      var inside := SkipSpace(s[1..]);
      var scanned := if inside != "" && inside[0] == '}' then Some((map[], inside[1..])) else ScanMembers(inside, map[]);
      if scanned.None? || SkipSpace(scanned.value.1) != "" then None else Some(scanned.value.0)
  }

  /** `getCustomDataFromJSON`; None stands for its panic. */
  function GetCustomDataFromJSON(text: string): Option<string> {
    var members := Unmarshal(text);
    if members.None? then None
    else if "customData" in members.value then Some(members.value["customData"])
    else Some("")
  }

  /** `fmt.Sprintf("{\"customData\": \"%s\"}", str)` */
  function Wrap(str: string): string {
    "{\"customData\": \"" + str + "\"}"
  }

  // ---------------------------------------------------------------------------------------
  // The decoder against the grammar of section 7 of RFC 8259
  // ---------------------------------------------------------------------------------------

  /** The ways in which a JSON string may hold a character: itself, a one-character escape, the
      code of a character of the basic plane, or a surrogate pair, in hexadecimal digits of
      either case. */
  datatype Spelling = Raw | Short | Code(upper: bool) | Surrogates(upper: bool)

  function ShortLetter(c: char): Option<char> {
    match c
    case '"' => Some('"')
    case '\\' => Some('\\')
    case '/' => Some('/')
    case '\U{8}' => Some('b')
    case '\U{c}' => Some('f')
    case '\n' => Some('n')
    case '\r' => Some('r')
    case '\t' => Some('t')
    case _ => None
  }

  predicate CanSpell(c: char, how: Spelling) {
    match how
    case Raw => c >= ' ' && c != '"' && c != '\\'
    case Short => ShortLetter(c).Some?
    case Code(_) => c as int < 0x1_0000
    case Surrogates(_) => c as int >= 0x1_0000
  }

  function HexChar(digit: nat, upper: bool): char
    requires digit < 16
  {
    if digit < 10 then (digit + '0' as int) as char
    else (digit - 10 + if upper then 'A' as int else 'a' as int) as char
  }

  function Hex(n: nat, upper: bool): (s: string)
    requires n < 0x1_0000
    ensures |s| == 4
  {
    [HexChar(n / 0x1000, upper), HexChar(n / 0x100 % 16, upper), HexChar(n / 16 % 16, upper), HexChar(n % 16, upper)]
  }

  function Spell(c: char, how: Spelling): string
    requires CanSpell(c, how)
  {
    match how
    case Raw => [c]
    case Short => ['\\', ShortLetter(c).value]
    case Code(upper) => "\\u" + Hex(c as int, upper)
    case Surrogates(upper) =>
      var v := c as int - 0x1_0000;
      "\\u" + (Hex(0xD800 + v / 0x400, upper) + ("\\u" + Hex(0xDC00 + v % 0x400, upper)))
  }

  lemma HexDigitOf(digit: nat, upper: bool)
    requires digit < 16
    ensures HexDigit(HexChar(digit, upper)) == Some(digit)
  {}

  lemma HexSum(n: nat)
    requires n < 0x1_0000
    ensures ((n / 0x1000 * 16 + n / 0x100 % 16) * 16 + n / 16 % 16) * 16 + n % 16 == n
  {}

  lemma CodeUnitOf(n: nat, upper: bool, rest: string)
    requires n < 0x1_0000
    ensures CodeUnit(Hex(n, upper) + rest) == Some(n)
  {
    HexDigitOf(n / 0x1000, upper);
    HexDigitOf(n / 0x100 % 16, upper);
    HexDigitOf(n / 16 % 16, upper);
    HexDigitOf(n % 16, upper);
    HexSum(n);
  }

  lemma CodeIsRead(c: char, upper: bool, rest: string)
    requires c as int < 0x1_0000
    ensures UnicodeEscape(Hex(c as int, upper) + rest) == Some((c, 4))
  {
    CodeUnitOf(c as int, upper, rest);
  }

  lemma SurrogatesAreRead(c: char, upper: bool, rest: string)
    requires c as int >= 0x1_0000
    ensures var v := c as int - 0x1_0000;
            UnicodeEscape(Hex(0xD800 + v / 0x400, upper) + ("\\u" + (Hex(0xDC00 + v % 0x400, upper) + rest))) == Some((c, 10))
  {
    var v := c as int - 0x1_0000;
    var low := Hex(0xDC00 + v % 0x400, upper) + rest;
    var s := Hex(0xD800 + v / 0x400, upper) + ("\\u" + low);
    CodeUnitOf(0xD800 + v / 0x400, upper, "\\u" + low);
    CodeUnitOf(0xDC00 + v % 0x400, upper, rest);
    assert s[4..] == "\\u" + low && s[6..] == low;
    assert v / 0x400 * 0x400 + v % 0x400 == v;
  }

  lemma RawIsRead(c: char, rest: string)
    requires CanSpell(c, Raw)
    ensures ScanString([c] + rest) == Prepend(c, ScanString(rest))
  {
    assert ([c] + rest)[1..] == rest;
  }

  lemma ShortIsRead(c: char, rest: string)
    requires CanSpell(c, Short)
    ensures ScanString(['\\', ShortLetter(c).value] + rest) == Prepend(c, ScanString(rest))
  {
    var s := ['\\', ShortLetter(c).value] + rest;
    assert s[2..] == rest;
    assert ShortEscape(ShortLetter(c).value) == Some(c);
  }

  lemma UnicodeIsRead(c: char, digits: string, rest: string)
    requires UnicodeEscape(digits + rest) == Some((c, |digits|))
    ensures ScanString("\\u" + (digits + rest)) == Prepend(c, ScanString(rest))
  {
    var s := "\\u" + (digits + rest);
    assert s[2..] == digits + rest && s[2 + |digits|..] == rest;
  }

  /** Every spelling of a character is read as that character. */
  lemma SpellingIsRead(c: char, how: Spelling, rest: string)
    requires CanSpell(c, how)
    ensures ScanString(Spell(c, how) + rest) == Prepend(c, ScanString(rest))
  {
    match how
    case Raw => RawIsRead(c, rest);
    case Short => ShortIsRead(c, rest);
    case Code(upper) =>
      CodeIsRead(c, upper, rest);
      DigitsAreRead(c, Hex(c as int, upper), rest);
    case Surrogates(upper) => SurrogatesSpelled(c, upper, rest);
  }

  lemma SurrogatesSpelled(c: char, upper: bool, rest: string)
    requires c as int >= 0x1_0000
    ensures ScanString(Spell(c, Surrogates(upper)) + rest) == Prepend(c, ScanString(rest))
  {
    var v := c as int - 0x1_0000;
    var high, low := Hex(0xD800 + v / 0x400, upper), Hex(0xDC00 + v % 0x400, upper);
    var digits := high + ("\\u" + low);
    assert UnicodeEscape(digits + rest) == Some((c, |digits|)) by {
      SurrogatesAreRead(c, upper, rest);
      ThreeParts(high, "\\u", low, rest);
    }
    DigitsAreRead(c, digits, rest);
  }

  lemma DigitsAreRead(c: char, digits: string, rest: string)
    requires UnicodeEscape(digits + rest) == Some((c, |digits|))
    ensures ScanString("\\u" + digits + rest) == Prepend(c, ScanString(rest))
  {
    UnicodeIsRead(c, digits, rest);
    ConcatAssoc("\\u", digits, rest);
  }

  lemma ThreeParts(a: string, b: string, c: string, rest: string)
    ensures a + (b + c) + rest == a + (b + (c + rest))
  {}

  datatype Spelled = Spelled(c: char, how: Spelling)

  function SpellAll(chars: seq<Spelled>): string
    requires forall x | x in chars :: CanSpell(x.c, x.how)
  {
    if chars == [] then "" else Spell(chars[0].c, chars[0].how) + SpellAll(chars[1..])
  }

  function Characters(chars: seq<Spelled>): string {
    if chars == [] then "" else [chars[0].c] + Characters(chars[1..])
  }

  /** The decoder reads every text in every spelling, up to the closing quote. */
  lemma {:induction false} EverySpellingDecodes(chars: seq<Spelled>, rest: string)
    requires forall x | x in chars :: CanSpell(x.c, x.how)
    ensures ScanString(SpellAll(chars) + ("\"" + rest)) == Some((Characters(chars), rest))
  {
    if chars == [] {
      assert SpellAll(chars) + ("\"" + rest) == "\"" + rest;
      assert ("\"" + rest)[1..] == rest;
    } else {
      var tail := SpellAll(chars[1..]) + ("\"" + rest);
      assert SpellAll(chars) + ("\"" + rest) == Spell(chars[0].c, chars[0].how) + tail;
      SpellingIsRead(chars[0].c, chars[0].how, tail);
      EverySpellingDecodes(chars[1..], rest);
    }
  }

  // ---------------------------------------------------------------------------------------
  // Round trip
  // ---------------------------------------------------------------------------------------

  /** Every control character is part of a line break, LF or CRLF. */
  predicate OnlyLineBreaks(s: string) {
    forall i | 0 <= i < |s| && s[i] < ' ' ::
      s[i] == '\n' || (s[i] == '\r' && i + 1 < |s| && s[i + 1] == '\n')
  }

  /** `strings.Replace(s, "\r\n", "\n", -1)` */
  function NormalizeNewlines(s: string): string {
    ReplaceAll(s, "\r\n", "\n")
  }

  predicate TokenIsFine(s: string)
    requires s != ""
  {
    AtCrlf(s) || s[0] == '\n' || s[0] >= ' '
  }

  lemma OnlyLineBreaksByToken(s: string)
    requires s != ""
    ensures OnlyLineBreaks(s) <==> TokenIsFine(s) && OnlyLineBreaks(s[TokenLength(s)..])
  {
    var k := TokenLength(s);
    var rest := s[k..];
    if OnlyLineBreaks(s) {
      forall i | 0 <= i < |rest| && rest[i] < ' '
        ensures rest[i] == '\n' || (rest[i] == '\r' && i + 1 < |rest| && rest[i + 1] == '\n')
      {
        assert rest[i] == s[i + k];
      }
    }
    if TokenIsFine(s) && OnlyLineBreaks(rest) {
      forall i | 0 <= i < |s| && s[i] < ' '
        ensures s[i] == '\n' || (s[i] == '\r' && i + 1 < |s| && s[i + 1] == '\n')
      {
        if i >= k {
          assert s[i] == rest[i - k];
        }
      }
    }
  }

  /** Put decoded text before the rest of a string. */
  function PrependAll(text: string, scanned: Option<(string, string)>): Option<(string, string)> {
    if scanned.None? then None else Some((text + scanned.value.0, scanned.value.1))
  }

  lemma PrependNothing(scanned: Option<(string, string)>)
    ensures PrependAll("", scanned) == scanned
  {
    if scanned.Some? {
      assert "" + scanned.value.0 == scanned.value.0;
    }
  }

  lemma PrependTwice(a: string, b: string, scanned: Option<(string, string)>)
    ensures PrependAll(a, PrependAll(b, scanned)) == PrependAll(a + b, scanned)
  {
    if scanned.Some? {
      assert a + (b + scanned.value.0) == a + b + scanned.value.0;
    }
  }

  function NormalToken(s: string): string
    requires s != ""
  {
    if AtCrlf(s) then "\n" else [s[0]]
  }

  /** Scanning an escaped token gives the token back with its line break as LF, or fails on a
      stray control character. */
  lemma ScanToken(s: string, rest: string)
    requires s != ""
    ensures ScanString(EscapeToken(s) + rest) ==
            if TokenIsFine(s) then PrependAll(NormalToken(s), ScanString(rest)) else None
  {
    var text := EscapeToken(s) + rest;
    if |EscapeToken(s)| == 2 {
      assert text[2..] == rest;
    } else {
      assert text[1..] == rest;
    }
  }

  /** Scanning an escaped text inside a JSON string. */
  lemma {:induction false} ScanEscaped(s: string, rest: string)
    ensures ScanString(Escape(s) + rest) ==
            if OnlyLineBreaks(s) then PrependAll(NormalizeNewlines(s), ScanString(rest)) else None
  {
    if s == "" {
      assert Escape(s) + rest == rest;
      PrependNothing(ScanString(rest));
    } else {
      var tail := s[TokenLength(s)..];
      assert Escape(s) + rest == EscapeToken(s) + (Escape(tail) + rest);
      ScanToken(s, Escape(tail) + rest);
      OnlyLineBreaksByToken(s);
      ScanEscaped(tail, rest);
      CrlfStep(s, "\n");
      PrependTwice(NormalToken(s), NormalizeNewlines(tail), ScanString(rest));
    }
  }

  /** The wrapped object has one member whatever the string's content, if the string scans. */
  lemma UnmarshalWrapped(str: string)
    requires var scanned := ScanString(str + "\"}"); scanned.Some? ==> scanned.value.1 == "}"
    ensures var scanned := ScanString(str + "\"}");
            Unmarshal(Wrap(str)) ==
            if scanned.Some? then Some(map["customData" := scanned.value.0]) else None
  {
    var value := "\"" + (str + "\"}");
    var text := "\"" + ("customData" + ("\": " + value));
    assert Wrap(str) == "{" + text;
    assert value[1..] == str + "\"}";
    ScanOneMember(value);
    UnmarshalObject(text);
  }

  lemma UnmarshalObject(text: string)
    requires text != "" && text[0] == '"'
    requires var scanned := ScanMembers(text, map[]); scanned.Some? ==> scanned.value.1 == ""
    ensures Unmarshal("{" + text) ==
            var scanned := ScanMembers(text, map[]);
            if scanned.Some? then Some(scanned.value.0) else None
  {
    assert ("{" + text)[1..] == text;
    assert SkipSpace("{" + text) == "{" + text && SkipSpace(text) == text;
  }

  lemma ScanOneMember(value: string)
    requires value != "" && value[0] == '"'
    requires var scanned := ScanString(value[1..]); scanned.Some? ==> scanned.value.1 == "}"
    ensures ScanMembers("\"" + ("customData" + ("\": " + value)), map[]) ==
            var scanned := ScanString(value[1..]);
            if scanned.Some? then Some((map["customData" := scanned.value.0], "")) else None
  {
    var text := "customData" + ("\": " + value);
    ScanTheName(value);
    assert ("\"" + text)[1..] == text;
    ValueAfterColon(value);
    assert SkipSpace("}") == "}" && "}"[1..] == "";
  }

  lemma ValueAfterColon(value: string)
    requires value != "" && value[0] == '"'
    ensures SkipSpace(": " + value) == ": " + value
    ensures SkipSpace((": " + value)[1..]) == value && ScanValue(value) == ScanString(value[1..])
  {
    assert (": " + value)[1..] == " " + value;
    assert (" " + value)[1..] == value;
  }

  lemma ScanTheName(value: string)
    ensures ScanString("customData" + ("\": " + value)) == Some(("customData", ": " + value))
  {
    ScanPlainName("customData", "\": " + value);
    assert ("\": " + value)[1..] == ": " + value;
    assert "customData" + "" == "customData";
  }

  lemma {:induction false} ScanPlainName(name: string, rest: string)
    requires forall c | c in name :: c >= ' ' && c != '"' && c != '\\'
    ensures ScanString(name + rest) == PrependAll(name, ScanString(rest))
  {
    if name == "" {
      assert name + rest == rest;
      PrependNothing(ScanString(rest));
    } else {
      assert (name + rest)[1..] == name[1..] + rest;
      assert name[0] in name;
      forall c | c in name[1..] ensures c in name {}
      ScanPlainName(name[1..], rest);
      if ScanString(rest).Some? {
        assert [name[0]] + (name[1..] + ScanString(rest).value.0) == name + ScanString(rest).value.0;
      }
    }
  }

  /** Escaping, wrapping and decoding gives the text back with CRLF turned into LF, exactly when
      its only control characters are line breaks; otherwise `getCustomDataFromJSON` panics. No
      text can add a member to the object. */
  lemma CustomDataRoundTrip(s: string)
    ensures Unmarshal(Wrap(EscapeSingleLine(s))) ==
            if OnlyLineBreaks(s) then Some(map["customData" := NormalizeNewlines(s)]) else None
    ensures GetCustomDataFromJSON(Wrap(EscapeSingleLine(s))) ==
            if OnlyLineBreaks(s) then Some(NormalizeNewlines(s)) else None
  {
    FourReplacementsAreOnePass(s);
    ScanEscaped(s, "\"}");
    assert NormalizeNewlines(s) + "" == NormalizeNewlines(s);
    UnmarshalWrapped(Escape(s));
  }

  // ---------------------------------------------------------------------------------------
  // Substituting after escaping
  // ---------------------------------------------------------------------------------------

  const PLACEHOLDER := "PREPROVISION_EXTENSION"

  /** `getWindowsNodeCustomDataJSONObject` after template execution. */
  function WindowsCustomData(expandedTemplate: string, preprovisionCmd: string): string {
    var str := EscapeSingleLine(expandedTemplate);
    Wrap(ReplaceAll(str, PLACEHOLDER, EscapeSingleLine(TrimSpace(preprovisionCmd))))
  }

  /** No character of the text is escaped, none is a CR, and none occurs in an escape. */
  predicate Inert(p: string) {
    forall c | c in p :: c >= ' ' && c != '\\' && c != '"' && c != 'n'
  }

  lemma PrefixCons(p: string, w: string)
    requires p != ""
    ensures p <= [p[0]] + w <==> p[1..] <= w
  {
    assert p == [p[0]] + p[1..];
    assert ([p[0]] + w)[1..] == w;
  }

  /** Escaping neither destroys nor creates a leading inert text. */
  lemma {:induction false} InertPrefix(p: string, t: string)
    requires Inert(p)
    ensures p <= Escape(t) <==> p <= t
    ensures p <= t ==> Escape(t) == p + Escape(t[|p|..])
  {
    if p != "" && t != "" {
      assert p[0] in p;
      assert Escape(t)[0] == EscapeToken(t)[0];
      if p[0] == t[0] {
        var p', t' := p[1..], t[1..];
        assert Escape(t) == [t[0]] + Escape(t');
        forall c | c in p' ensures c in p {}
        InertPrefix(p', t');
        PrefixCons(p, t');
        PrefixCons(p, Escape(t'));
        assert t == [t[0]] + t' && p == [p[0]] + p';
        if p <= t {
          assert t[|p|..] == t'[|p'|..];
        }
      }
    }
  }

  /** A replacement replaces a leading occurrence. */
  lemma ReplaceHits(rest: string, old_: string, new_: string)
    requires old_ != ""
    ensures ReplaceAll(old_ + rest, old_, new_) == new_ + ReplaceAll(rest, old_, new_)
  {
    assert (old_ + rest)[|old_|..] == rest;
  }

  /** Replacing an inert text in an escaped text works token by token. */
  lemma ReplaceInEscaped(t: string, p: string, e: string)
    requires t != "" && p != "" && Inert(p)
    ensures ReplaceAll(Escape(t), p, e) ==
            if p <= t then e + ReplaceAll(Escape(t[|p|..]), p, e)
            else EscapeToken(t) + ReplaceAll(Escape(t[TokenLength(t)..]), p, e)
  {
    var rest := t[TokenLength(t)..];
    InertPrefix(p, t);
    assert p[0] in p;
    if p <= t {
      ReplaceHits(Escape(t[|p|..]), p, e);
    } else if |EscapeToken(t)| == 2 {
      ReplaceSkips(EscapeToken(t), Escape(rest), p, e);
    } else {
      assert Escape(t)[1..] == Escape(rest);
    }
  }

  /** Where the text does not start with `p`, its first character stays. */
  lemma KeepOne(t: string, p: string, c: string)
    requires t != "" && p != "" && !(p <= t)
    ensures ReplaceAll(t, p, c) == [t[0]] + ReplaceAll(t[1..], p, c)
    ensures Contains(t, p) <==> Contains(t[1..], p)
  {}

  /** Replacing an inert text in the raw text moves over the same tokens. */
  lemma ReplaceByToken(t: string, p: string, c: string)
    requires t != "" && p != "" && Inert(p) && !(p <= t)
    ensures ReplaceAll(t, p, c) == t[..TokenLength(t)] + ReplaceAll(t[TokenLength(t)..], p, c)
    ensures Contains(t, p) <==> Contains(t[TokenLength(t)..], p)
  {
    KeepOne(t, p, c);
    if AtCrlf(t) {
      assert p[0] in p;
      var u := t[1..];
      assert u[0] == '\n' && !(p <= u) && u[1..] == t[2..];
      KeepOne(u, p, c);
    }
  }

  lemma InertIsClean(p: string, t: string)
    requires Inert(p) && p <= t
    ensures OnlyLineBreaks(t) <==> OnlyLineBreaks(t[|p|..])
  {
    var rest := t[|p|..];
    assert t == p + rest;
    assert forall k | 0 <= k < |p| :: t[k] == p[k] && p[k] in p;
    if OnlyLineBreaks(rest) {
      forall i | 0 <= i < |t| && t[i] < ' '
        ensures t[i] == '\n' || (t[i] == '\r' && i + 1 < |t| && t[i + 1] == '\n')
      {
        if i >= |p| {
          assert t[i] == rest[i - |p|];
        }
      }
    }
    if OnlyLineBreaks(t) {
      forall i | 0 <= i < |rest| && rest[i] < ' '
        ensures rest[i] == '\n' || (rest[i] == '\r' && i + 1 < |rest| && rest[i + 1] == '\n')
      {
        assert rest[i] == t[i + |p|];
      }
    }
  }

  /** The substituted text is sound: what goes in raw comes out after escaping both parts. */
  predicate Substitutable(t: string, p: string, c: string) {
    OnlyLineBreaks(t) && (Contains(t, p) ==> OnlyLineBreaks(c))
  }

  /** Scanning the escaped template with the escaped command put in is scanning the raw template
      with the raw command put in. */
  predicate ScansAlike(t: string, p: string, c: string, rest: string)
    requires p != ""
  {
    ScanString(ReplaceAll(Escape(t), p, Escape(c)) + rest) ==
    if Substitutable(t, p, c) then PrependAll(NormalizeNewlines(ReplaceAll(t, p, c)), ScanString(rest)) else None
  }

  lemma PlaceholderEscaped(t: string, p: string, e: string, rest: string)
    requires p != "" && Inert(p) && p <= t
    ensures ReplaceAll(Escape(t), p, e) + rest == e + (ReplaceAll(Escape(t[|p|..]), p, e) + rest)
  {
    var more := Escape(t[|p|..]);
    assert Escape(t) == p + more by {
      InertPrefix(p, t);
    }
    ReplaceHits(more, p, e);
    ConcatAssoc(e, ReplaceAll(more, p, e), rest);
  }

  lemma PlaceholderRaw(t: string, p: string, c: string)
    requires p != "" && Trimmed(c) && p <= t
    ensures NormalizeNewlines(ReplaceAll(t, p, c))
         == NormalizeNewlines(c) + NormalizeNewlines(ReplaceAll(t[|p|..], p, c))
  {
    var raw := ReplaceAll(t[|p|..], p, c);
    assert ReplaceAll(t, p, c) == c + raw;
    TrimmedEnd(c);
    CrlfConcat(c, raw, "\n");
  }

  lemma TrimmedEnd(c: string)
    requires Trimmed(c)
    ensures c == "" || c[|c| - 1] != '\r'
  {}

  lemma ScanAtPlaceholder(t: string, p: string, c: string, rest: string)
    requires p != "" && Inert(p) && Trimmed(c) && p <= t
    requires ScansAlike(t[|p|..], p, c, rest)
    ensures ScansAlike(t, p, c, rest)
  {
    var t' := t[|p|..];
    var escaped, raw := ReplaceAll(Escape(t'), p, Escape(c)), ReplaceAll(t', p, c);
    PlaceholderEscaped(t, p, Escape(c), rest);
    PlaceholderRaw(t, p, c);
    assert Contains(t, p);
    InertIsClean(p, t);
    ScanEscaped(c, escaped + rest);
    PrependTwice(NormalizeNewlines(c), NormalizeNewlines(raw), ScanString(rest));
  }

  /** The escaped side of a token that is not the placeholder. */
  lemma EscapedSide(t: string, p: string, e: string, rest: string)
    requires p != "" && Inert(p) && t != "" && !(p <= t)
    ensures ScanString(ReplaceAll(Escape(t), p, e) + rest) ==
            if TokenIsFine(t)
            then PrependAll(NormalToken(t), ScanString(ReplaceAll(Escape(t[TokenLength(t)..]), p, e) + rest)) else None
  {
    var escaped := ReplaceAll(Escape(t[TokenLength(t)..]), p, e);
    ReplaceInEscaped(t, p, e);
    ScanTokenThen(t, escaped, rest);
  }

  lemma ScanTokenThen(t: string, more: string, rest: string)
    requires t != ""
    ensures ScanString(EscapeToken(t) + more + rest) ==
            if TokenIsFine(t) then PrependAll(NormalToken(t), ScanString(more + rest)) else None
  {
    assert EscapeToken(t) + more + rest == EscapeToken(t) + (more + rest);
    ScanToken(t, more + rest);
  }

  /** The raw side of a token that is not the placeholder. */
  lemma RawSide(t: string, p: string, c: string)
    requires p != "" && Inert(p) && t != "" && !(p <= t) && TokenIsFine(t)
    ensures NormalizeNewlines(ReplaceAll(t, p, c)) ==
            NormalToken(t) + NormalizeNewlines(ReplaceAll(t[TokenLength(t)..], p, c))
  {
    ReplaceByToken(t, p, c);
    CrlfConcat(t[..TokenLength(t)], ReplaceAll(t[TokenLength(t)..], p, c), "\n");
    NormalizeOneToken(t);
  }

  lemma ScanAtToken(t: string, p: string, c: string, rest: string)
    requires p != "" && Inert(p) && t != "" && !(p <= t)
    requires ScansAlike(t[TokenLength(t)..], p, c, rest)
    ensures ScansAlike(t, p, c, rest)
  {
    var t' := t[TokenLength(t)..];
    EscapedSide(t, p, Escape(c), rest);
    ReplaceByToken(t, p, c);
    OnlyLineBreaksByToken(t);
    if TokenIsFine(t) {
      RawSide(t, p, c);
      PrependTwice(NormalToken(t), NormalizeNewlines(ReplaceAll(t', p, c)), ScanString(rest));
    }
  }

  lemma {:induction false} ScanSubstituted(t: string, p: string, c: string, rest: string)
    requires p != "" && Inert(p) && Trimmed(c)
    ensures ScansAlike(t, p, c, rest)
    decreases |t|
  {
    if t == "" {
      assert ReplaceAll(Escape(t), p, Escape(c)) + rest == rest;
      PrependNothing(ScanString(rest));
    } else if p <= t {
      ScanSubstituted(t[|p|..], p, c, rest);
      ScanAtPlaceholder(t, p, c, rest);
    } else {
      ScanSubstituted(t[TokenLength(t)..], p, c, rest);
      ScanAtToken(t, p, c, rest);
    }
  }

  lemma NormalizeOneToken(t: string)
    requires t != ""
    ensures NormalizeNewlines(t[..TokenLength(t)]) == NormalToken(t)
  {
    var token := t[..TokenLength(t)];
    CrlfStep(token, "\n");
    assert AtCrlf(token) <==> AtCrlf(t);
    assert token[TokenLength(token)..] == "";
  }

  /** Substituting the escaped, trimmed command into the escaped template and decoding equals
      substituting the trimmed command into the raw template and turning CRLF into LF. It fails
      exactly when the template, or the command where it is used, has a stray control character. */
  lemma SubstitutionCommutes(expandedTemplate: string, preprovisionCmd: string)
    ensures var cmd := TrimSpace(preprovisionCmd);
            GetCustomDataFromJSON(WindowsCustomData(expandedTemplate, preprovisionCmd)) ==
            if Substitutable(expandedTemplate, PLACEHOLDER, cmd)
            then Some(NormalizeNewlines(ReplaceAll(expandedTemplate, PLACEHOLDER, cmd)))
            else None
  {
    var cmd := TrimSpace(preprovisionCmd);
    FourReplacementsAreOnePass(expandedTemplate);
    FourReplacementsAreOnePass(cmd);
    PlaceholderIsInert();
    SubstituteAndDecode(expandedTemplate, PLACEHOLDER, cmd);
  }

  lemma PlaceholderIsInert()
    ensures Inert(PLACEHOLDER)
  {}

  lemma SubstituteAndDecode(t: string, p: string, c: string)
    requires p != "" && Inert(p) && Trimmed(c)
    ensures Unmarshal(Wrap(ReplaceAll(Escape(t), p, Escape(c)))) ==
            if Substitutable(t, p, c)
            then Some(map["customData" := NormalizeNewlines(ReplaceAll(t, p, c))]) else None
  {
    ScanSubstituted(t, p, c, "\"}");
    assert "\"}"[1..] == "}";
    var text := NormalizeNewlines(ReplaceAll(t, p, c));
    assert text + "" == text;
    UnmarshalWrapped(ReplaceAll(Escape(t), p, Escape(c)));
  }
}
