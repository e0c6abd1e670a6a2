/** `normalizeResourceGroupNameForLabel` of `pkg/agent/baker.go`, which works on the bytes of a
    Go string, against the ARM template expression quoted above it, which works on characters. */
module Labels {

  type Byte = b: int | 0 <= b < 256

  // ---------------------------------------------------------------------------------------
  // UTF-8 (section 3 of RFC 3629)
  // ---------------------------------------------------------------------------------------

  function EncodeChar(c: char): (bytes: seq<Byte>)
    ensures 1 <= |bytes| <= 4
    ensures c < '\U{80}' ==> bytes == [c as int]
    ensures c >= '\U{80}' ==> |bytes| >= 2 && forall b | b in bytes :: b >= 0x80
  {
    var v := c as int;
    if v < 0x80 then [v]
    else if v < 0x800 then [0xC0 + v / 0x40, 0x80 + v % 0x40]
    else if v < 0x1_0000 then [0xE0 + v / 0x1000, 0x80 + v / 0x40 % 0x40, 0x80 + v % 0x40]
    else [0xF0 + v / 0x4_0000, 0x80 + v / 0x1000 % 0x40, 0x80 + v / 0x40 % 0x40, 0x80 + v % 0x40]
  }

  /** The character that an encoding stands for. */
  function DecodeBytes(bytes: seq<int>): int {
    match |bytes|
    case 1 => bytes[0]
    case 2 => bytes[0] % 0x20 * 0x40 + bytes[1] % 0x40
    case 3 => (bytes[0] % 0x10 * 0x40 + bytes[1] % 0x40) * 0x40 + bytes[2] % 0x40
    case 4 => ((bytes[0] % 0x8 * 0x40 + bytes[1] % 0x40) * 0x40 + bytes[2] % 0x40) * 0x40 + bytes[3] % 0x40
    case _ => -1
  }

  lemma Payload(v: nat)
    ensures v < 0x800 ==> (0xC0 + v / 0x40) % 0x20 == v / 0x40
    ensures v < 0x1_0000 ==> (0xE0 + v / 0x1000) % 0x10 == v / 0x1000
    ensures v < 0x20_0000 ==> (0xF0 + v / 0x4_0000) % 0x8 == v / 0x4_0000
    ensures (0x80 + v % 0x40) % 0x40 == v % 0x40
    ensures (0x80 + v / 0x40 % 0x40) % 0x40 == v / 0x40 % 0x40
    ensures (0x80 + v / 0x1000 % 0x40) % 0x40 == v / 0x1000 % 0x40
  {}

  lemma SixBits(v: nat)
    ensures v / 0x1000 == v / 0x40 / 0x40 && v / 0x4_0000 == v / 0x1000 / 0x40
  {}

  /** The encoding is that of the standard: its payload bits are the character, its length is
      that of the table, and its bytes after the first continue it. */
  lemma EncodingIsRead(c: char)
    ensures DecodeBytes(EncodeChar(c)) == c as int
    ensures |EncodeChar(c)| == if c < '\U{80}' then 1 else if c < '\U{800}' then 2 else if c as int < 0x1_0000 then 3 else 4
    ensures forall i | 1 <= i < |EncodeChar(c)| :: 0x80 <= EncodeChar(c)[i] < 0xC0
  {
    Payload(c as int);
    SixBits(c as int);
  }

  function Utf8(s: string): seq<Byte> {
    if s == "" then [] else Utf8(s[..|s| - 1]) + EncodeChar(s[|s| - 1])
  }

  predicate Ascii(s: string) {
    forall i | 0 <= i < |s| :: s[i] < '\U{80}'
  }

  // ---------------------------------------------------------------------------------------
  // The two definitions
  // ---------------------------------------------------------------------------------------

  const OPEN: Byte := 40
  const CLOSE: Byte := 41
  const DASH: Byte := 45
  const UNDERSCORE: Byte := 95
  const DOT: Byte := 46
  const LETTER_Z: Byte := 122

  /** `strings.ReplaceAll(s, x, y)` for one-byte texts. */
  function ReplaceByte(s: seq<Byte>, x: Byte, y: Byte): (r: seq<Byte>) {
    seq(|s|, i requires 0 <= i < |s| => if s[i] == x then y else s[i])
  }

  predicate EndsInMark(s: seq<Byte>) {
    s != [] && (s[|s| - 1] == DASH || s[|s| - 1] == UNDERSCORE || s[|s| - 1] == DOT)
  }

  /** `normalizeResourceGroupNameForLabel`. The result fits a Kubernetes label value at its end:
      at most 63 bytes, no parenthesis, and no trailing '-', '_' or '.'. */
  function NormalizeForLabel(resourceGroupName: seq<Byte>): (label_: seq<Byte>)
    ensures |label_| <= 63
    ensures OPEN !in label_ && CLOSE !in label_
    ensures !EndsInMark(label_)
    ensures label_ == [] <==> resourceGroupName == []
  {
    TruncateBytes(ReplaceByte(ReplaceByte(resourceGroupName, OPEN, DASH), CLOSE, DASH))
  }

  /** The second half of the function, after the replacements. */
  function TruncateBytes(bytes: seq<Byte>): seq<Byte> {
    var truncated := if |bytes| > 63 then bytes[..63] else bytes;
    if EndsInMark(truncated) then
      if |truncated| > 62 then truncated[..|truncated| - 1] + [LETTER_Z]
      else truncated + [LETTER_Z]
    else truncated
  }

  function ReplaceChar(s: string, x: char, y: char): string {
    seq(|s|, i requires 0 <= i < |s| => if s[i] == x then y else s[i])
  }

  /** ARM's `take` */
  function Take(s: string, n: nat): string {
    if |s| <= n then s else s[..n]
  }

  predicate EndsWith(s: string, c: char) {
    s != "" && s[|s| - 1] == c
  }

  predicate EndsInMarkChar(s: string) {
    EndsWith(s, '-') || EndsWith(s, '_') || EndsWith(s, '.')
  }

  function Dashed(name: string): string {
    ReplaceChar(ReplaceChar(name, '(', '-'), ')', '-')
  }

  /** `variables('labelResourceGroup')`, where `t` is `variables('truncatedResourceGroup')` */
  function ArmLabel(name: string): string {
    TruncateChars(Dashed(name))
  }

  function TruncateChars(dashed: string): string {
    var t := Take(dashed, 63);
    if EndsInMarkChar(t) then Take(t, 62) + "z" else t
  }

  // ---------------------------------------------------------------------------------------
  // Properties
  // ---------------------------------------------------------------------------------------

  /** The label is the beginning of the name with '(' and ')' as '-', and a 'z' at the end where the
      name has a mark there: instead of it when there are 63 bytes, else behind it. */
  lemma LabelShape(name: seq<Byte>)
    ensures var label_ := NormalizeForLabel(name);
            var n := if |name| < 63 then |name| else 63;
            && n <= |label_| <= n + 1
            && (forall i | 0 <= i < n ::
                  label_[i] == (if name[i] == 40 || name[i] == 41 then 45 else name[i]) || (i == 62 && label_[i] == 122))
            && (|label_| == n + 1 ==> label_[n] == 122 && n < 63)
            && (n > 0 && name[n - 1] != 40 && name[n - 1] != 41 && name[n - 1] != 45 && name[n - 1] != 46 && name[n - 1] != 95
                ==> |label_| == n && label_[n - 1] == name[n - 1])
  {}

  /** Normalising a label changes nothing. */
  lemma NormalizeIsIdempotent(name: seq<Byte>)
    ensures NormalizeForLabel(NormalizeForLabel(name)) == NormalizeForLabel(name)
  {
    var l := NormalizeForLabel(name);
    assert ReplaceByte(l, OPEN, DASH) == l;
    assert ReplaceByte(l, CLOSE, DASH) == l;
  }

  lemma {:induction false} Utf8Concat(a: string, b: string)
    ensures Utf8(a + b) == Utf8(a) + Utf8(b)
  {
    if b == "" {
      assert a + b == a;
    } else {
      assert (a + b)[..|a + b| - 1] == a + b[..|b| - 1];
      Utf8Concat(a, b[..|b| - 1]);
    }
  }

  lemma {:induction false} Utf8Length(s: string)
    ensures |Utf8(s)| >= |s|
    ensures |Utf8(s)| == |s| <==> Ascii(s)
  {
    if s != "" {
      var n := |s| - 1;
      assert s == s[..n] + [s[n]];
      Utf8Length(s[..n]);
    }
  }

  lemma ReplaceInChar(c: char, x: char, y: char)
    requires x < '\U{80}' && y < '\U{80}'
    ensures ReplaceByte(EncodeChar(c), x as int, y as int) == EncodeChar(if c == x then y else c)
  {
    if c >= '\U{80}' {
      assert forall i | 0 <= i < |EncodeChar(c)| :: EncodeChar(c)[i] in EncodeChar(c);
    }
  }

  lemma {:induction false} ReplaceCommutes(s: string, x: char, y: char)
    requires x < '\U{80}' && y < '\U{80}'
    ensures Utf8(ReplaceChar(s, x, y)) == ReplaceByte(Utf8(s), x as int, y as int)
  {
    if s != "" {
      var n := |s| - 1;
      var r := ReplaceChar(s, x, y);
      assert r[..n] == ReplaceChar(s[..n], x, y);
      ReplaceCommutes(s[..n], x, y);
      ReplaceInChar(s[n], x, y);
    }
  }

  lemma Utf8Last(s: string)
    requires s != ""
    ensures Utf8(s) != []
    ensures var last := Utf8(s)[|Utf8(s)| - 1];
            if s[|s| - 1] < '\U{80}' then last == s[|s| - 1] as int else last >= 0x80
  {
    var bytes := EncodeChar(s[|s| - 1]);
    assert bytes[|bytes| - 1] in bytes;
  }

  lemma MarksAgree(s: string)
    ensures EndsInMark(Utf8(s)) <==> EndsInMarkChar(s)
  {
    if s != "" {
      Utf8Last(s);
    }
  }

  lemma DashedBytes(name: string)
    ensures ReplaceByte(ReplaceByte(Utf8(name), OPEN, DASH), CLOSE, DASH) == Utf8(Dashed(name))
    ensures |Dashed(name)| == |name| && forall i | 0 <= i < |name| :: Dashed(name)[i] < '\U{80}' <==> name[i] < '\U{80}'
    ensures |Utf8(Dashed(name))| == |Utf8(name)|
  {
    ReplaceCommutes(name, '(', '-');
    ReplaceCommutes(ReplaceChar(name, '(', '-'), ')', '-');
  }

  lemma {:induction false} AsciiTake(s: string, n: nat)
    requires Ascii(Take(s, n))
    ensures (if |Utf8(s)| > n then Utf8(s)[..n] else Utf8(s)) == Utf8(Take(s, n))
  {
    Utf8Length(Take(s, n));
    if |s| > n {
      assert s == s[..n] + s[n..];
      Utf8Concat(s[..n], s[n..]);
      Utf8Length(s);
    }
  }

  lemma TailsOnAscii(d: string)
    requires Ascii(Take(d, 63))
    ensures TruncateBytes(Utf8(d)) == Utf8(TruncateChars(d))
  {
    var t := Take(d, 63);
    AsciiTake(d, 63);
    MarksAgree(t);
    Utf8Length(t);
    if EndsInMarkChar(t) {
      assert Ascii(Take(t, 62));
      AsciiTake(t, 62);
      Utf8Concat(Take(t, 62), "z");
      assert Utf8("z") == [LETTER_Z];
    }
  }

  lemma TailsOnShort(d: string)
    requires |Utf8(d)| <= 63
    requires |Utf8(d)| == 63 ==> !EndsInMarkChar(d)
    ensures TruncateBytes(Utf8(d)) == Utf8(TruncateChars(d))
  {
    Utf8Length(d);
    MarksAgree(d);
    if EndsInMarkChar(d) {
      Utf8Concat(d, "z");
      assert Utf8("z") == [LETTER_Z];
    }
  }

  /** A text with more than 63 bytes in its first 63 characters stays longer than 63 bytes. */
  lemma TruncateCharsIsLong(d: string)
    requires |Utf8(Take(d, 63))| > 63 || (|Utf8(d)| == 63 && |d| < 63 && EndsInMarkChar(d))
    ensures |Utf8(TruncateChars(d))| > 63
  {
    var t := Take(d, 63);
    if EndsInMarkChar(t) {
      Utf8Concat(Take(t, 62), "z");
      assert |Utf8("z")| == 1;
      if |t| == 63 {
        assert t == t[..62] + [t[62]];
        assert |Utf8(t)| == |Utf8(t[..62])| + 1;
      }
    }
  }

  lemma TailsDiffer(d: string)
    requires !Ascii(Take(d, 63)) && |Utf8(d)| >= 63
    requires |Utf8(d)| == 63 ==> EndsInMarkChar(d)
    ensures TruncateBytes(Utf8(d)) != Utf8(TruncateChars(d))
  {
    Utf8Length(d);
    Utf8Length(Take(d, 63));
    TruncateCharsIsLong(d);
    assert |TruncateBytes(Utf8(d))| <= 63;
  }

  /** The comment says that the Go function does the same processing as the ARM expression. It
      does exactly when the first 63 characters are ASCII, or the name is short in bytes: below
      63, or 63 without a trailing mark. In particular it does for all ASCII names. */
  lemma SameAsArmIff(name: string)
    ensures NormalizeForLabel(Utf8(name)) == Utf8(ArmLabel(name)) <==>
            Ascii(Take(name, 63)) || |Utf8(name)| < 63
            || (|Utf8(name)| == 63 && !EndsInMarkChar(Dashed(name)))
  {
    var d := Dashed(name);
    DashedBytes(name);
    assert Ascii(Take(name, 63)) <==> Ascii(Take(d, 63)) by {
      assert forall i | 0 <= i < |Take(name, 63)| :: Take(d, 63)[i] == d[i] && Take(name, 63)[i] == name[i];
    }
    if Ascii(Take(d, 63)) {
      TailsOnAscii(d);
    } else if |Utf8(d)| < 63 || (|Utf8(d)| == 63 && !EndsInMarkChar(d)) {
      TailsOnShort(d);
    } else {
      TailsDiffer(d);
    }
  }
}
