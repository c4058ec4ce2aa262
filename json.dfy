/**
 * JSON text (RFC 8259) for the flat label dicts the library serialises: what Python's
 * `json.dumps(d, sort_keys=True)` writes with its default `", "` and `": "` separators and
 * `ensure_ascii=True`, and a parser for text of that form, as `json.loads` reads it.
 */
module Json {
  import opened Errors
  import opened Dicts
  import Text

  predicate IsAscii(s: string)
  {
    forall i :: 0 <= i < |s| ==> s[i] as int < 128
  }

  lemma AsciiConcat(a: string, b: string)
    requires IsAscii(a) && IsAscii(b)
    ensures IsAscii(a + b)
  {
    assert forall i :: 0 <= i < |a + b| ==> (a + b)[i] == if i < |a| then a[i] else b[i - |a|];
  }

  /** Cutting a known prefix off a concatenation. */
  lemma DropPrefix(p: string, x: string)
    ensures (p + x)[..|p|] == p && (p + x)[|p|..] == x
  {
  }

  lemma QuotedShape(x: string, y: string, z: string)
    ensures var s := "\"" + x + "\"" + y + z;
      s[0] == '"' && s[1..] == x + "\"" + (y + z)
  {
    var s := "\"" + x + "\"" + y + z;
    assert s == "\"" + (x + "\"" + (y + z));
  }

  lemma BracedShape(x: string)
    ensures var s := "{" + x + "}";
      s[0] == '{' && s[1..] == x + "}" && (|x| > 0 ==> s[1] == x[0])
  {
  }

  // ---------------------------------------------------------------------------------------
  // Four-digit hexadecimal, as `'{0:04x}'.format(n)` writes it

  function HexDigit(d: nat): (c: char)
    requires d < 16
    ensures c as int < 128
  {
    if d < 10 then ('0' as int + d) as char else ('a' as int + (d - 10)) as char
  }

  /** A hexadecimal digit of either case, as `json.loads` accepts it in `\u` escapes. */
  function HexValue(c: char): (r: Option<nat>)
    ensures r.Some? ==> r.value < 16
  {
    if '0' <= c <= '9' then Some(c as int - '0' as int)
    else if 'a' <= c <= 'f' then Some(c as int - 'a' as int + 10)
    else if 'A' <= c <= 'F' then Some(c as int - 'A' as int + 10)
    else None
  }

  function Hex4(n: nat): (s: string)
    requires n < 0x10000
    ensures |s| == 4 && IsAscii(s)
  {
    [HexDigit(n / 4096), HexDigit(n / 256 % 16), HexDigit(n / 16 % 16), HexDigit(n % 16)]
  }

  function ParseHex4(s: string): (r: Option<nat>)
    requires |s| >= 4
    ensures r.Some? ==> r.value < 0x10000
  {
    match (HexValue(s[0]), HexValue(s[1]), HexValue(s[2]), HexValue(s[3]))
    case (Some(a), Some(b), Some(c), Some(d)) => Some(((a * 16 + b) * 16 + c) * 16 + d)
    case _ => None
  }

  lemma HexDigitValue(d: nat)
    requires d < 16
    ensures HexValue(HexDigit(d)) == Some(d)
  {
  }

  /** The four digits of `n`, most significant first, put back together. */
  lemma Hex4Arithmetic(n: nat)
    requires n < 0x10000
    ensures ((n / 4096 * 16 + n / 256 % 16) * 16 + n / 16 % 16) * 16 + n % 16 == n
  {
    var q1 := n / 16;
    assert n == q1 * 16 + n % 16;
    var q2 := q1 / 16;
    assert q1 == q2 * 16 + q1 % 16;
    assert q2 == n / 256 && q1 % 16 == n / 16 % 16;
    var q3 := q2 / 16;
    assert q2 == q3 * 16 + q2 % 16;
    assert q3 == n / 4096 && q2 % 16 == n / 256 % 16;
  }

  lemma Hex4RoundTrip(n: nat, rest: string)
    requires n < 0x10000
    ensures ParseHex4(Hex4(n) + rest) == Some(n)
  {
    var s := Hex4(n) + rest;
    assert s[0] == HexDigit(n / 4096) && s[1] == HexDigit(n / 256 % 16);
    assert s[2] == HexDigit(n / 16 % 16) && s[3] == HexDigit(n % 16);
    HexDigitValue(n / 4096);
    HexDigitValue(n / 256 % 16);
    HexDigitValue(n / 16 % 16);
    HexDigitValue(n % 16);
    Hex4Arithmetic(n);
  }

  // ---------------------------------------------------------------------------------------
  // String literals

  const Backspace: char := 8 as char
  const FormFeed: char := 12 as char

  /**
   * How `json.dumps` writes one character inside a string literal: the short escapes for
   * `"`, `\` and five control characters, the character itself when it is printable ASCII,
   * `\uXXXX` for any other character of the Basic Multilingual Plane, and a surrogate pair
   * of `\uXXXX` escapes above it.
   */
  function EscapeChar(c: char): (s: string)
    ensures |s| > 0 && s[0] != '"' && IsAscii(s)
  {
    if c == '"' then "\\\""
    else if c == '\\' then "\\\\"
    else if c == '\n' then "\\n"
    else if c == '\r' then "\\r"
    else if c == '\t' then "\\t"
    else if c == Backspace then "\\b"
    else if c == FormFeed then "\\f"
    else if ' ' <= c <= '~' then [c]
    else if c as int < 0x10000 then "\\u" + Hex4(c as int)
    else
      AsciiConcat("\\u", SurrogateEscapes(c));
      "\\u" + SurrogateEscapes(c)
  }

  /** A character above the Basic Multilingual Plane as its UTF-16 surrogate pair, less the first `\u`. */
  function SurrogateEscapes(c: char): (s: string)
    requires c as int >= 0x10000
    ensures IsAscii(s)
  {
    var n := c as int - 0x10000;
    AsciiConcat(Hex4(0xD800 + n / 1024), "\\u");
    AsciiConcat(Hex4(0xD800 + n / 1024) + "\\u", Hex4(0xDC00 + n % 1024));
    Hex4(0xD800 + n / 1024) + "\\u" + Hex4(0xDC00 + n % 1024)
  }

  function Escape(s: string): (r: string)
  {
    if |s| == 0 then ""
    else
      EscapeChar(s[0]) + Escape(s[1..])
  }

  lemma {:induction false} EscapeAscii(s: string)
    ensures IsAscii(Escape(s))
  {
    if |s| > 0 {
      EscapeAscii(s[1..]);
      AsciiConcat(EscapeChar(s[0]), Escape(s[1..]));
    }
  }

  /** A string as a JSON string literal. */
  function Quote(s: string): string
  {
    "\"" + Escape(s) + "\""
  }

  /** The character a `\uXXXX` escape (or a surrogate pair of them) stands for, and what follows. */
  function ParseUnicode(t: string): (r: Option<(char, string)>)
    ensures r.Some? ==> |r.value.1| <= |t| - 4
  {
    if |t| < 4 then None
    else match ParseHex4(t)
      case None => None
      case Some(n) =>
        if 0xD800 <= n < 0xDC00 then
          if |t| >= 10 && t[4] == '\\' && t[5] == 'u' then
            match ParseHex4(t[6..])
            case Some(m) =>
              if 0xDC00 <= m < 0xE000 then
                Some(((0x10000 + (n - 0xD800) * 1024 + (m - 0xDC00)) as char, t[10..]))
              else None
            case None => None
          else None
        else if 0xDC00 <= n < 0xE000 then None
        else Some((n as char, t[4..]))
  }

  /** One character of a string literal's body and the text after it; `None` at the closing quote. */
  function ParseChar(s: string): (r: Option<(char, string)>)
    ensures r.Some? ==> |r.value.1| < |s|
  {
    if |s| == 0 || s[0] == '"' then None
    else if s[0] != '\\' then
      if s[0] as int < 0x20 then None else Some((s[0], s[1..]))
    else if |s| < 2 then None
    else if s[1] == '"' then Some(('"', s[2..]))
    else if s[1] == '\\' then Some(('\\', s[2..]))
    else if s[1] == '/' then Some(('/', s[2..]))
    else if s[1] == 'n' then Some(('\n', s[2..]))
    else if s[1] == 'r' then Some(('\r', s[2..]))
    else if s[1] == 't' then Some(('\t', s[2..]))
    else if s[1] == 'b' then Some((Backspace, s[2..]))
    else if s[1] == 'f' then Some((FormFeed, s[2..]))
    else if s[1] == 'u' then ParseUnicode(s[2..])
    else None
  }

  lemma ParseUnicodeBmp(c: char, rest: string)
    requires c as int < 0x10000
    ensures ParseUnicode(Hex4(c as int) + rest) == Some((c, rest))
  {
    Hex4RoundTrip(c as int, rest);
    assert (Hex4(c as int) + rest)[4..] == rest;
  }

  lemma ParseUnicodePair(c: char, rest: string)
    requires c as int >= 0x10000
    ensures ParseUnicode(SurrogateEscapes(c) + rest) == Some((c, rest))
  {
    var n := c as int - 0x10000;
    var q, m := n / 1024, n % 1024;
    SurrogateArithmetic(n);
    assert SurrogateEscapes(c) == Hex4(0xD800 + q) + "\\u" + Hex4(0xDC00 + m);
    ParseSurrogates(0xD800 + q, 0xDC00 + m, rest);
    assert 0x10000 + q * 1024 + m == c as int;
  }

  /** The two halves of a surrogate pair lie in their ranges and give back the code point. */
  lemma SurrogateArithmetic(n: nat)
    requires n < 0x100000
    ensures 0xD800 <= 0xD800 + n / 1024 < 0xDC00 && 0xDC00 <= 0xDC00 + n % 1024 < 0xE000
    ensures (n / 1024) * 1024 + n % 1024 == n
  {
  }

  lemma ParseSurrogates(hi: nat, lo: nat, rest: string)
    requires 0xD800 <= hi < 0xDC00 && 0xDC00 <= lo < 0xE000
    ensures ParseUnicode(Hex4(hi) + "\\u" + Hex4(lo) + rest)
      == Some(((0x10000 + (hi - 0xD800) * 1024 + (lo - 0xDC00)) as char, rest))
  {
    var t := Hex4(hi) + "\\u" + Hex4(lo) + rest;
    Hex4RoundTrip(hi, "\\u" + Hex4(lo) + rest);
    assert t == Hex4(hi) + ("\\u" + Hex4(lo) + rest);
    assert t[6..] == Hex4(lo) + rest;
    Hex4RoundTrip(lo, rest);
    assert t[10..] == rest;
  }

  /** The seven characters with a two-character escape. */
  predicate HasShortEscape(c: char)
  {
    c == '"' || c == '\\' || c == '\n' || c == '\r' || c == '\t' || c == Backspace || c == FormFeed
  }

  lemma ParseShortEscape(c: char, rest: string)
    requires HasShortEscape(c)
    ensures ParseChar(EscapeChar(c) + rest) == Some((c, rest))
  {
    var s := EscapeChar(c) + rest;
    assert |EscapeChar(c)| == 2 && EscapeChar(c)[0] == '\\';
    assert s[0] == '\\' && s[1] == EscapeChar(c)[1];
    assert s[2..] == rest;
  }

  lemma ParsePrintable(c: char, rest: string)
    requires !HasShortEscape(c) && ' ' <= c <= '~'
    ensures ParseChar(EscapeChar(c) + rest) == Some((c, rest))
  {
    var s := EscapeChar(c) + rest;
    assert EscapeChar(c) == [c];
    assert s[0] == c && s[1..] == rest;
  }

  lemma ParseBmpEscape(c: char, rest: string)
    requires !HasShortEscape(c) && !(' ' <= c <= '~') && c as int < 0x10000
    ensures ParseChar(EscapeChar(c) + rest) == Some((c, rest))
  {
    var s := EscapeChar(c) + rest;
    assert EscapeChar(c) == "\\u" + Hex4(c as int);
    assert s[0] == '\\' && s[1] == 'u';
    assert s[2..] == Hex4(c as int) + rest;
    ParseUnicodeBmp(c, rest);
  }

  lemma ParsePairEscape(c: char, rest: string)
    requires c as int >= 0x10000
    ensures ParseChar(EscapeChar(c) + rest) == Some((c, rest))
  {
    DropTwo('\\', 'u', SurrogateEscapes(c), rest);
    ParseUnicodePair(c, rest);
  }

  lemma DropTwo<T>(a: T, b: T, t: seq<T>, rest: seq<T>)
    ensures var s := [a, b] + t + rest; s[0] == a && s[1] == b && s[2..] == t + rest
  {
    var s := [a, b] + t + rest;
    assert s == [a, b] + (t + rest);
  }

  /** Each character's escape reads back as that character, whatever follows it. */
  lemma ParseCharEscape(c: char, rest: string)
    ensures ParseChar(EscapeChar(c) + rest) == Some((c, rest))
  {
    if HasShortEscape(c) {
      ParseShortEscape(c, rest);
    } else if ' ' <= c <= '~' {
      ParsePrintable(c, rest);
    } else if c as int < 0x10000 {
      ParseBmpEscape(c, rest);
    } else {
      ParsePairEscape(c, rest);
    }
  }

  /** The body of a string literal after its opening quote: its characters and the text after the closing quote. */
  function ParseStringBody(s: string): (r: Option<(string, string)>)
    ensures r.Some? ==> |r.value.1| < |s|
    decreases |s|
  {
    if |s| == 0 then None
    else if s[0] == '"' then Some(("", s[1..]))
    else match ParseChar(s)
      case None => None
      case Some((c, t)) =>
        match ParseStringBody(t)
        case None => None
        case Some((cs, u)) => Some(([c] + cs, u))
  }

  lemma {:induction false} ParseStringBodyEscape(s: string, rest: string)
    ensures ParseStringBody(Escape(s) + "\"" + rest) == Some((s, rest))
  {
    var t := Escape(s) + "\"" + rest;
    if |s| == 0 {
      assert t == "\"" + rest;
      assert t[1..] == rest;
    } else {
      var tail := Escape(s[1..]) + "\"" + rest;
      assert t == EscapeChar(s[0]) + tail;
      ParseCharEscape(s[0], tail);
      ParseStringBodyEscape(s[1..], rest);
      assert [s[0]] + s[1..] == s;
    }
  }

  // ---------------------------------------------------------------------------------------
  // Integers

  /** The length of the run of decimal digits at the start of `s`. */
  function DigitRun(s: string): (n: nat)
    ensures n <= |s| && Text.AllDigits(s[..n])
    ensures n < |s| ==> !Text.IsDigit(s[n])
  {
    if |s| == 0 || !Text.IsDigit(s[0]) then 0
    else
      var m := DigitRun(s[1..]);
      assert s[..1 + m] == [s[0]] + s[1..][..m];
      1 + m
  }

  lemma {:induction false} DigitRunOf(a: string, rest: string)
    requires Text.AllDigits(a)
    requires |rest| == 0 || !Text.IsDigit(rest[0])
    ensures DigitRun(a + rest) == |a|
  {
    if |a| > 0 {
      assert (a + rest)[1..] == a[1..] + rest;
      DigitRunOf(a[1..], rest);
    } else {
      assert a + rest == rest;
    }
  }

  /** Digits without a leading `0`, not followed by a fraction or an exponent. */
  function ParseUnsigned(t: string): (r: Option<(nat, string)>)
    ensures r.Some? ==> |r.value.1| < |t|
  {
    var n := DigitRun(t);
    if n == 0 || (n > 1 && t[0] == '0') then None
    else if n < |t| && (t[n] == '.' || t[n] == 'e' || t[n] == 'E') then None
    else Some((Text.DigitsValue(t[..n]), t[n..]))
  }

  /**
   * An integer literal: an optional `-` and digits. A fraction or an exponent, which would
   * make the literal a float, is not accepted.
   */
  function ParseNumber(s: string): (r: Option<(int, string)>)
    ensures r.Some? ==> |r.value.1| < |s|
  {
    if |s| > 0 && s[0] == '-' then
      match ParseUnsigned(s[1..])
      case None => None
      case Some((v, t)) => Some((-(v as int), t))
    else
      match ParseUnsigned(s)
      case None => None
      case Some((v, t)) => Some((v, t))
  }

  lemma ParseUnsignedOf(n: nat, rest: string)
    requires |rest| == 0 || rest[0] == ',' || rest[0] == '}'
    ensures ParseUnsigned(Text.NatToString(n) + rest) == Some((n, rest))
  {
    var a := Text.NatToString(n);
    var t := a + rest;
    DigitRunOf(a, rest);
    Text.NatToStringNoLeadingZero(n);
    Text.NatToStringRoundTrip(n);
    assert t[..|a|] == a;
    assert t[|a|..] == rest;
  }

  lemma ParseNegativeOf(n: nat, rest: string)
    requires |rest| == 0 || rest[0] == ',' || rest[0] == '}'
    ensures ParseNumber("-" + Text.NatToString(n) + rest) == Some((-(n as int), rest))
  {
    var a := Text.NatToString(n);
    var s := "-" + a + rest;
    assert s == "-" + (a + rest);
    DropPrefix("-", a + rest);
    ParseUnsignedOf(n, rest);
  }

  lemma ParseNonNegativeOf(n: nat, rest: string)
    requires |rest| == 0 || rest[0] == ',' || rest[0] == '}'
    ensures ParseNumber(Text.NatToString(n) + rest) == Some((n, rest))
  {
    var a := Text.NatToString(n);
    assert Text.IsDigit(a[0]);
    assert (a + rest)[0] == a[0];
    ParseUnsignedOf(n, rest);
  }

  lemma ParseNumberOf(i: int, rest: string)
    requires |rest| == 0 || rest[0] == ',' || rest[0] == '}'
    ensures ParseNumber(Text.IntToString(i) + rest) == Some((i, rest))
  {
    if i < 0 {
      ParseNegativeOf(-i, rest);
    } else {
      ParseNonNegativeOf(i, rest);
    }
  }

  // ---------------------------------------------------------------------------------------
  // Label values and whole dicts

  /** A label value as `json.dumps` writes it: a string literal or an integer literal. */
  function ValueText(v: LabelValue): (r: string)
    ensures |r| > 0 && (v.Str? <==> r[0] == '"')
  {
    match v
    case Str(s) => Quote(s)
    case Num(n) => Text.IntToString(n)
  }

  lemma ValueTextAscii(v: LabelValue)
    ensures IsAscii(ValueText(v))
  {
    match v
    case Str(s) =>
      EscapeAscii(s);
      AsciiConcat("\"", Escape(s));
      AsciiConcat("\"" + Escape(s), "\"");
    case Num(n) =>
      assert IsAscii(Text.NatToString(if n < 0 then -n else n));
      AsciiConcat("-", Text.NatToString(if n < 0 then -n else n));
  }

  function ParseValue(s: string): (r: Option<(LabelValue, string)>)
    ensures r.Some? ==> |r.value.1| < |s|
  {
    if |s| > 0 && s[0] == '"' then
      match ParseStringBody(s[1..])
      case None => None
      case Some((x, t)) => Some((Str(x), t))
    else
      match ParseNumber(s)
      case None => None
      case Some((n, t)) => Some((Num(n), t))
  }

  lemma ParseStrValueOf(x: string, rest: string)
    ensures ParseValue(ValueText(Str(x)) + rest) == Some((Str(x), rest))
  {
    var s := ValueText(Str(x)) + rest;
    assert s == "\"" + (Escape(x) + "\"" + rest);
    assert s[0] == '"';
    assert s[1..] == Escape(x) + "\"" + rest;
    ParseStringBodyEscape(x, rest);
    assert ParseStringBody(s[1..]) == Some((x, rest));
  }

  lemma ParseNumValueOf(n: int, rest: string)
    requires |rest| == 0 || rest[0] == ',' || rest[0] == '}'
    ensures ParseValue(ValueText(Num(n)) + rest) == Some((Num(n), rest))
  {
    var s := ValueText(Num(n)) + rest;
    assert s == Text.IntToString(n) + rest;
    assert s[0] != '"';
    ParseNumberOf(n, rest);
    assert ParseNumber(s) == Some((n, rest));
  }

  /** A label value's text reads back as that value when a separator or the end follows it. */
  lemma ParseValueOf(v: LabelValue, rest: string)
    requires |rest| == 0 || rest[0] == ',' || rest[0] == '}'
    ensures ParseValue(ValueText(v) + rest) == Some((v, rest))
  {
    match v
    case Str(x) => ParseStrValueOf(x, rest);
    case Num(n) => ParseNumValueOf(n, rest);
  }

  /** One `"key": value` member. */
  function Item(e: Entry): (r: string)
    ensures |r| > 0 && r[0] == '"'
  {
    Quote(e.0) + ": " + ValueText(e.1)
  }

  lemma ItemAscii(e: Entry)
    ensures IsAscii(Item(e))
  {
    ValueTextAscii(Str(e.0));
    ValueTextAscii(e.1);
    AsciiConcat(Quote(e.0), ": ");
    AsciiConcat(Quote(e.0) + ": ", ValueText(e.1));
  }

  function Items(ps: seq<Entry>): (r: seq<string>)
    ensures |r| == |ps| && forall i :: 0 <= i < |ps| ==> r[i] == Item(ps[i])
  {
    if |ps| == 0 then [] else [Item(ps[0])] + Items(ps[1..])
  }

  lemma {:induction false} JoinAscii(xs: seq<string>)
    requires forall i :: 0 <= i < |xs| ==> IsAscii(xs[i])
    ensures IsAscii(Text.Join(", ", xs))
  {
    if |xs| > 1 {
      JoinAscii(xs[1..]);
      AsciiConcat(xs[0], ", ");
      AsciiConcat(xs[0] + ", ", Text.Join(", ", xs[1..]));
    }
  }

  /** `json.dumps(d, sort_keys=True)`: the members in ascending key order, all in ASCII. */
  function Dumps(d: Labels): string
  {
    "{" + Text.Join(", ", Items(SortByKey(d))) + "}"
  }

  /** With `ensure_ascii`, the text is pure ASCII. */
  lemma DumpsAscii(d: Labels)
    ensures IsAscii(Dumps(d))
  {
    var body := Text.Join(", ", Items(SortByKey(d)));
    forall i | 0 <= i < |SortByKey(d)| ensures IsAscii(Items(SortByKey(d))[i]) {
      ItemAscii(SortByKey(d)[i]);
    }
    JoinAscii(Items(SortByKey(d)));
    AsciiConcat("{", body);
    AsciiConcat("{" + body, "}");
  }

  /** The text of a nonempty list of members starts with the opening quote of the first key. */
  lemma JoinItemsFirst(ps: seq<Entry>)
    requires |ps| > 0
    ensures |Text.Join(", ", Items(ps))| > 0 && Text.Join(", ", Items(ps))[0] == '"'
  {
    assert Items(ps)[0][0] == '"';
    if |ps| > 1 { assert Items(ps)[1..] == Items(ps[1..]); }
  }

  /** One `"key": value` member and the text after it. */
  function ParseMember(s: string): (r: Option<(Entry, string)>)
    ensures r.Some? ==> |r.value.1| < |s|
  {
    if |s| == 0 || s[0] != '"' then None
    else match ParseStringBody(s[1..])
      case None => None
      case Some((k, t)) =>
        if |t| < 2 || t[..2] != ": " then None
        else match ParseValue(t[2..])
          case None => None
          case Some((v, u)) => Some(((k, v), u))
  }

  /** The members of a dict's text after its `{`, up to and including the closing `}`. */
  function ParseMembers(s: string): Option<seq<Entry>>
    decreases |s|
  {
    match ParseMember(s)
    case None => None
    case Some((e, u)) =>
      if u == "}" then Some([e])
      else if |u| >= 2 && u[..2] == ", " then
        match ParseMembers(u[2..])
        case None => None
        case Some(ps) => Some([e] + ps)
      else None
  }

  lemma ParseMemberSteps(s: string, k: string, t: string, v: LabelValue, u: string)
    requires |s| > 0 && s[0] == '"' && ParseStringBody(s[1..]) == Some((k, t))
    requires |t| >= 2 && t[..2] == ": " && ParseValue(t[2..]) == Some((v, u))
    ensures ParseMember(s) == Some(((k, v), u))
  {
  }

  lemma ItemShape(e: Entry, tail: string)
    ensures var s := Item(e) + tail;
      |s| > 0 && s[0] == '"' && s[1..] == Escape(e.0) + "\"" + (": " + ValueText(e.1) + tail)
  {
    assert Item(e) + tail == "\"" + Escape(e.0) + "\"" + (": " + ValueText(e.1)) + tail;
    QuotedShape(Escape(e.0), ": " + ValueText(e.1), tail);
  }

  lemma ParseMemberKey(e: Entry, tail: string)
    ensures var s := Item(e) + tail;
      |s| > 0 && s[0] == '"' && ParseStringBody(s[1..]) == Some((e.0, ": " + ValueText(e.1) + tail))
  {
    ItemShape(e, tail);
    ParseStringBodyEscape(e.0, ": " + ValueText(e.1) + tail);
  }

  lemma ParseMemberValue(v: LabelValue, tail: string)
    requires |tail| == 0 || tail[0] == ',' || tail[0] == '}'
    ensures var t := ": " + ValueText(v) + tail;
      |t| >= 2 && t[..2] == ": " && ParseValue(t[2..]) == Some((v, tail))
  {
    assert ": " + ValueText(v) + tail == ": " + (ValueText(v) + tail);
    DropPrefix(": ", ValueText(v) + tail);
    ParseValueOf(v, tail);
  }

  lemma ParseMemberOf(e: Entry, tail: string)
    requires |tail| == 0 || tail[0] == ',' || tail[0] == '}'
    ensures ParseMember(Item(e) + tail) == Some((e, tail))
  {
    ParseMemberKey(e, tail);
    ParseMemberValue(e.1, tail);
    ParseMemberSteps(Item(e) + tail, e.0, ": " + ValueText(e.1) + tail, e.1, tail);
  }

  lemma ParseMembersStep(s: string, e: Entry, u: string)
    requires ParseMember(s) == Some((e, u))
    ensures ParseMembers(s)
         == if u == "}" then Some([e])
            else if |u| >= 2 && u[..2] == ", " then
              match ParseMembers(u[2..]) case None => None case Some(ps) => Some([e] + ps)
            else None
  {
  }

  lemma ParseMembersLast(e: Entry)
    ensures ParseMembers(Item(e) + "}") == Some([e])
  {
    ParseMemberOf(e, "}");
    ParseMembersStep(Item(e) + "}", e, "}");
  }

  lemma ParseMembersMore(e: Entry, tail: string)
    requires |tail| >= 2 && tail[..2] == ", "
    ensures ParseMembers(Item(e) + tail)
         == match ParseMembers(tail[2..]) case None => None case Some(ps) => Some([e] + ps)
  {
    assert tail[0] == tail[..2][0] == ',';
    assert tail != "}";
    ParseMemberOf(e, tail);
    ParseMembersStep(Item(e) + tail, e, tail);
  }

  /** The text of two or more members is the first member, `, ` and the text of the others. */
  lemma JoinItemsShape(ps: seq<Entry>)
    requires |ps| > 1
    ensures Text.Join(", ", Items(ps)) + "}" == Item(ps[0]) + (", " + (Text.Join(", ", Items(ps[1..])) + "}"))
  {
    var xs := Items(ps);
    assert xs == [Item(ps[0])] + Items(ps[1..]);
    TailOfCons(Item(ps[0]), Items(ps[1..]));
    JoinCons(", ", xs);
    Associate(Item(ps[0]), ", ", Text.Join(", ", Items(ps[1..])), "}");
  }

  lemma TailOfCons<T>(a: T, b: seq<T>)
    ensures ([a] + b)[0] == a && ([a] + b)[1..] == b
  {
  }

  lemma JoinCons(sep: string, xs: seq<string>)
    requires |xs| > 1
    ensures Text.Join(sep, xs) == xs[0] + sep + Text.Join(sep, xs[1..])
  {
  }

  lemma Associate(a: string, b: string, c: string, d: string)
    ensures a + b + c + d == a + (b + (c + d))
  {
  }

  lemma ParseMembersCons(e: Entry, more: string, rest: seq<Entry>)
    requires ParseMembers(more) == Some(rest)
    ensures ParseMembers(Item(e) + (", " + more)) == Some([e] + rest)
  {
    DropPrefix(", ", more);
    ParseMembersMore(e, ", " + more);
  }

  lemma ParseMembersOne(ps: seq<Entry>)
    requires |ps| == 1
    ensures ParseMembers(Text.Join(", ", Items(ps)) + "}") == Some(ps)
  {
    assert Text.Join(", ", Items(ps)) == Item(ps[0]);
    ParseMembersLast(ps[0]);
    assert [ps[0]] == ps;
  }

  lemma HeadAndTail<T>(s: seq<T>)
    requires |s| > 0
    ensures [s[0]] + s[1..] == s
  {
  }

  lemma {:induction false} ParseMembersOf(ps: seq<Entry>)
    requires |ps| > 0
    ensures ParseMembers(Text.Join(", ", Items(ps)) + "}") == Some(ps)
  {
    if |ps| == 1 {
      ParseMembersOne(ps);
    } else {
      JoinItemsShape(ps);
      ParseMembersOf(ps[1..]);
      ParseMembersCons(ps[0], Text.Join(", ", Items(ps[1..])) + "}", ps[1..]);
      HeadAndTail(ps);
    }
  }

  /**
   * `json.loads` for a flat JSON object with string or integer values, written without
   * whitespace other than the separators `json.dumps` puts in. As in Python, a key that
   * occurs twice keeps the place of its first occurrence and the value of its last.
   */
  function Loads(s: string): Option<Labels>
  {
    if s == "{}" then Some([])
    else if |s| > 0 && s[0] == '{' then
      match ParseMembers(s[1..])
      case None => None
      case Some(ps) => Some(PutAll([], ps))
    else None
  }

  /** Building a dict from pairs with distinct keys keeps the pairs as they are. */
  lemma {:induction false} PutAllDistinct(ps: Labels)
    ensures PutAll([], ps) == ps
    decreases |ps|
  {
    if |ps| > 0 {
      var init: Labels := ps[..|ps| - 1];
      PutAllDistinct(init);
      LastIsNew(ps);
      InitAndLast(ps);
    }
  }

  lemma LastIsNew(ps: Labels)
    requires |ps| > 0
    ensures ps[|ps| - 1].0 !in KeySet(ps[..|ps| - 1])
  {
  }

  lemma InitAndLast<T>(s: seq<T>)
    requires |s| > 0
    ensures s[..|s| - 1] + [s[|s| - 1]] == s
  {
  }

  /** Reading back what `json.dumps(d, sort_keys=True)` wrote gives the dict in key order. */
  lemma LoadsDumps(d: Labels)
    ensures Loads(Dumps(d)) == Some(SortByKey(d))
  {
    var ps := SortByKey(d);
    var body := Text.Join(", ", Items(ps));
    if |ps| == 0 {
      assert Dumps(d) == "{}";
    } else {
      JoinItemsFirst(ps);
      BracedShape(body);
      ParseMembersOf(ps);
      PutAllDistinct(ps);
      assert Dumps(d) != "{}" by { assert Dumps(d)[1] == '"'; }
    }
  }

  /** Two dicts are written the same way exactly when they hold the same mapping. */
  lemma DumpsSameMapping(a: Labels, b: Labels)
    ensures Dumps(a) == Dumps(b) <==> SameMapping(a, b)
  {
    if Dumps(a) == Dumps(b) {
      LoadsDumps(a);
      LoadsDumps(b);
      assert SortByKey(a) == SortByKey(b);
      assert forall k :: Get(a, k) == Get(SortByKey(a), k);
    }
    if SameMapping(a, b) {
      SortByKeyDependsOnMappingOnly(a, b);
    }
  }

  /** Only the empty dict is written `{}`. */
  lemma DumpsEmpty(d: Labels)
    ensures Dumps(d) == "{}" <==> |d| == 0
  {
    var ps := SortByKey(d);
    if |ps| > 0 {
      JoinItemsFirst(ps);
      BracedShape(Text.Join(", ", Items(ps)));
      assert Dumps(d)[1] == '"';
    }
  }
}
