/**
 * A small stand-in for JsonConvert.SerializeObject with default settings,
 * restricted to the values of module Values: numbers in decimal, true and
 * false, null, strings in double quotes escaped as section 7 of RFC 8259
 * asks (plus the three extra characters Json.NET also escapes), arrays in
 * brackets and objects in braces with their properties in declaration order,
 * all without whitespace.
 */
module Json {
  import opened Wrappers
  import opened Values

  // ---------------------------------------------------------------------
  // Hexadecimal digits of \uXXXX escapes (lower case, as Json.NET writes)
  // ---------------------------------------------------------------------

  function HexDigit(d: nat): char
    requires d < 16
  {
    if d < 10 then (d + '0' as int) as char else (d - 10 + 'a' as int) as char
  }

  function HexDigitValue(c: char): Option<nat>
  {
    if '0' <= c <= '9' then Some(c as int - '0' as int)
    else if 'a' <= c <= 'f' then Some(c as int - 'a' as int + 10)
    else if 'A' <= c <= 'F' then Some(c as int - 'A' as int + 10)
    else None
  }

  function Pow16(width: nat): nat
  {
    if width == 0 then 1 else 16 * Pow16(width - 1)
  }

  /** The lowest `width` hexadecimal digits of n, most significant first. */
  function Hex(n: nat, width: nat): (t: string)
    ensures |t| == width
  {
    if width == 0 then [] else Hex(n / 16, width - 1) + [HexDigit(n % 16)]
  }

  /** The value of a string of hexadecimal digits, None if one is not a digit. */
  function ParseHex(t: string): Option<nat>
  {
    if t == [] then Some(0)
    else match (ParseHex(t[..|t| - 1]), HexDigitValue(t[|t| - 1]))
      case (Some(high), Some(low)) => Some(high * 16 + low)
      case _ => None
  }

  lemma {:induction false} HexRoundTrip(n: nat, width: nat)
    requires n < Pow16(width)
    ensures ParseHex(Hex(n, width)) == Some(n)
  {
    if width > 0 {
      HexRoundTrip(n / 16, width - 1);
      var t := Hex(n, width);
      assert t[..|t| - 1] == Hex(n / 16, width - 1);
      assert HexDigitValue(HexDigit(n % 16)) == Some(n % 16);
    }
  }

  // ---------------------------------------------------------------------
  // String escaping
  // ---------------------------------------------------------------------

  const Backspace: char := 8 as char
  const FormFeed: char := 12 as char

  /** Characters written as \u escapes: other control characters, U+0085, U+2028 and U+2029. */
  predicate IsUnicodeEscaped(c: char)
  {
    (c < ' ' && c !in {Backspace, '\t', '\n', FormFeed, '\r'})
    || c == 0x85 as char || c == 0x2028 as char || c == 0x2029 as char
  }

  /** How one character of a string appears between the quotes. */
  function EscapeChar(c: char): string
  {
    if c == '"' then "\\\""
    else if c == '\\' then "\\\\"
    else if c == Backspace then "\\b"
    else if c == '\t' then "\\t"
    else if c == '\n' then "\\n"
    else if c == FormFeed then "\\f"
    else if c == '\r' then "\\r"
    else if IsUnicodeEscaped(c) then "\\u" + Hex(c as int, 4)
    else [c]
  }

  function Escape(s: string): string
  {
    if s == [] then [] else EscapeChar(s[0]) + Escape(s[1..])
  }

  /** The character a two-character escape \e stands for. */
  function ShortEscape(e: char): Option<char>
  {
    if e == '"' then Some('"')
    else if e == '\\' then Some('\\')
    else if e == '/' then Some('/')
    else if e == 'b' then Some(Backspace)
    else if e == 'f' then Some(FormFeed)
    else if e == 'n' then Some('\n')
    else if e == 'r' then Some('\r')
    else if e == 't' then Some('\t')
    else None
  }

  predicate IsScalar(code: nat)
  {
    code < 0xD800 || 0xE000 <= code < 0x11_0000
  }

  function Prepend(c: char, rest: Option<string>): Option<string>
  {
    match rest
    case Some(s) => Some([c] + s)
    case None => None
  }

  /**
   * Reads the escapes of section 7 of RFC 8259 back into characters (None on
   * a malformed escape; surrogate pairs are not joined).
   */
  function Unescape(t: string): Option<string>
    decreases |t|
  {
    if t == [] then Some([])
    else if t[0] != '\\' then Prepend(t[0], Unescape(t[1..]))
    else if |t| < 2 then None
    else if t[1] == 'u' then
      if |t| < 6 then None
      else match ParseHex(t[2..6])
        case Some(code) => if IsScalar(code) then Prepend(code as char, Unescape(t[6..])) else None
        case None => None
    else match ShortEscape(t[1])
      case Some(c) => Prepend(c, Unescape(t[2..]))
      case None => None
  }

  lemma UnescapeChar(c: char, rest: string)
    ensures Unescape(EscapeChar(c) + rest) == Prepend(c, Unescape(rest))
  {
    var t := EscapeChar(c) + rest;
    if IsUnicodeEscaped(c) && c != '"' && c != '\\' {
      var h := Hex(c as int, 4);
      assert c as int < Pow16(4);
      HexRoundTrip(c as int, 4);
      assert t == "\\u" + h + rest;
      assert t[2..6] == h;
      assert t[6..] == rest;
      assert (c as int) as char == c;
    } else if |EscapeChar(c)| == 2 {
      assert t[2..] == rest;
    } else {
      assert t[1..] == rest;
    }
  }

  /** Escaping loses nothing: reading the escapes back gives the original string. */
  lemma {:induction false} EscapeRoundTrip(s: string)
    ensures Unescape(Escape(s)) == Some(s)
  {
    if s != [] {
      EscapeRoundTrip(s[1..]);
      UnescapeChar(s[0], Escape(s[1..]));
      assert [s[0]] + s[1..] == s;
    }
  }

  /** A character that needs no escape. */
  predicate IsPlain(c: char)
  {
    c != '"' && c != '\\' && c >= ' ' && !IsUnicodeEscaped(c)
  }

  /** Strings of plain characters are written as they are. */
  lemma {:induction false} EscapePlain(s: string)
    requires forall i :: 0 <= i < |s| ==> IsPlain(s[i])
    ensures Escape(s) == s
  {
    if s != [] {
      EscapePlain(s[1..]);
      assert [s[0]] + s[1..] == s;
    }
  }

  // ---------------------------------------------------------------------
  // Values
  // ---------------------------------------------------------------------

  /** A JSON string: the escaped text between double quotes. */
  function Quote(s: string): string
  {
    "\"" + Escape(s) + "\""
  }

  function Serialize(v: Value): (j: string)
    ensures |j| > 0
    decreases v, 1
  {
    match v
    case Num(n) => IntText(n)
    case Bool(b) => if b then "true" else "false"
    case Text(s) => Quote(s)
    case Seq(_, elems) => "[" + SerializeElements(elems) + "]"
    case Obj(_, props) => "{" + SerializeMembers(props) + "}"
    case Null => "null"
  }

  /** The elements, comma-separated. */
  function SerializeElements(elems: seq<Value>): string
    decreases elems, 0
  {
    if elems == [] then ""
    else if |elems| == 1 then Serialize(elems[0])
    else Serialize(elems[0]) + "," + SerializeElements(elems[1..])
  }

  /** The properties as "name":value, comma-separated. */
  function SerializeMembers(props: seq<Property>): string
    decreases props, 0
  {
    if props == [] then ""
    else
      var member := Quote(props[0].name) + ":" + Serialize(props[0].value);
      if |props| == 1 then member else member + "," + SerializeMembers(props[1..])
  }

  /** A string serializes to a quoted form whose inside reads back as the string. */
  lemma SerializeText(s: string)
    ensures var j := Serialize(Text(s));
      |j| >= 2 && j[0] == '"' && j[|j| - 1] == '"' && Unescape(j[1..|j| - 1]) == Some(s)
  {
    var j := Serialize(Text(s));
    assert j[1..|j| - 1] == Escape(s);
    EscapeRoundTrip(s);
  }

  /** A number serializes to its decimal text, which reads back as the number. */
  lemma SerializeNum(n: int)
    ensures ParseInt(Serialize(Num(n))) == Some(n)
  {
    IntTextRoundTrip(n);
  }
}
