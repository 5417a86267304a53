/**
 * The boxed call arguments the renderer inspects at run time, restricted to
 * integers, booleans, strings, collections, plain objects and null, and the
 * text that Object.ToString gives for each of them.
 */
module Values {
  import opened Wrappers

  /** What the renderer asks of a property's declared type. */
  datatype DeclaredType =
    | StringType       // typeof(string)
    | ArrayOrGeneric   // PropertyType.IsArray || PropertyType.IsGenericType (List<T>, T[], Nullable<T>, ...)
    | OtherType        // anything else: primitives, object, plain classes

  datatype Value =
    | Num(n: int)                                  // a primitive integer
    | Bool(b: bool)                                // System.Boolean
    | Text(s: string)                              // System.String
    | Seq(typeName: string, elems: seq<Value>)     // an array or generic collection
    | Obj(typeName: string, props: seq<Property>)  // any other object; properties in declaration order
    | Null

  datatype Property = Property(name: string, declared: DeclaredType, value: Value)

  /** Type.GetProperty(name) on the runtime type of v: the first property with that name, if any. */
  function FindProperty(v: Value, name: string): (r: Option<Property>)
    ensures r.Some? ==> v.Obj? && r.value in v.props && r.value.name == name
    ensures r.None? ==> !v.Obj? || forall i :: 0 <= i < |v.props| ==> v.props[i].name != name
  {
    if v.Obj? then FirstNamed(v.props, name) else None
  }

  function FirstNamed(props: seq<Property>, name: string): (r: Option<Property>)
    ensures r.Some? ==> r.value in props && r.value.name == name
    ensures r.None? ==> forall i :: 0 <= i < |props| ==> props[i].name != name
  {
    if props == [] then None
    else if props[0].name == name then Some(props[0])
    else FirstNamed(props[1..], name)
  }

  // ---------------------------------------------------------------------
  // Decimal text of integers (Int32.ToString and the JSON number form)
  // ---------------------------------------------------------------------

  predicate IsDigit(c: char)
  {
    '0' <= c <= '9'
  }

  function DigitChar(d: nat): (c: char)
    requires d < 10
  {
    (d + '0' as int) as char
  }

  function DigitValue(c: char): nat
    requires IsDigit(c)
  {
    c as int - '0' as int
  }

  /** The decimal digits of n, most significant first, without leading zeros. */
  function NatText(n: nat): (t: string)
    ensures |t| > 0
    ensures forall i :: 0 <= i < |t| ==> IsDigit(t[i])
    ensures t[0] == '0' ==> n == 0
  {
    if n < 10 then [DigitChar(n)] else NatText(n / 10) + [DigitChar(n % 10)]
  }

  /** The value of a string of decimal digits. */
  function DigitsValue(t: string): nat
    requires forall i :: 0 <= i < |t| ==> IsDigit(t[i])
  {
    if t == [] then 0 else DigitsValue(t[..|t| - 1]) * 10 + DigitValue(t[|t| - 1])
  }

  lemma {:induction false} NatTextRoundTrip(n: nat)
    ensures DigitsValue(NatText(n)) == n
  {
    if n >= 10 {
      NatTextRoundTrip(n / 10);
      var t := NatText(n);
      assert t[..|t| - 1] == NatText(n / 10);
    }
  }

  /** An integer in decimal, with a leading '-' when negative. */
  function IntText(i: int): string
  {
    if i < 0 then "-" + NatText(-i) else NatText(i)
  }

  /** Reads back the text IntText produces (None for anything else). */
  function ParseInt(t: string): Option<int>
  {
    if |t| > 0 && t[0] == '-' then
      if |t| > 1 && forall i :: 1 <= i < |t| ==> IsDigit(t[i]) then Some(0 - DigitsValue(t[1..])) else None
    else if |t| > 0 && forall i :: 0 <= i < |t| ==> IsDigit(t[i]) then Some(DigitsValue(t))
    else None
  }

  /** A '-' followed by the digits of a positive n reads back as -n. */
  lemma NegativeTextRoundTrip(n: nat)
    requires n > 0
    ensures ParseInt("-" + NatText(n)) == Some(-(n as int))
  {
    var u := NatText(n);
    var t := "-" + u;
    assert t[1..] == u;
    forall k | 1 <= k < |t| ensures IsDigit(t[k]) {
      assert t[k] == u[k - 1];
    }
    NatTextRoundTrip(n);
  }

  /** The digits of n read back as n. */
  lemma NonNegativeTextRoundTrip(n: nat)
    ensures ParseInt(NatText(n)) == Some(n as int)
  {
    assert IsDigit(NatText(n)[0]);
    NatTextRoundTrip(n);
  }

  /** The decimal form of an integer loses nothing. */
  lemma IntTextRoundTrip(i: int)
    ensures ParseInt(IntText(i)) == Some(i)
  {
    if i < 0 {
      assert IntText(i) == "-" + NatText(-i);
      NegativeTextRoundTrip(-i);
    } else {
      assert IntText(i) == NatText(i);
      NonNegativeTextRoundTrip(i);
    }
  }

  // ---------------------------------------------------------------------
  // Object.ToString()
  // ---------------------------------------------------------------------

  /**
   * The text StringBuilder.Append(object) adds for v: decimal for integers,
   * "True"/"False" for booleans, the string itself, the runtime type name
   * for collections and objects, and nothing for null.
   */
  function ToText(v: Value): string
  {
    match v
    case Num(n) => IntText(n)
    case Bool(b) => if b then "True" else "False"
    case Text(s) => s
    case Seq(typeName, _) => typeName
    case Obj(typeName, _) => typeName
    case Null => ""
  }
}
