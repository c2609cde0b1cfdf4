/** JSON values as the static builder writes them: scalar kinds matching the
    builder's `value` overloads, arrays, and objects whose members keep
    their order (duplicate keys allowed, as the request payload has them),
    together with the compact text each one stands for. */
module Json {
  import opened Chars

  /** One scalar `value(...)` call. `Float` carries the text `dtostrf` would
      produce: floating point formatting is not modelled. `Char` is written
      raw and unquoted. */
  datatype Scalar =
    | Str(s: CStr)
    | Bool(b: bool)
    | Null
    | Int(i: int)
    | UInt(n: nat)
    | Char(c: char)
    | Float(text: CStr)

  datatype Json =
    | Leaf(v: Scalar)
    | Array(items: seq<Json>)
    | Object(members: seq<Member>)

  datatype Member = Member(key: CStr, value: Json)

  // ---------------------------------------------------------------------
  // String escaping of the builder (serializeString)

  /** The five characters the builder escapes. */
  predicate NeedsEscape(c: char) { c == '"' || c == '\\' || c == '\n' || c == '\t' || c == '\r' }

  function EscapeChar(c: char): (r: seq<char>)
    ensures NeedsEscape(c) ==> |r| == 2 && r[0] == '\\'
    ensures !NeedsEscape(c) ==> r == [c]
    ensures c != NUL ==> NUL !in r
  {
    match c
    case '"' => "\\\""
    case '\\' => "\\\\"
    case '\n' => "\\n"
    case '\t' => "\\t"
    case '\r' => "\\r"
    case _ => [c]
  }

  function Escape(s: seq<char>): (r: seq<char>)
    ensures |r| >= |s|
    ensures NUL !in s ==> NUL !in r
  {
    if |s| == 0 then [] else EscapeChar(s[0]) + Escape(s[1..])
  }

  lemma EscapeAppend(a: seq<char>, b: seq<char>)
    ensures Escape(a + b) == Escape(a) + Escape(b)
  {
    if |a| > 0 {
      assert (a + b)[0] == a[0];
      calc {
        Escape(a + b);
        EscapeChar(a[0]) + Escape((a + b)[1..]);
        { assert (a + b)[1..] == a[1..] + b; }
        EscapeChar(a[0]) + Escape(a[1..] + b);
        { EscapeAppend(a[1..], b); }
        EscapeChar(a[0]) + (Escape(a[1..]) + Escape(b));
        (EscapeChar(a[0]) + Escape(a[1..])) + Escape(b);
        Escape(a) + Escape(b);
      }
    } else {
      assert a + b == b;
    }
  }

  /** The characters `Escape` copies unchanged leave the text unchanged. */
  lemma EscapeIdentity(s: seq<char>)
    requires forall i :: 0 <= i < |s| ==> !NeedsEscape(s[i])
    ensures Escape(s) == s
  {
  }

  function Quote(s: seq<char>): seq<char> { "\"" + s + "\"" }

  // ---------------------------------------------------------------------
  // Decimal integers (snprintf "%ld" / "%lu")

  /** Decimal digits of `n`, most significant first, no leading zero. */
  function Digits(n: nat): (r: seq<char>)
    ensures 1 <= |r|
    ensures forall i :: 0 <= i < |r| ==> IsDigit(r[i])
    ensures r[0] == '0' ==> n == 0 && r == "0"
    ensures DigitsValue(r) == n
  {
    if n < 10 then [('0' as int + n) as char]
    else
      var r := Digits(n / 10) + [('0' as int + n % 10) as char];
      assert r[..|r| - 1] == Digits(n / 10);
      r
  }

  /** The number a digit string denotes; partner of `Digits`. */
  function DigitsValue(s: seq<char>): nat
    requires forall i :: 0 <= i < |s| ==> IsDigit(s[i])
  {
    if |s| == 0 then 0
    else
      assert IsDigit(s[|s| - 1]);
      DigitsValue(s[..|s| - 1]) * 10 + (s[|s| - 1] as int - '0' as int)
  }

  function Decimal(i: int): (r: seq<char>)
    ensures |r| >= 1 && NUL !in r
    ensures i < 0 <==> r[0] == '-'
    ensures i >= 0 ==> IsDigit(r[0])
    ensures forall k :: 0 < k < |r| ==> IsDigit(r[k])
  {
    if i < 0 then "-" + Digits(-i) else Digits(i)
  }

  /** Reading back a decimal text gives the integer it was written from. */
  function DecimalValue(s: seq<char>): int
    requires |s| >= 1
    requires forall k :: 0 < k < |s| ==> IsDigit(s[k])
    requires s[0] == '-' || IsDigit(s[0])
  {
    if s[0] == '-' then 0 - DigitsValue(s[1..]) as int else DigitsValue(s)
  }

  lemma DecimalRoundTrip(i: int)
    ensures DecimalValue(Decimal(i)) == i
  {
    if i < 0 {
      assert Decimal(i)[1..] == Digits(-i);
    }
  }

  // ---------------------------------------------------------------------
  // Compact text

  function ScalarText(v: Scalar): seq<char>
  {
    match v
    case Str(s) => Quote(Escape(s))
    case Bool(b) => if b then "true" else "false"
    case Null => "null"
    case Int(i) => Decimal(i)
    case UInt(n) => Decimal(n)
    case Char(c) => [c]
    case Float(text) => text
  }

  /** Compact JSON text: no whitespace, `,` between siblings, `:` after keys. */
  function Render(j: Json): seq<char>
  {
    match j
    case Leaf(v) => ScalarText(v)
    case Array(items) => "[" + RenderItems(items, true) + "]"
    case Object(members) => "{" + RenderMembers(members, true) + "}"
  }

  /** Sibling values, each after a `,` unless it is the first. */
  function RenderItems(items: seq<Json>, first: bool): seq<char>
  {
    if |items| == 0 then []
    else (if first then "" else ",") + Render(items[0]) + RenderItems(items[1..], false)
  }

  function RenderMembers(members: seq<Member>, first: bool): seq<char>
  {
    if |members| == 0 then []
    else (if first then "" else ",") + MemberText(members[0]) + RenderMembers(members[1..], false)
  }

  function MemberText(m: Member): seq<char>
  {
    Quote(Escape(m.key)) + ":" + Render(m.value)
  }
}
