/** The stream parser applied to the compact text the builder writes: which
    key `find` reports, where it leaves the stream, and what
    `getValueStream` gives back there. */
module StreamSearch {
  import opened Chars
  import opened Json
  import opened StreamParser

  // ---------------------------------------------------------------------
  // Documents the parser reads back exactly

  /** A key the parser compares correctly: `_parseString` does not undo
      escapes, so a key must contain nothing the builder escapes. */
  predicate PlainKey(k: CStr) { forall i :: 0 <= i < |k| ==> !NeedsEscape(k[i]) }

  /** A scalar `_skipValue` skips exactly. A raw `Char` is left out; a
      float's text must look like a number to `_skipValue`. */
  predicate SkippableLeaf(v: Scalar)
  {
    match v
    case Char(_) => false
    case Float(t) =>
      && |t| > 0 && (IsDigit(t[0]) || t[0] == '-')
      && forall i :: 0 <= i < |t| ==> !StopsLiteral(t[i])
    case _ => true
  }

  /** A document whose keys are plain and whose scalars are skippable. */
  predicate Searchable(j: Json)
  {
    match j
    case Leaf(v) => SkippableLeaf(v)
    case Array(items) => AllSearchable(items)
    case Object(ms) => MembersSearchable(ms)
  }

  predicate AllSearchable(items: seq<Json>)
  {
    |items| == 0 || (Searchable(items[0]) && AllSearchable(items[1..]))
  }

  predicate MembersSearchable(ms: seq<Member>)
  {
    |ms| == 0 || (PlainKey(ms[0].key) && Searchable(ms[0].value) && MembersSearchable(ms[1..]))
  }

  /** Where a literal or number may end for `_skipValue`. */
  predicate FollowStop(s: seq<char>, q: nat) { q == |s| || (q < |s| && StopsLiteral(s[q])) }

  // ---------------------------------------------------------------------
  // The reference search over the tree

  /** Steps of the search a value needs: one per call and per loop turn. */
  function Cost(j: Json): nat
  {
    match j
    case Leaf(_) => 1
    case Array(items) => 1 + ItemsCost(items)
    case Object(ms) => 1 + MembersCost(ms)
  }

  function ItemsCost(items: seq<Json>): nat
  {
    if |items| == 0 then 1 else 1 + Cost(items[0]) + ItemsCost(items[1..])
  }

  function MembersCost(ms: seq<Member>): nat
  {
    if |ms| == 0 then 1 else 1 + Cost(ms[0].value) + MembersCost(ms[1..])
  }

  function Shift(n: nat, o: Option<(nat, Json)>): Option<(nat, Json)>
  {
    if o.Some? then Some((n + o.value.0, o.value.1)) else None
  }

  /** The first member named `key` in depth-first order, where a member's
      key comes before its value's members: the offset in `Render(j)` just
      after its colon, and its value. */
  function FirstMatch(j: Json, key: CStr): Option<(nat, Json)>
  {
    match j
    case Leaf(_) => None
    case Array(items) => Shift(1, ItemsMatch(items, true, key))
    case Object(ms) => Shift(1, MembersMatch(ms, true, key))
  }

  function ItemsMatch(items: seq<Json>, first: bool, key: CStr): Option<(nat, Json)>
  {
    if |items| == 0 then None
    else
      var sep := if first then 0 else 1;
      var here := FirstMatch(items[0], key);
      if here.Some? then Shift(sep, here)
      else Shift(sep + |Render(items[0])|, ItemsMatch(items[1..], false, key))
  }

  function MembersMatch(ms: seq<Member>, first: bool, key: CStr): Option<(nat, Json)>
  {
    if |ms| == 0 then None
    else
      var sep := if first then 0 else 1;
      var head := sep + |Quote(Escape(ms[0].key))| + 1;
      if ms[0].key == key then Some((head, ms[0].value))
      else
        var inner := FirstMatch(ms[0].value, key);
        if inner.Some? then Shift(head, inner)
        else Shift(sep + |MemberText(ms[0])|, MembersMatch(ms[1..], false, key))
  }

  /** The parser's answer for a reference result: found just after the
      colon, or missing with the whole value consumed. */
  function Answer(o: Option<(nat, Json)>, p: nat, end: nat): Search
  {
    if o.Some? then Found(p + o.value.0) else Missing(end)
  }

  /** Some member, at any depth, is named `key`. */
  predicate HasKey(j: Json, key: CStr)
  {
    match j
    case Leaf(_) => false
    case Array(items) => exists i :: 0 <= i < |items| && HasKey(items[i], key)
    case Object(ms) => exists i :: 0 <= i < |ms| && (ms[i].key == key || HasKey(ms[i].value, key))
  }

  // ---------------------------------------------------------------------
  // Strings the builder escaped

  lemma HoldsSplit3(s: seq<char>, p: nat, a: seq<char>, b: seq<char>, c: seq<char>)
    requires Holds(s, p, a + b + c)
    ensures Holds(s, p, a) && Holds(s, p + |a|, b) && Holds(s, p + |a| + |b|, c)
  {
    HoldsSplit(s, p, a + b, c);
    HoldsSplit(s, p, a, b);
  }

  lemma QuoteSplit(t: seq<char>)
    ensures Quote(t) == "\"" + (t + "\"")
  {
  }

  /** The first characters of an escaped text: the escape of its first
      character, then the rest escaped. */
  lemma EscapeHead(t: seq<char>, tail: seq<char>)
    requires |t| > 0
    ensures Escape(t) + tail == EscapeChar(t[0]) + (Escape(t[1..]) + tail)
  {
  }

  /** Every two-character escape the builder writes is one the stream
      parser maps back, and none of them is `\u`. */
  lemma EscapeCharDecodes(c: char)
    requires NeedsEscape(c)
    ensures EscapeChar(c)[1] != 'u' && EscapedChar(EscapeChar(c)[1]) == c
  {
  }

  /** `_skipString`'s loop skips an escaped text and its closing quote
      exactly. */
  lemma {:induction false} SkipStringBodyEscaped(s: seq<char>, p: nat, t: seq<char>)
    requires Holds(s, p, Escape(t) + "\"")
    ensures SkipStringBody(s, p) == p + |Escape(t)| + 1
    decreases |t|
  {
    HoldsAt(s, p, Escape(t) + "\"", 0);
    if |t| > 0 {
      var e := EscapeChar(t[0]);
      EscapeHead(t, "\"");
      HoldsSplit(s, p, e, Escape(t[1..]) + "\"");
      HoldsAt(s, p, e, 0);
      SkipStringBodyEscaped(s, p + |e|, t[1..]);
      if NeedsEscape(t[0]) {
        assert Next(s, p + 1) == p + 2;
      }
    }
  }

  /** getValueStream's string loop gives back exactly the text the
      builder escaped, and stops after the closing quote. */
  lemma {:induction false} StringValueEscaped(s: seq<char>, p: nat, t: seq<char>)
    requires Holds(s, p, Escape(t) + "\"")
    ensures StringValue(s, p) == Done(t, p + |Escape(t)| + 1)
    decreases |t|
  {
    hide *;
    if |t| == 0 {
      StringValueEnd(s, p, t);
    } else {
      var e := EscapeChar(t[0]);
      EscapeHead(t, "\"");
      HoldsSplit(s, p, e, Escape(t[1..]) + "\"");
      StringValueEscaped(s, p + |e|, t[1..]);
      StringValueChar(s, p, t[0]);
      EmitDone([t[0]], t[1..], p + |e| + |Escape(t[1..])| + 1);
      assert [t[0]] + t[1..] == t;
    }
  }

  lemma StringValueEnd(s: seq<char>, p: nat, t: seq<char>)
    requires |t| == 0 && Holds(s, p, Escape(t) + "\"")
    ensures StringValue(s, p) == Done(t, p + |Escape(t)| + 1)
  {
    HoldsAt(s, p, Escape(t) + "\"", 0);
  }

  lemma EmitDone(a: seq<char>, b: seq<char>, q: nat)
    ensures Emit(a, Done(b, q)) == Done(a + b, q)
  {
  }

  /** getValueStream's string loop over one character as the builder
      escaped it. */
  lemma StringValueChar(s: seq<char>, p: nat, c: char)
    requires Holds(s, p, EscapeChar(c))
    ensures StringValue(s, p) == Emit([c], StringValue(s, p + |EscapeChar(c)|))
  {
    var e := EscapeChar(c);
    HoldsAt(s, p, e, 0);
    if NeedsEscape(c) {
      EscapeCharDecodes(c);
      HoldsAt(s, p, e, 1);
    }
  }

  /** Streaming a string value the builder wrote gives back its text. */
  lemma GetStringValue(s: seq<char>, p: nat, t: seq<char>)
    requires Holds(s, p, Quote(Escape(t)))
    ensures GetValueStream(s, p) == Done(t, p + |Quote(Escape(t))|)
  {
    QuoteSplit(Escape(t));
    HoldsSplit(s, p, "\"", Escape(t) + "\"");
    HoldsAt(s, p, "\"", 0);
    SkipWsNone(s, p);
    StringValueEscaped(s, p + 1, t);
  }

  /** The loop of `_skipObject`/`_skipArray` passes over a string whose
      text does not start with a character the builder escapes exactly as
      over nothing: the swallowed first character does no harm there. */
  lemma SkipNestedString(s: seq<char>, p: nat, t: seq<char>, open: char, close: char, bal: nat)
    requires Holds(s, p, Quote(Escape(t))) && bal > 0 && open != '"' && close != '"'
    requires |t| > 0 && !NeedsEscape(t[0])
    ensures SkipNested(s, p, open, close, bal) == SkipNested(s, p + |Quote(Escape(t))|, open, close, bal)
  {
    QuoteSplit(Escape(t));
    EscapeHead(t, "\"");
    assert Quote(Escape(t)) == "\"" + [t[0]] + (Escape(t[1..]) + "\"");
    HoldsSplit3(s, p, "\"", [t[0]], Escape(t[1..]) + "\"");
    SkipStringBodyEscaped(s, p + 2, t[1..]);
    HoldsAt(s, p, "\"", 0);
    HoldsAt(s, p + 1, [t[0]], 0);
  }

  // ---------------------------------------------------------------------
  // Skipping scalars

  /** `_skipValue`'s literal loop passes over a run of non-stop characters
      up to a stop character or the end. */
  lemma {:induction false} SkipLiteralRun(s: seq<char>, p: nat, t: seq<char>)
    requires Holds(s, p, t) && FollowStop(s, p + |t|)
    requires forall i :: 0 <= i < |t| ==> !StopsLiteral(t[i])
    ensures SkipLiteral(s, p) == p + |t|
    decreases |t|
  {
    if |t| > 0 {
      SkipLiteralRun(s, p + 1, t[1..]);
    }
  }

  /** The characters a scalar's text may start with. */
  predicate StartsValue(c: char)
  {
    c == '{' || c == '[' || c == '"' || IsDigit(c) || c == '-' || c == 't' || c == 'f' || c == 'n'
  }

  lemma FirstChar(j: Json)
    requires Searchable(j)
    ensures |Render(j)| > 0 && StartsValue(Render(j)[0])
    ensures Render(j)[0] == '{' <==> j.Object?
    ensures Render(j)[0] == '[' <==> j.Array?
  {
    match j {
      case Leaf(v) =>
        match v {
          case Int(i) => assert i >= 0 ==> IsDigit(Digits(i)[0]);
          case UInt(n) => assert IsDigit(Digits(n)[0]);
          case _ =>
        }
      case _ =>
    }
  }

  /** `_skipValue` passes over a scalar's text exactly. */
  lemma SkipLeaf(s: seq<char>, p: nat, v: Scalar)
    requires SkippableLeaf(v) && Holds(s, p, ScalarText(v)) && FollowStop(s, p + |ScalarText(v)|)
    ensures SkipValue(s, p) == p + |ScalarText(v)|
  {
    if v.Str? {
      SkipStringLeaf(s, p, v.s);
    } else {
      SkipLiteralLeaf(s, p, v);
    }
  }

  lemma SkipStringLeaf(s: seq<char>, p: nat, t: seq<char>)
    requires Holds(s, p, Quote(Escape(t)))
    ensures SkipValue(s, p) == p + |Quote(Escape(t))|
  {
    QuoteSplit(Escape(t));
    HoldsSplit(s, p, "\"", Escape(t) + "\"");
    HoldsAt(s, p, "\"", 0);
    SkipWsNone(s, p);
    SkipStringBodyEscaped(s, p + 1, t);
  }

  lemma SkipLiteralLeaf(s: seq<char>, p: nat, v: Scalar)
    requires SkippableLeaf(v) && !v.Str? && Holds(s, p, ScalarText(v)) && FollowStop(s, p + |ScalarText(v)|)
    ensures SkipValue(s, p) == p + |ScalarText(v)|
  {
    hide *;
    LeafStart(v);
    HoldsAt(s, p, ScalarText(v), 0);
    SkipValueLiteral(s, p);
    LiteralChars(v);
    SkipLiteralRun(s, p, ScalarText(v));
  }

  /** The text of a scalar other than a string starts like a literal or a
      number. */
  lemma LeafStart(v: Scalar)
    requires SkippableLeaf(v) && !v.Str?
    ensures |ScalarText(v)| > 0 && (IsDigit(ScalarText(v)[0]) || ScalarText(v)[0] in "-tfn")
  {
    FirstChar(Leaf(v));
  }

  /** `_skipValue` at a digit, a minus sign or the first letter of a
      literal runs the literal loop. */
  lemma SkipValueLiteral(s: seq<char>, p: nat)
    requires p < |s| && (IsDigit(s[p]) || s[p] in "-tfn")
    ensures SkipValue(s, p) == SkipLiteral(s, p)
  {
    SkipWsNone(s, p);
  }

  /** The text of every scalar but a string is free of stop characters. */
  lemma LiteralChars(v: Scalar)
    requires SkippableLeaf(v) && !v.Str?
    ensures forall i :: 0 <= i < |ScalarText(v)| ==> !StopsLiteral(ScalarText(v)[i])
  {
  }

  // ---------------------------------------------------------------------
  // The search over rendered text

  /** `_skipValue` leaves a separator or closing delimiter in place. */
  lemma SkipValueAtDelimiter(s: seq<char>, q: nat)
    requires q < |s| && (s[q] == ',' || s[q] == ']' || s[q] == '}')
    ensures SkipValue(s, q) == q
  {
    SkipWsNone(s, q);
  }

  lemma ItemsHead(items: seq<Json>, first: bool)
    requires |items| > 0
    ensures RenderItems(items, first) + "]"
         == (if first then "" else ",") + Render(items[0]) + (RenderItems(items[1..], false) + "]")
  {
  }

  lemma MembersHead(ms: seq<Member>, first: bool)
    requires |ms| > 0
    ensures RenderMembers(ms, first) + "}"
         == (if first then "" else ",") + Quote(Escape(ms[0].key)) + ":" + Render(ms[0].value)
            + (RenderMembers(ms[1..], false) + "}")
  {
  }

  /** What follows a value inside a container is `,` or the closing
      delimiter. */
  lemma ItemsNext(items: seq<Json>)
    ensures (RenderItems(items, false) + "]")[0] in ",]"
  {
  }

  lemma MembersNext(ms: seq<Member>)
    ensures (RenderMembers(ms, false) + "}")[0] in ",}"
  {
  }

  /** One turn of the array loop at an element, with no spaces around. */
  lemma ArrayTurn(s: seq<char>, p: nat, key: CStr, fuel: nat)
    requires p < |s| && fuel > 0 && !IsJsonSpace(s[p]) && s[p] != ']'
    ensures FindInArray(s, p, key, fuel)
         == ThenArray(s, FindKey(s, if s[p] == ',' then p + 1 else p, key, fuel - 1), key, fuel - 1)
  {
    SkipWsNone(s, p);
  }

  /** The array loop at the closing bracket. */
  lemma ArrayClose(s: seq<char>, p: nat, key: CStr, fuel: nat)
    requires p < |s| && s[p] == ']' && fuel > 0
    ensures FindInArray(s, p, key, fuel) == Missing(p + 1)
  {
    SkipWsNone(s, p);
  }

  /** The search entering a value: containers are searched, anything else
      skipped. */
  lemma KeyEnter(s: seq<char>, p: nat, key: CStr, fuel: nat)
    requires p < |s| && fuel > 0 && !IsJsonSpace(s[p])
    ensures FindKey(s, p, key, fuel)
         == if s[p] == '{' then FindInObject(s, p + 1, key, fuel - 1)
            else if s[p] == '[' then FindInArray(s, p + 1, key, fuel - 1)
            else Missing(SkipValue(s, p))
  {
    SkipWsNone(s, p);
  }

  /** Three consecutive parts of a text: where the later two start, and
      the characters they start with. */
  lemma Parts(s: seq<char>, p: nat, a: seq<char>, b: seq<char>, c: seq<char>)
    requires Holds(s, p, a + b + c) && |c| > 0
    ensures Holds(s, p + |a|, b) && Holds(s, p + |a| + |b|, c)
    ensures p + |a| + |b| < |s| && s[p + |a| + |b|] == c[0]
    ensures |a| > 0 ==> s[p] == a[0]
  {
    HoldsSplit3(s, p, a, b, c);
    HoldsAt(s, p + |a| + |b|, c, 0);
    if |a| > 0 {
      HoldsAt(s, p, a, 0);
    }
  }

  // ---------------------------------------------------------------------
  // Layout of a rendered list

  /** Where the parts of a non-empty element list lie: its first element
      from `p2`, after the separator, and the rest from `q`. */
  lemma ItemsText(s: seq<char>, p: nat, items: seq<Json>, first: bool) returns (p2: nat, q: nat)
    requires |items| > 0 && Searchable(items[0]) && Holds(s, p, RenderItems(items, first) + "]")
    ensures p2 == p + (if first then 0 else 1) && q == p2 + |Render(items[0])|
    ensures Holds(s, p2, Render(items[0]))
    ensures Holds(s, q, RenderItems(items[1..], false) + "]")
    ensures q < |s| && (s[q] == ',' || s[q] == ']')
    ensures p < |s| && !IsJsonSpace(s[p]) && s[p] != ']' && p2 == (if s[p] == ',' then p + 1 else p)
    ensures p + |RenderItems(items, first)| == q + |RenderItems(items[1..], false)|
  {
    var sep := if first then "" else ",";
    var r := Render(items[0]);
    p2, q := p + |sep|, p + |sep| + |r|;
    ItemsHead(items, first);
    Parts(s, p, sep, r, RenderItems(items[1..], false) + "]");
    ItemsNext(items[1..]);
    FirstChar(items[0]);
    HoldsAt(s, p + |sep|, r, 0);
  }

  /** The text facts of `ItemsText`, with what the searches of the first
      element and of the rest need. */
  lemma ItemsLayout(s: seq<char>, p: nat, items: seq<Json>, first: bool, fuel: nat) returns (p2: nat, q: nat)
    requires |items| > 0 && AllSearchable(items)
    requires Holds(s, p, RenderItems(items, first) + "]") && fuel >= ItemsCost(items)
    ensures p2 == p + (if first then 0 else 1) && q == p2 + |Render(items[0])|
    ensures p < |s| && !IsJsonSpace(s[p]) && s[p] != ']' && p2 == (if s[p] == ',' then p + 1 else p)
    ensures q < |s| && (s[q] == ',' || s[q] == ']')
    ensures p + |RenderItems(items, first)| == q + |RenderItems(items[1..], false)|
    ensures fuel > 0
    ensures Searchable(items[0]) && Holds(s, p2, Render(items[0])) && fuel - 1 >= Cost(items[0])
    ensures items[0].Leaf? ==> FollowStop(s, p2 + |Render(items[0])|)
    ensures AllSearchable(items[1..]) && Holds(s, q, RenderItems(items[1..], false) + "]")
    ensures fuel - 1 >= ItemsCost(items[1..])
  {
    p2, q := ItemsText(s, p, items, first);
  }

  /** Where the parts of a non-empty member list lie: the key's opening
      quote at `p2`, the value from `v`, the rest from `q`. A plain key is
      written unescaped. */
  lemma MembersText(s: seq<char>, p: nat, ms: seq<Member>, first: bool) returns (p2: nat, v: nat, q: nat)
    requires |ms| > 0 && PlainKey(ms[0].key) && Searchable(ms[0].value)
    requires Holds(s, p, RenderMembers(ms, first) + "}")
    ensures p2 == p + (if first then 0 else 1) && v == p2 + |ms[0].key| + 3 && q == v + |Render(ms[0].value)|
    ensures p < |s| && !IsJsonSpace(s[p]) && s[p] != '}' && p2 == (if s[p] == ',' then p + 1 else p)
    ensures p2 < |s| && s[p2] == '"' && Holds(s, p2 + 1, ms[0].key + "\"")
    ensures v < |s| && s[v - 1] == ':' && !IsJsonSpace(s[v])
    ensures Holds(s, v, Render(ms[0].value))
    ensures Holds(s, q, RenderMembers(ms[1..], false) + "}")
    ensures q < |s| && (s[q] == ',' || s[q] == '}')
    ensures |Quote(Escape(ms[0].key))| == |ms[0].key| + 2
    ensures p + |RenderMembers(ms, first)| == q + |RenderMembers(ms[1..], false)|
  {
    var sep := if first then "" else ",";
    var tail := RenderMembers(ms[1..], false) + "}";
    MembersShape(ms, first);
    p2, v, q := MemberParts(s, p, sep, ms[0].key, Render(ms[0].value), tail);
    MembersNext(ms[1..]);
    FirstChar(ms[0].value);
  }

  /** A member list with a plain first key, cut where the parser looks. */
  lemma MembersShape(ms: seq<Member>, first: bool)
    requires |ms| > 0 && PlainKey(ms[0].key)
    ensures RenderMembers(ms, first) + "}"
         == (if first then "" else ",") + "\"" + (ms[0].key + "\"")
            + (":" + Render(ms[0].value) + (RenderMembers(ms[1..], false) + "}"))
    ensures |Quote(Escape(ms[0].key))| == |ms[0].key| + 2
    ensures |RenderMembers(ms, first)|
         == (if first then 0 else 1) + |ms[0].key| + 3 + |Render(ms[0].value)| + |RenderMembers(ms[1..], false)|
  {
    var k := ms[0].key;
    EscapeIdentity(k);
    assert MemberText(ms[0]) == "\"" + k + "\"" + ":" + Render(ms[0].value);
    Regroup(if first then "" else ",", k, Render(ms[0].value), RenderMembers(ms[1..], false) + "}");
  }

  lemma Regroup(sep: seq<char>, k: seq<char>, r: seq<char>, tail: seq<char>)
    ensures sep + ("\"" + k + "\"" + ":" + r) + tail == sep + "\"" + (k + "\"") + (":" + r + tail)
  {
  }

  /** Where a separator, a quoted key, a colon, a value and what follows
      lie in the text. */
  lemma MemberParts(s: seq<char>, p: nat, sep: seq<char>, k: seq<char>, r: seq<char>, tail: seq<char>)
    returns (p2: nat, v: nat, q: nat)
    requires sep == "" || sep == ","
    requires |r| > 0 && |tail| > 0
    requires Holds(s, p, sep + "\"" + (k + "\"") + (":" + r + tail))
    ensures p2 == p + |sep| && v == p2 + |k| + 3 && q == v + |r|
    ensures p < |s| && (s[p] == ',' || s[p] == '"') && p2 == (if s[p] == ',' then p + 1 else p)
    ensures p2 < |s| && s[p2] == '"' && Holds(s, p2 + 1, k + "\"")
    ensures v < |s| && s[v - 1] == ':' && s[v] == r[0] && Holds(s, v, r)
    ensures q < |s| && s[q] == tail[0] && Holds(s, q, tail)
  {
    var a := sep + "\"";
    p2, v, q := p + |sep|, p + |sep| + |k| + 3, p + |sep| + |k| + 3 + |r|;
    HoldsSplit3(s, p, a, k + "\"", ":" + r + tail);
    Parts(s, v - 1, ":", r, tail);
    HoldsAt(s, p, a, 0);
    HoldsAt(s, p, a, |sep|);
    HoldsAt(s, v, r, 0);
  }

  /** The text facts of `MembersText`, with what the searches of the first
      value and of the rest need. */
  lemma MembersLayout(s: seq<char>, p: nat, ms: seq<Member>, first: bool, fuel: nat) returns (p2: nat, v: nat, q: nat)
    requires |ms| > 0 && MembersSearchable(ms)
    requires Holds(s, p, RenderMembers(ms, first) + "}") && fuel >= MembersCost(ms)
    ensures p2 == p + (if first then 0 else 1) && v == p2 + |ms[0].key| + 3 && q == v + |Render(ms[0].value)|
    ensures p < |s| && !IsJsonSpace(s[p]) && s[p] != '}' && p2 == (if s[p] == ',' then p + 1 else p)
    ensures p2 < |s| && s[p2] == '"' && Holds(s, p2 + 1, ms[0].key + "\"") && '"' !in ms[0].key
    ensures v < |s| && s[v - 1] == ':' && !IsJsonSpace(s[v])
    ensures q <= |s| && |Quote(Escape(ms[0].key))| == |ms[0].key| + 2
    ensures p + |RenderMembers(ms, first)| == q + |RenderMembers(ms[1..], false)|
    ensures fuel > 1
    ensures Searchable(ms[0].value) && Holds(s, v, Render(ms[0].value)) && fuel - 1 >= Cost(ms[0].value)
    ensures ms[0].value.Leaf? ==> FollowStop(s, v + |Render(ms[0].value)|)
    ensures MembersSearchable(ms[1..]) && Holds(s, q, RenderMembers(ms[1..], false) + "}")
    ensures fuel - 1 >= MembersCost(ms[1..])
  {
    p2, v, q := MembersText(s, p, ms, first);
    assert NeedsEscape('"');
  }

  // ---------------------------------------------------------------------
  // The search over rendered text

  /** `find`'s search from the start of a value the builder wrote: the
      first member named `key` in depth-first order, just after its colon;
      or, when there is none, a miss just past the value. */
  lemma {:induction false} SearchValue(s: seq<char>, p: nat, j: Json, key: CStr, fuel: nat)
    requires Searchable(j) && Holds(s, p, Render(j)) && fuel >= Cost(j)
    requires j.Leaf? ==> FollowStop(s, p + |Render(j)|)
    ensures FindKey(s, p, key, fuel) == Answer(FirstMatch(j, key), p, p + |Render(j)|)
    decreases j, 2
  {
    hide *;
    match j {
      case Leaf(v) => ValueLeaf(s, p, v, key, fuel);
      case Array(items) => ValueArray(s, p, items, key, fuel);
      case Object(ms) => ValueObject(s, p, ms, key, fuel);
    }
  }

  lemma ValueLeaf(s: seq<char>, p: nat, v: Scalar, key: CStr, fuel: nat)
    requires Searchable(Leaf(v)) && Holds(s, p, Render(Leaf(v))) && fuel >= Cost(Leaf(v))
    requires FollowStop(s, p + |Render(Leaf(v))|)
    ensures FindKey(s, p, key, fuel) == Answer(FirstMatch(Leaf(v), key), p, p + |Render(Leaf(v))|)
  {
    FirstChar(Leaf(v));
    HoldsAt(s, p, Render(Leaf(v)), 0);
    KeyEnter(s, p, key, fuel);
    SkipLeaf(s, p, v);
  }

  lemma {:induction false} ValueArray(s: seq<char>, p: nat, items: seq<Json>, key: CStr, fuel: nat)
    requires Searchable(Array(items)) && Holds(s, p, Render(Array(items))) && fuel >= Cost(Array(items))
    ensures FindKey(s, p, key, fuel) == Answer(FirstMatch(Array(items), key), p, p + |Render(Array(items))|)
    decreases Array(items), 1
  {
    hide *;
    ArrayText(s, p, items, key, fuel);
    KeyEnter(s, p, key, fuel);
    SearchItems(s, p + 1, items, true, key, fuel - 1);
  }

  /** A array the builder wrote: its opening delimiter, its list, and
      the reference answer in terms of the list's. */
  lemma ArrayText(s: seq<char>, p: nat, items: seq<Json>, key: CStr, fuel: nat)
    requires Searchable(Array(items)) && Holds(s, p, Render(Array(items))) && fuel >= Cost(Array(items))
    ensures p < |s| && s[p] == '[' && !IsJsonSpace(s[p]) && fuel > 0
    ensures AllSearchable(items) && Holds(s, p + 1, RenderItems(items, true) + "]") && fuel - 1 >= ItemsCost(items)
    ensures Answer(FirstMatch(Array(items), key), p, p + |Render(Array(items))|)
         == Answer(ItemsMatch(items, true, key), p + 1, p + 1 + |RenderItems(items, true)| + 1)
  {
    hide *;
    ArrayOpen(s, p, items, key);
    ArrayCost(items, fuel);
    AnswerShift(ItemsMatch(items, true, key), p, p + |Render(Array(items))|);
  }

  lemma ArrayCost(items: seq<Json>, fuel: nat)
    requires fuel >= Cost(Array(items))
    ensures fuel > 0 && fuel - 1 >= ItemsCost(items)
  {
  }

  lemma {:induction false} ValueObject(s: seq<char>, p: nat, ms: seq<Member>, key: CStr, fuel: nat)
    requires Searchable(Object(ms)) && Holds(s, p, Render(Object(ms))) && fuel >= Cost(Object(ms))
    ensures FindKey(s, p, key, fuel) == Answer(FirstMatch(Object(ms), key), p, p + |Render(Object(ms))|)
    decreases Object(ms), 1
  {
    hide *;
    ObjectText(s, p, ms, key, fuel);
    KeyEnter(s, p, key, fuel);
    SearchMembers(s, p + 1, ms, true, key, fuel - 1);
  }

  /** A object the builder wrote: its opening delimiter, its list, and
      the reference answer in terms of the list's. */
  lemma ObjectText(s: seq<char>, p: nat, ms: seq<Member>, key: CStr, fuel: nat)
    requires Searchable(Object(ms)) && Holds(s, p, Render(Object(ms))) && fuel >= Cost(Object(ms))
    ensures p < |s| && s[p] == '{' && !IsJsonSpace(s[p]) && fuel > 0
    ensures MembersSearchable(ms) && Holds(s, p + 1, RenderMembers(ms, true) + "}") && fuel - 1 >= MembersCost(ms)
    ensures Answer(FirstMatch(Object(ms), key), p, p + |Render(Object(ms))|)
         == Answer(MembersMatch(ms, true, key), p + 1, p + 1 + |RenderMembers(ms, true)| + 1)
  {
    hide *;
    ObjectOpen(s, p, ms, key);
    ObjectCost(ms, fuel);
    AnswerShift(MembersMatch(ms, true, key), p, p + |Render(Object(ms))|);
  }

  lemma ObjectCost(ms: seq<Member>, fuel: nat)
    requires fuel >= Cost(Object(ms))
    ensures fuel > 0 && fuel - 1 >= MembersCost(ms)
  {
  }

  /** The array loop over elements the builder wrote, up to and including
      the closing bracket. */
  lemma {:induction false} SearchItems(s: seq<char>, p: nat, items: seq<Json>, first: bool, key: CStr, fuel: nat)
    requires AllSearchable(items)
    requires Holds(s, p, RenderItems(items, first) + "]") && fuel >= ItemsCost(items)
    ensures FindInArray(s, p, key, fuel)
         == Answer(ItemsMatch(items, first, key), p, p + |RenderItems(items, first)| + 1)
    decreases items, 1
  {
    hide *;
    if |items| == 0 {
      ItemsEmpty(s, p, items, first, key, fuel);
    } else {
      var p2, q := ItemsLayout(s, p, items, first, fuel);
      SearchValue(s, p2, items[0], key, fuel - 1);
      if FirstMatch(items[0], key).None? {
        SearchItems(s, q, items[1..], false, key, fuel - 1);
      }
      ItemsStep(s, p, items, first, key, fuel, p2, q);
    }
  }

  /** The array loop at the closing bracket of an empty list. */
  lemma ItemsEmpty(s: seq<char>, p: nat, items: seq<Json>, first: bool, key: CStr, fuel: nat)
    requires |items| == 0 && Holds(s, p, RenderItems(items, first) + "]") && fuel >= ItemsCost(items)
    ensures FindInArray(s, p, key, fuel)
         == Answer(ItemsMatch(items, first, key), p, p + |RenderItems(items, first)| + 1)
  {
    HoldsAt(s, p, "]", 0);
    ArrayClose(s, p, key, fuel);
  }

  /** One turn of the array loop: the first element's answer if it has
      the key, otherwise the answer for the rest. */
  lemma ItemsStep(s: seq<char>, p: nat, items: seq<Json>, first: bool, key: CStr, fuel: nat, p2: nat, q: nat)
    requires |items| > 0 && fuel > 0
    requires p < |s| && !IsJsonSpace(s[p]) && s[p] != ']' && p2 == (if s[p] == ',' then p + 1 else p)
    requires p2 == p + (if first then 0 else 1) && q == p2 + |Render(items[0])|
    requires q < |s| && (s[q] == ',' || s[q] == ']')
    requires FindKey(s, p2, key, fuel - 1) == Answer(FirstMatch(items[0], key), p2, p2 + |Render(items[0])|)
    requires FirstMatch(items[0], key).None? ==>
               FindInArray(s, q, key, fuel - 1)
               == Answer(ItemsMatch(items[1..], false, key), q, q + |RenderItems(items[1..], false)| + 1)
    requires p + |RenderItems(items, first)| == q + |RenderItems(items[1..], false)|
    ensures FindInArray(s, p, key, fuel)
         == Answer(ItemsMatch(items, first, key), p, p + |RenderItems(items, first)| + 1)
  {
    ArrayStep(s, p, p2, q, key, fuel);
    ItemsAnswer(items, first, key, p, p2, q);
  }

  /** One turn of the array loop, from where the element's search ends. */
  lemma ArrayStep(s: seq<char>, p: nat, p2: nat, q: nat, key: CStr, fuel: nat)
    requires p < |s| && fuel > 0 && !IsJsonSpace(s[p]) && s[p] != ']'
    requires p2 == if s[p] == ',' then p + 1 else p
    requires q < |s| && (s[q] == ',' || s[q] == ']')
    requires FindKey(s, p2, key, fuel - 1).Missing? ==> FindKey(s, p2, key, fuel - 1).pos == q
    ensures FindInArray(s, p, key, fuel)
         == if FindKey(s, p2, key, fuel - 1).Missing? then FindInArray(s, q, key, fuel - 1)
            else FindKey(s, p2, key, fuel - 1)
  {
    ArrayTurn(s, p, key, fuel);
    if FindKey(s, p2, key, fuel - 1).Missing? {
      SkipValueAtDelimiter(s, q);
    }
  }

  /** The reference answer for a non-empty element list, from the answers
      for its first element and for the rest. */
  lemma ItemsAnswer(items: seq<Json>, first: bool, key: CStr, p: nat, p2: nat, q: nat)
    requires |items| > 0 && p2 == p + (if first then 0 else 1) && q == p2 + |Render(items[0])|
    requires p + |RenderItems(items, first)| == q + |RenderItems(items[1..], false)|
    ensures Answer(ItemsMatch(items, first, key), p, p + |RenderItems(items, first)| + 1)
         == if FirstMatch(items[0], key).Some?
            then Answer(FirstMatch(items[0], key), p2, p2 + |Render(items[0])|)
            else Answer(ItemsMatch(items[1..], false, key), q, q + |RenderItems(items[1..], false)| + 1)
  {
  }

  /** The object loop over members the builder wrote, up to and including
      the closing brace. */
  lemma {:induction false} SearchMembers(s: seq<char>, p: nat, ms: seq<Member>, first: bool, key: CStr, fuel: nat)
    requires MembersSearchable(ms)
    requires Holds(s, p, RenderMembers(ms, first) + "}") && fuel >= MembersCost(ms)
    ensures FindInObject(s, p, key, fuel)
         == Answer(MembersMatch(ms, first, key), p, p + |RenderMembers(ms, first)| + 1)
    decreases ms, 1
  {
    hide *;
    if |ms| == 0 {
      MembersEmpty(s, p, ms, first, key, fuel);
    } else {
      var p2, v, q := MembersLayout(s, p, ms, first, fuel);
      SearchValue(s, v, ms[0].value, key, fuel - 1);
      if ms[0].key != key && FirstMatch(ms[0].value, key).None? {
        SearchMembers(s, q, ms[1..], false, key, fuel - 1);
      }
      MembersStep(s, p, ms, first, key, fuel, p2, v, q);
    }
  }

  /** The object loop at the closing brace of an empty list. */
  lemma MembersEmpty(s: seq<char>, p: nat, ms: seq<Member>, first: bool, key: CStr, fuel: nat)
    requires |ms| == 0 && Holds(s, p, RenderMembers(ms, first) + "}") && fuel >= MembersCost(ms)
    ensures FindInObject(s, p, key, fuel)
         == Answer(MembersMatch(ms, first, key), p, p + |RenderMembers(ms, first)| + 1)
  {
    HoldsAt(s, p, "}", 0);
    SkipWsNone(s, p);
  }

  /** One turn of the object loop: the member itself if its key is `key`,
      else its value's answer if that has the key, else the answer for the
      rest. */
  lemma MembersStep(s: seq<char>, p: nat, ms: seq<Member>, first: bool, key: CStr, fuel: nat, p2: nat, v: nat, q: nat)
    requires |ms| > 0 && fuel > 1
    requires p < |s| && !IsJsonSpace(s[p]) && s[p] != '}' && p2 == (if s[p] == ',' then p + 1 else p)
    requires p2 < |s| && s[p2] == '"' && Holds(s, p2 + 1, ms[0].key + "\"") && '"' !in ms[0].key
    requires p2 == p + (if first then 0 else 1) && v == p2 + |ms[0].key| + 3 && q == v + |Render(ms[0].value)|
    requires v < |s| && s[v - 1] == ':' && !IsJsonSpace(s[v])
    requires q <= |s| && |Quote(Escape(ms[0].key))| == |ms[0].key| + 2
    requires p + |RenderMembers(ms, first)| == q + |RenderMembers(ms[1..], false)|
    requires FindKey(s, v, key, fuel - 1) == Answer(FirstMatch(ms[0].value, key), v, v + |Render(ms[0].value)|)
    requires ms[0].key != key && FirstMatch(ms[0].value, key).None? ==>
               FindInObject(s, q, key, fuel - 1)
               == Answer(MembersMatch(ms[1..], false, key), q, q + |RenderMembers(ms[1..], false)| + 1)
    ensures FindInObject(s, p, key, fuel)
         == Answer(MembersMatch(ms, first, key), p, p + |RenderMembers(ms, first)| + 1)
  {
    ObjectStep(s, p, p2, ms[0].key, v, q, key, fuel);
    MembersAnswer(ms, first, key, p, p2, v, q);
  }

  /** `_parseString` reads a key written without escapes back exactly. */
  lemma {:induction false} ParseKnown(s: seq<char>, p: nat, k: seq<char>)
    requires Holds(s, p, k + "\"") && '"' !in k
    ensures ParseString(s, p) == (k, p + |k| + 1)
    decreases |k|
  {
    HoldsAt(s, p, k + "\"", 0);
    if |k| > 0 {
      assert (k + "\"")[1..] == k[1..] + "\"";
      ParseKnown(s, p + 1, k[1..]);
      assert [k[0]] + k[1..] == k;
    }
  }

  /** A text with no NUL is all `strcmp` sees of it. */
  lemma UntilNulWhole(k: CStr)
    ensures UntilNul(k) == k
  {
  }

  /** One turn of the object loop, from where the key ends and where the
      value's search ends. */
  lemma ObjectStep(s: seq<char>, p: nat, p2: nat, k: CStr, v: nat, q: nat, key: CStr, fuel: nat)
    requires p < |s| && fuel > 1 && !IsJsonSpace(s[p]) && s[p] != '}'
    requires p2 == (if s[p] == ',' then p + 1 else p) && p2 < |s| && s[p2] == '"'
    requires Holds(s, p2 + 1, k + "\"") && '"' !in k
    requires v == p2 + |k| + 3 && v < |s| && s[v - 1] == ':' && !IsJsonSpace(s[v])
    requires q <= |s|
    requires FindKey(s, v, key, fuel - 1).Missing? ==> FindKey(s, v, key, fuel - 1).pos == q
    ensures FindInObject(s, p, key, fuel)
         == if k == key then Found(v)
            else if FindKey(s, v, key, fuel - 1).Missing? then FindInObject(s, q, key, fuel - 1)
            else FindKey(s, v, key, fuel - 1)
  {
    SkipWsNone(s, p);
    SkipWsNone(s, p2);
    ParseKnown(s, p2 + 1, k);
    SkipWsNone(s, v - 1);
    UntilNulWhole(k);
    if k != key {
      SkipWsNone(s, v);
      MemberValueStep(s, v, q, key, fuel);
    }
  }

  /** The object loop after a member's colon: the value's search, then
      the loop again from where that search stopped. */
  lemma MemberValueStep(s: seq<char>, v: nat, q: nat, key: CStr, fuel: nat)
    requires v < |s| && fuel > 1 && !IsJsonSpace(s[v]) && q <= |s|
    requires FindKey(s, v, key, fuel - 1).Missing? ==> FindKey(s, v, key, fuel - 1).pos == q
    ensures MemberValue(s, v, key, fuel)
         == if FindKey(s, v, key, fuel - 1).Missing? then FindInObject(s, q, key, fuel - 1)
            else FindKey(s, v, key, fuel - 1)
  {
    KeyEnter(s, v, key, fuel - 1);
  }

  /** The reference answer for a non-empty member list, from its first
      member's key, its value's answer and the answer for the rest. */
  lemma MembersAnswer(ms: seq<Member>, first: bool, key: CStr, p: nat, p2: nat, v: nat, q: nat)
    requires |ms| > 0 && p2 == p + (if first then 0 else 1)
    requires v == p2 + |ms[0].key| + 3 && q == v + |Render(ms[0].value)|
    requires |Quote(Escape(ms[0].key))| == |ms[0].key| + 2
    requires p + |RenderMembers(ms, first)| == q + |RenderMembers(ms[1..], false)|
    ensures Answer(MembersMatch(ms, first, key), p, p + |RenderMembers(ms, first)| + 1)
         == if ms[0].key == key then Found(v)
            else if FirstMatch(ms[0].value, key).Some? then Answer(FirstMatch(ms[0].value, key), v, q)
            else Answer(MembersMatch(ms[1..], false, key), q, q + |RenderMembers(ms[1..], false)| + 1)
  {
  }

  // ---------------------------------------------------------------------
  // What the reference search points at

  lemma AnswerShift(o: Option<(nat, Json)>, p: nat, end: nat)
    ensures Answer(Shift(1, o), p, end) == Answer(o, p + 1, end)
  {
  }

  lemma LeafMisses(v: Scalar, key: CStr)
    ensures FirstMatch(Leaf(v), key) == None
  {
  }

  /** Moving an answer by `n` characters keeps it pointing at its value. */
  lemma ShiftHolds(s: seq<char>, p: nat, n: nat, o: Option<(nat, Json)>)
    requires o.Some? ==> Holds(s, p + n + o.value.0, Render(o.value.1))
    ensures Shift(n, o).Some? ==> Holds(s, p + Shift(n, o).value.0, Render(Shift(n, o).value.1))
  {
  }

  /** The offset `FirstMatch` gives is where the matched value's text
      starts. */
  lemma {:induction false} MatchText(s: seq<char>, p: nat, j: Json, key: CStr)
    requires Searchable(j) && Holds(s, p, Render(j))
    ensures FirstMatch(j, key).Some? ==> Holds(s, p + FirstMatch(j, key).value.0, Render(FirstMatch(j, key).value.1))
    decreases j, 2
  {
    hide *;
    match j {
      case Leaf(v) => LeafMisses(v, key);
      case Array(items) => ArrayMatchText(s, p, items, key);
      case Object(ms) => ObjectMatchText(s, p, ms, key);
    }
  }

  lemma ArrayOpen(s: seq<char>, p: nat, items: seq<Json>, key: CStr)
    requires Searchable(Array(items)) && Holds(s, p, Render(Array(items)))
    ensures AllSearchable(items) && Holds(s, p + 1, RenderItems(items, true) + "]")
    ensures FirstMatch(Array(items), key) == Shift(1, ItemsMatch(items, true, key))
    ensures p < |s| && s[p] == '[' && !IsJsonSpace(s[p])
    ensures |Render(Array(items))| == |RenderItems(items, true)| + 2
  {
    var t := RenderItems(items, true) + "]";
    assert Render(Array(items)) == "[" + t;
    HoldsSplit(s, p, "[", t);
    HoldsAt(s, p, "[", 0);
  }

  lemma ObjectOpen(s: seq<char>, p: nat, ms: seq<Member>, key: CStr)
    requires Searchable(Object(ms)) && Holds(s, p, Render(Object(ms)))
    ensures MembersSearchable(ms) && Holds(s, p + 1, RenderMembers(ms, true) + "}")
    ensures FirstMatch(Object(ms), key) == Shift(1, MembersMatch(ms, true, key))
    ensures p < |s| && s[p] == '{' && !IsJsonSpace(s[p])
    ensures |Render(Object(ms))| == |RenderMembers(ms, true)| + 2
  {
    var t := RenderMembers(ms, true) + "}";
    assert Render(Object(ms)) == "{" + t;
    HoldsSplit(s, p, "{", t);
    HoldsAt(s, p, "{", 0);
  }

  lemma {:induction false} ArrayMatchText(s: seq<char>, p: nat, items: seq<Json>, key: CStr)
    requires Searchable(Array(items)) && Holds(s, p, Render(Array(items)))
    ensures FirstMatch(Array(items), key).Some? ==>
              Holds(s, p + FirstMatch(Array(items), key).value.0, Render(FirstMatch(Array(items), key).value.1))
    decreases Array(items), 1
  {
    hide *;
    ArrayOpen(s, p, items, key);
    ItemsMatchText(s, p + 1, items, true, key);
    ShiftHolds(s, p, 1, ItemsMatch(items, true, key));
  }

  lemma {:induction false} ObjectMatchText(s: seq<char>, p: nat, ms: seq<Member>, key: CStr)
    requires Searchable(Object(ms)) && Holds(s, p, Render(Object(ms)))
    ensures FirstMatch(Object(ms), key).Some? ==>
              Holds(s, p + FirstMatch(Object(ms), key).value.0, Render(FirstMatch(Object(ms), key).value.1))
    decreases Object(ms), 1
  {
    hide *;
    ObjectOpen(s, p, ms, key);
    MembersMatchText(s, p + 1, ms, true, key);
    ShiftHolds(s, p, 1, MembersMatch(ms, true, key));
  }

  lemma {:induction false} ItemsMatchText(s: seq<char>, p: nat, items: seq<Json>, first: bool, key: CStr)
    requires AllSearchable(items) && Holds(s, p, RenderItems(items, first) + "]")
    ensures ItemsMatch(items, first, key).Some? ==>
              Holds(s, p + ItemsMatch(items, first, key).value.0, Render(ItemsMatch(items, first, key).value.1))
    decreases items, 1
  {
    hide *;
    if |items| == 0 {
      ItemsNone(items, first, key);
    } else {
      var p2, q := ItemsLayout(s, p, items, first, ItemsCost(items));
      MatchText(s, p2, items[0], key);
      ItemsMatchText(s, q, items[1..], false, key);
      ItemsSplit(items, first, key, p, p2, q);
      ShiftHolds(s, p, p2 - p, FirstMatch(items[0], key));
      ShiftHolds(s, p, q - p, ItemsMatch(items[1..], false, key));
    }
  }

  lemma ItemsNone(items: seq<Json>, first: bool, key: CStr)
    requires |items| == 0
    ensures ItemsMatch(items, first, key) == None
  {
  }

  /** `ItemsMatch` in terms of where the first element and the rest
      start. */
  lemma ItemsSplit(items: seq<Json>, first: bool, key: CStr, p: nat, p2: nat, q: nat)
    requires |items| > 0 && p2 == p + (if first then 0 else 1) && q == p2 + |Render(items[0])|
    ensures ItemsMatch(items, first, key)
         == if FirstMatch(items[0], key).Some? then Shift(p2 - p, FirstMatch(items[0], key))
            else Shift(q - p, ItemsMatch(items[1..], false, key))
  {
  }

  lemma {:induction false} MembersMatchText(s: seq<char>, p: nat, ms: seq<Member>, first: bool, key: CStr)
    requires MembersSearchable(ms) && Holds(s, p, RenderMembers(ms, first) + "}")
    ensures MembersMatch(ms, first, key).Some? ==>
              Holds(s, p + MembersMatch(ms, first, key).value.0, Render(MembersMatch(ms, first, key).value.1))
    decreases ms, 1
  {
    hide *;
    if |ms| == 0 {
      MembersNone(ms, first, key);
    } else {
      var p2, v, q := MembersLayout(s, p, ms, first, MembersCost(ms));
      MatchText(s, v, ms[0].value, key);
      MembersMatchText(s, q, ms[1..], false, key);
      MembersSplit(ms, first, key, p, p2, v, q);
      ShiftHolds(s, p, v - p, FirstMatch(ms[0].value, key));
      ShiftHolds(s, p, q - p, MembersMatch(ms[1..], false, key));
    }
  }

  lemma MembersNone(ms: seq<Member>, first: bool, key: CStr)
    requires |ms| == 0
    ensures MembersMatch(ms, first, key) == None
  {
  }

  /** `MembersMatch` in terms of where the first value and the rest
      start. */
  lemma MembersSplit(ms: seq<Member>, first: bool, key: CStr, p: nat, p2: nat, v: nat, q: nat)
    requires |ms| > 0 && p2 == p + (if first then 0 else 1)
    requires v == p2 + |ms[0].key| + 3 && q == v + |Render(ms[0].value)|
    requires |Quote(Escape(ms[0].key))| == |ms[0].key| + 2
    ensures MembersMatch(ms, first, key)
         == if ms[0].key == key then Some((v - p, ms[0].value))
            else if FirstMatch(ms[0].value, key).Some? then Shift(v - p, FirstMatch(ms[0].value, key))
            else Shift(q - p, MembersMatch(ms[1..], false, key))
  {
  }

  /** The reference search finds something exactly when some member, at
      any depth, is named `key`. */
  lemma {:induction false} MatchHasKey(j: Json, key: CStr)
    ensures FirstMatch(j, key).Some? <==> HasKey(j, key)
    decreases j, 1
  {
    match j {
      case Leaf(_) =>
      case Array(items) => ItemsHasKey(items, true, key);
      case Object(ms) => MembersHasKey(ms, true, key);
    }
  }

  lemma {:induction false} ItemsHasKey(items: seq<Json>, first: bool, key: CStr)
    ensures ItemsMatch(items, first, key).Some? <==> exists i :: 0 <= i < |items| && HasKey(items[i], key)
    decreases items, 0
  {
    if |items| > 0 {
      var rest := items[1..];
      MatchHasKey(items[0], key);
      ItemsHasKey(rest, false, key);
      if i :| 0 <= i < |items| && HasKey(items[i], key) {
        if i > 0 {
          assert rest[i - 1] == items[i];
        }
      }
      if i :| 0 <= i < |rest| && HasKey(rest[i], key) {
        assert items[i + 1] == rest[i];
      }
    }
  }

  lemma {:induction false} MembersHasKey(ms: seq<Member>, first: bool, key: CStr)
    ensures MembersMatch(ms, first, key).Some?
        <==> exists i :: 0 <= i < |ms| && (ms[i].key == key || HasKey(ms[i].value, key))
    decreases ms, 0
  {
    if |ms| > 0 {
      var rest := ms[1..];
      MatchHasKey(ms[0].value, key);
      MembersHasKey(rest, false, key);
      if i :| 0 <= i < |ms| && (ms[i].key == key || HasKey(ms[i].value, key)) {
        if i > 0 {
          assert rest[i - 1] == ms[i];
        }
      }
      if i :| 0 <= i < |rest| && (rest[i].key == key || HasKey(rest[i].value, key)) {
        assert ms[i + 1] == rest[i];
      }
    }
  }

  // ---------------------------------------------------------------------
  // find, then getValueStream

  /** `find`'s scan for the first container stops at the document. */
  lemma {:induction false} ScanTo(s: seq<char>, w: nat, p: nat)
    requires w <= p < |s| && (s[p] == '{' || s[p] == '[')
    requires forall i :: w <= i < p ==> s[i] != '{' && s[i] != '['
    ensures SkipToContainer(s, w) == p
    decreases p - w
  {
    if w < p {
      ScanTo(s, w + 1, p);
    }
  }

  /** `find` on a stream holding a document the builder wrote, after text
      with no bracket or brace: the first member named `key`, just after
      its colon, or a miss just past the document. */
  lemma FindRendered(s: seq<char>, p: nat, j: Json, key: CStr, fuel: nat)
    requires (j.Array? || j.Object?) && Searchable(j) && Holds(s, p, Render(j)) && fuel >= Cost(j)
    requires forall i :: 0 <= i < p ==> s[i] != '{' && s[i] != '['
    ensures Find(s, 0, key, fuel) == Answer(FirstMatch(j, key), p, p + |Render(j)|)
  {
    FirstChar(j);
    HoldsAt(s, p, Render(j), 0);
    SkipWsSpan(s, 0);
    ScanTo(s, SkipWs(s, 0), p);
    SearchValue(s, p, j, key, fuel);
  }

  /** `find(key)` followed by `getValueStream()` gives back the text of
      the first string member named `key`. */
  lemma FindThenString(s: seq<char>, p: nat, j: Json, key: CStr, t: CStr)
    requires (j.Array? || j.Object?) && Searchable(j) && Holds(s, p, Render(j))
    requires forall i :: 0 <= i < p ==> s[i] != '{' && s[i] != '['
    requires FirstMatch(j, key).Some? && FirstMatch(j, key).value.1 == Leaf(Str(t))
    ensures Find(s, 0, key, Cost(j)) == Found(p + FirstMatch(j, key).value.0)
    ensures GetValueStream(s, p + FirstMatch(j, key).value.0)
         == Done(t, p + FirstMatch(j, key).value.0 + |Quote(Escape(t))|)
  {
    hide *;
    FindRendered(s, p, j, key, Cost(j));
    FoundAnswer(FirstMatch(j, key), p, p + |Render(j)|);
    MatchText(s, p, j, key);
    StringText(t);
    GetStringValue(s, p + FirstMatch(j, key).value.0, t);
  }

  lemma FoundAnswer(o: Option<(nat, Json)>, p: nat, end: nat)
    requires o.Some?
    ensures Answer(o, p, end) == Found(p + o.value.0)
  {
  }

  lemma StringText(t: CStr)
    ensures Render(Leaf(Str(t))) == Quote(Escape(t))
  {
  }

  // ---------------------------------------------------------------------
  // The other value kinds of getValueStream

  /** The two-character escapes the builder writes are read back by the
      string loop as the character that was escaped. */
  lemma EscapedCharInverts(c: char)
    requires NeedsEscape(c)
    ensures EscapeChar(c)[0] == '\\' && EscapedChar(EscapeChar(c)[1]) == c
  {
  }

  /** `getValueStream` on `true`, `false` or `null` the builder wrote emits
      nothing and passes over the literal. */
  lemma GetLiteralValue(s: seq<char>, p: nat, v: Scalar)
    requires (v.Bool? || v.Null?) && Holds(s, p, ScalarText(v)) && FollowStop(s, p + |ScalarText(v)|)
    ensures GetValueStream(s, p) == Done([], p + |ScalarText(v)|)
  {
    HoldsAt(s, p, ScalarText(v), 0);
    SkipWsNone(s, p);
    SkipLiteralLeaf(s, p, v);
  }

  /** The number loop passes over a run of number characters that is not
      followed by another one. */
  lemma {:induction false} NumberRun(s: seq<char>, p: nat, t: seq<char>)
    requires Holds(s, p, t) && (p + |t| < |s| ==> !IsNumberChar(s[p + |t|]))
    requires forall k :: 0 <= k < |t| ==> IsNumberChar(t[k])
    ensures NumberValue(s, p) == p + |t|
    decreases |t|
  {
    if |t| > 0 {
      HoldsAt(s, p, t, 0);
      NumberRun(s, p + 1, t[1..]);
    }
  }

  /** An integer the builder wrote streams back as its decimal text, which
      reads back to the integer, when no number character follows it. */
  lemma GetIntValue(s: seq<char>, p: nat, i: int)
    requires Holds(s, p, Decimal(i))
    requires p + |Decimal(i)| < |s| ==> !IsNumberChar(s[p + |Decimal(i)|])
    ensures GetValueStream(s, p) == Done(Decimal(i), p + |Decimal(i)|)
    ensures DecimalValue(GetValueStream(s, p).out) == i
  {
    var t := Decimal(i);
    HoldsAt(s, p, t, 0);
    assert IsNumberChar(t[0]);
    SkipWsNone(s, p);
    NumberRun(s, p, t);
    HoldsSlice(s, p, t);
    DecimalRoundTrip(i);
  }
}
