/** Sequences of builder calls, and the compact-mode theorem: the calls a
    JSON tree stands for write exactly its compact text when the buffer has
    room for it.

    In compact mode `beginObject`/`beginArray` never move `depth`, so every
    container shares the flags of level 0; the theorem shows that sharing
    still yields the right commas. */
module BuilderRender {
  import opened Chars
  import opened Json
  import opened JsonBuilder

  /** One public call on the builder. */
  datatype Call =
    | OpenObject
    | OpenArray
    | CloseObject
    | CloseArray
    | KeyCall(name: CStr)
    | ValueCall(v: Scalar)

  function Apply(b: Builder, c: Call): (r: Builder)
    requires Valid(b)
    ensures Valid(r) && Appended(b, r) && r.pretty == b.pretty
  {
    match c
    case OpenObject => Begin(b, '{', 'O')
    case OpenArray => Begin(b, '[', 'A')
    case CloseObject => End(b, '}')
    case CloseArray => End(b, ']')
    case KeyCall(k) => Key(b, k)
    case ValueCall(v) => Value(b, v)
  }

  function Run(b: Builder, calls: seq<Call>): (r: Builder)
    requires Valid(b)
    ensures Valid(r) && Appended(b, r) && r.pretty == b.pretty
    decreases |calls|
  {
    if |calls| == 0 then b
    else
      var b1 := Apply(b, calls[0]);
      var r := Run(b1, calls[1..]);
      AppendedTrans(b, b1, r);
      r
  }

  lemma {:induction false} RunAppend(b: Builder, c1: seq<Call>, c2: seq<Call>)
    requires Valid(b)
    ensures Run(b, c1 + c2) == Run(Run(b, c1), c2)
    decreases |c1|
  {
    if |c1| == 0 {
      assert c1 + c2 == c2;
    } else {
      assert (c1 + c2)[0] == c1[0];
      assert (c1 + c2)[1..] == c1[1..] + c2;
      RunAppend(Apply(b, c1[0]), c1[1..], c2);
    }
  }

  lemma RunOne(b: Builder, c: Call)
    requires Valid(b)
    ensures Run(b, [c]) == Apply(b, c)
  {
    assert [c][1..] == [];
  }

  /** The calls that write `j`: scalars with `value`, containers between
      `begin*` and `end*`, each member as `key` then its value. */
  function Events(j: Json): seq<Call>
  {
    match j
    case Leaf(v) => [ValueCall(v)]
    case Array(items) => [OpenArray] + ItemEvents(items) + [CloseArray]
    case Object(members) => [OpenObject] + MemberEvents(members) + [CloseObject]
  }

  function ItemEvents(items: seq<Json>): seq<Call>
  {
    if |items| == 0 then [] else Events(items[0]) + ItemEvents(items[1..])
  }

  function MemberEvents(members: seq<Member>): seq<Call>
  {
    if |members| == 0 then []
    else [KeyCall(members[0].key)] + Events(members[0].value) + MemberEvents(members[1..])
  }

  /** Compact mode at level 0, the only level compact mode uses. */
  predicate Compact(b: Builder)
  {
    Valid(b) && !b.pretty && b.depth == 0
  }

  lemma RoomAfter(b: Builder, r: Builder, n: nat)
    requires Valid(b) && Valid(r) && |r.buf| == |b.buf|
    requires |Text(r)| == |Text(b)| + n
    ensures Room(r) == Room(b) - n
  {
  }

  /** The compact-mode separator: a comma unless a key was just written or
      the level is still empty. */
  lemma CompactSeparator(b: Builder)
    requires Compact(b)
    ensures SeparatorText(b) == if b.justWroteKey[0] || b.isFirst[0] then [] else ","
  {
  }

  lemma OpenStep(b: Builder, c: Call)
    requires Compact(b) && (c == OpenObject || c == OpenArray)
    requires Room(b) >= |SeparatorText(b)| + 1
    ensures var r := Run(b, [c]);
      && Compact(r) && r.isFirst[0] && !r.justWroteKey[0]
      && Text(r) == Text(b) + SeparatorText(b) + [if c == OpenObject then '{' else '[']
      && Room(r) == Room(b) - |SeparatorText(b)| - 1
  {
    var open := if c == OpenObject then '{' else '[';
    BeginRun(b, c);
    var r := Begin(b, open, if c == OpenObject then 'O' else 'A');
    assert OpenText(b, open) == SeparatorText(b) + [open];
    RoomAfter(b, r, |SeparatorText(b)| + 1);
  }

  lemma CloseStep(b: Builder, c: Call)
    requires Compact(b) && (c == CloseObject || c == CloseArray)
    requires Room(b) >= 1
    ensures var r := Run(b, [c]);
      && Compact(r) && !r.isFirst[0] && r.justWroteKey[0] == b.justWroteKey[0]
      && Text(r) == Text(b) + [if c == CloseObject then '}' else ']']
      && Room(r) == Room(b) - 1
  {
    var close := if c == CloseObject then '}' else ']';
    EndRun(b, c);
    var r := End(b, close);
    assert CloseText(b, close) == [close];
    RoomAfter(b, r, 1);
  }

  lemma ValueStep(b: Builder, v: Scalar)
    requires Compact(b)
    requires Room(b) >= |SeparatorText(b) + ScalarText(v)|
    ensures var r := Run(b, [ValueCall(v)]);
      && Compact(r) && !r.isFirst[0] && !r.justWroteKey[0]
      && Text(r) == Text(b) + SeparatorText(b) + ScalarText(v)
      && Room(r) == Room(b) - |SeparatorText(b)| - |ScalarText(v)|
  {
    ValueRun(b, v);
    var r := Value(b, v);
    RoomAfter(b, r, |SeparatorText(b)| + |ScalarText(v)|);
  }

  lemma ValueRun(b: Builder, v: Scalar)
    requires Valid(b)
    ensures Run(b, [ValueCall(v)]) == Value(b, v)
  {
    RunOne(b, ValueCall(v));
  }

  lemma KeyStep(b: Builder, k: CStr)
    requires Compact(b)
    requires Room(b) >= |SeparatorText(b) + Quote(Escape(k)) + ":"|
    ensures var r := Run(b, [KeyCall(k)]);
      && Compact(r) && !r.isFirst[0] && r.justWroteKey[0] && SeparatorText(r) == []
      && Text(r) == Text(b) + SeparatorText(b) + Quote(Escape(k)) + ":"
      && Room(r) == Room(b) - |SeparatorText(b)| - |Quote(Escape(k))| - 1
  {
    KeyRun(b, k);
    assert KeyText(b, k) == SeparatorText(b) + Quote(Escape(k)) + ":";
    RoomAfter(b, Key(b, k), |KeyText(b, k)|);
  }

  lemma KeyRun(b: Builder, k: CStr)
    requires Valid(b)
    ensures Run(b, [KeyCall(k)]) == Key(b, k)
  {
    RunOne(b, KeyCall(k));
  }

  lemma BeginRun(b: Builder, c: Call)
    requires Valid(b) && (c == OpenObject || c == OpenArray)
    ensures Run(b, [c]) == if c == OpenObject then Begin(b, '{', 'O') else Begin(b, '[', 'A')
  {
    RunOne(b, c);
  }

  lemma EndRun(b: Builder, c: Call)
    requires Valid(b) && (c == CloseObject || c == CloseArray)
    ensures Run(b, [c]) == if c == CloseObject then End(b, '}') else End(b, ']')
  {
    RunOne(b, c);
  }

  /** Writing one tree in compact mode: the separator the state asks for,
      then the tree's compact text; afterwards the level is no longer first
      and no key is pending. */
  lemma {:induction false} RenderCompact(b: Builder, j: Json)
    requires Compact(b)
    requires Room(b) >= |SeparatorText(b) + Render(j)|
    ensures var r := Run(b, Events(j));
      && Compact(r) && !r.isFirst[0] && !r.justWroteKey[0]
      && Text(r) == Text(b) + SeparatorText(b) + Render(j)
    decreases j, 2
  {
    match j
    case Leaf(v) => ValueStep(b, v);
    case Array(items) => RenderContainer(b, OpenArray, Events(j), ItemEvents(items), RenderItems(items, true), j);
    case Object(members) => RenderContainer(b, OpenObject, Events(j), MemberEvents(members), RenderMembers(members, true), j);
  }

  /** A container: open, its contents, close. */
  lemma {:induction false} RenderContainer(b: Builder, open: Call, calls: seq<Call>, inner: seq<Call>, text: seq<char>, j: Json)
    requires Compact(b) && !j.Leaf?
    requires open == (if j.Object? then OpenObject else OpenArray)
    requires calls == Events(j)
    requires j.Array? ==> inner == ItemEvents(j.items) && text == RenderItems(j.items, true)
    requires j.Object? ==> inner == MemberEvents(j.members) && text == RenderMembers(j.members, true)
    requires Room(b) >= |SeparatorText(b) + Render(j)|
    ensures var r := Run(b, calls);
      && Compact(r) && !r.isFirst[0] && !r.justWroteKey[0]
      && Text(r) == Text(b) + SeparatorText(b) + Render(j)
    decreases j, 1
  {
    var close := if j.Object? then CloseObject else CloseArray;
    var lo := if j.Object? then '{' else '[';
    var hi := if j.Object? then '}' else ']';
    assert Render(j) == [lo] + text + [hi];
    assert calls == [open] + inner + [close];
    var sep := SeparatorText(b);
    OpenStep(b, open);
    var b1 := Run(b, [open]);
    if j.Array? {
      RenderItemsCompact(b1, j.items, true);
    } else {
      RenderMembersCompact(b1, j.members, true);
    }
    var b2 := Run(b1, inner);
    RoomAfter(b1, b2, |text|);
    CloseStep(b2, close);
    RunAppend(b, [open], inner);
    RunAppend(b, [open] + inner, [close]);
    RegroupContainer(Text(b), sep, [lo], text, [hi]);
  }

  /** Regrouping a container written as separator, delimiter, items and
      delimiter. */
  lemma RegroupContainer(a: seq<char>, w: seq<char>, x: seq<char>, y: seq<char>, z: seq<char>)
    ensures (((a + w) + x) + y) + z == (a + w) + ((x + y) + z)
  {
  }

  /** Regrouping a sibling written after a separator. */
  lemma RegroupSibling(a: seq<char>, x: seq<char>, y: seq<char>, z: seq<char>)
    ensures ((a + x) + y) + z == a + ((x + y) + z)
  {
  }

  /** Writing sibling values: `first` is the level's flag on entry and
      decides the leading comma, as in `RenderItems`. */
  lemma {:induction false} RenderItemsCompact(b: Builder, items: seq<Json>, first: bool)
    requires Compact(b) && !b.justWroteKey[0] && b.isFirst[0] == first
    requires Room(b) >= |RenderItems(items, first)|
    ensures var r := Run(b, ItemEvents(items));
      && Compact(r) && !r.justWroteKey[0] && r.isFirst[0] == (first && |items| == 0)
      && Text(r) == Text(b) + RenderItems(items, first)
    decreases items, 0
  {
    if |items| == 0 {
      assert Text(b) + [] == Text(b);
    } else {
      var sep: seq<char> := if first then "" else ",";
      CompactSeparator(b);
      var head := Render(items[0]);
      var rest := RenderItems(items[1..], false);
      assert RenderItems(items, first) == sep + head + rest;
      RenderCompact(b, items[0]);
      var b1 := Run(b, Events(items[0]));
      RoomAfter(b, b1, |sep| + |head|);
      RenderItemsCompact(b1, items[1..], false);
      RunAppend(b, Events(items[0]), ItemEvents(items[1..]));
      RegroupSibling(Text(b), sep, head, rest);
    }
  }

  lemma {:induction false} RenderMembersCompact(b: Builder, members: seq<Member>, first: bool)
    requires Compact(b) && !b.justWroteKey[0] && b.isFirst[0] == first
    requires Room(b) >= |RenderMembers(members, first)|
    ensures var r := Run(b, MemberEvents(members));
      && Compact(r) && !r.justWroteKey[0] && r.isFirst[0] == (first && |members| == 0)
      && Text(r) == Text(b) + RenderMembers(members, first)
    decreases members, 0
  {
    if |members| == 0 {
      assert Text(b) + [] == Text(b);
    } else {
      var sep: seq<char> := if first then "" else ",";
      CompactSeparator(b);
      var head := MemberText(members[0]);
      var rest := RenderMembers(members[1..], false);
      assert RenderMembers(members, first) == sep + head + rest;
      RenderMemberCompact(b, members[0]);
      var calls := [KeyCall(members[0].key)] + Events(members[0].value);
      var b1 := Run(b, calls);
      RoomAfter(b, b1, |sep| + |head|);
      RenderMembersCompact(b1, members[1..], false);
      assert MemberEvents(members) == calls + MemberEvents(members[1..]);
      RunAppend(b, calls, MemberEvents(members[1..]));
      RegroupSibling(Text(b), sep, head, rest);
    }
  }

  /** One member: `key`, then the value's calls. */
  lemma {:induction false} RenderMemberCompact(b: Builder, m: Member)
    requires Compact(b) && !b.justWroteKey[0]
    requires Room(b) >= |SeparatorText(b) + MemberText(m)|
    ensures var r := Run(b, [KeyCall(m.key)] + Events(m.value));
      && Compact(r) && !r.justWroteKey[0] && !r.isFirst[0]
      && Text(r) == Text(b) + SeparatorText(b) + MemberText(m)
    decreases m, 0
  {
    var q := Quote(Escape(m.key));
    var value := Render(m.value);
    assert MemberText(m) == q + ":" + value;
    KeyStep(b, m.key);
    var b1 := Run(b, [KeyCall(m.key)]);
    RenderCompact(b1, m.value);
    var b2 := Run(b1, Events(m.value));
    AppendNothing(Text(b1), SeparatorText(b1));
    RunAppend(b, [KeyCall(m.key)], Events(m.value));
    RegroupMember(Text(b), SeparatorText(b), q, value);
  }

  lemma AppendNothing(x: seq<char>, y: seq<char>)
    requires y == []
    ensures x + y == x
  {
  }

  /** Regrouping a member written as separator, key, colon and value. */
  lemma RegroupMember(a: seq<char>, sep: seq<char>, q: seq<char>, v: seq<char>)
    ensures (((a + sep) + q) + ":") + v == (a + sep) + ((q + ":") + v)
  {
  }

  /** A fresh compact builder whose buffer holds the text and its
      terminator ends with exactly the compact text of the tree. */
  lemma BuildDocument(buf: seq<char>, j: Json)
    requires |buf| >= |Render(j)| + 1
    ensures Text(Run(Init(buf, false), Events(j))) == Render(j)
  {
    hide *;
    var b := Init(buf, false);
    FreshCompact(buf);
    RenderCompact(b, j);
  }

  /** The array overload of `value`: `beginArray`, one `value` per
      element, `endArray`. */
  function ValueArray(b: Builder, xs: seq<Scalar>): (r: Builder)
    requires Valid(b)
    ensures Valid(r) && Appended(b, r)
    ensures Compact(b) && Room(b) >= |SeparatorText(b) + Render(Array(Leaves(xs)))| ==>
      && Compact(r) && !r.isFirst[0]
      && Text(r) == Text(b) + SeparatorText(b) + Render(Array(Leaves(xs)))
  {
    var calls := [OpenArray] + ItemEvents(Leaves(xs)) + [CloseArray];
    assert calls == Events(Array(Leaves(xs)));
    if Compact(b) && Room(b) >= |SeparatorText(b) + Render(Array(Leaves(xs)))| then
      RenderCompact(b, Array(Leaves(xs)));
      Run(b, calls)
    else
      Run(b, calls)
  }

  function Leaves(xs: seq<Scalar>): (r: seq<Json>)
    ensures |r| == |xs| && forall i :: 0 <= i < |xs| ==> r[i] == Leaf(xs[i])
  {
    if |xs| == 0 then [] else [Leaf(xs[0])] + Leaves(xs[1..])
  }

  /** The array overload on `{1, 2, 3}` writes `[1,2,3]`. */
  lemma ValueArrayExample(buf: seq<char>)
    requires |buf| >= 8
    ensures Text(ValueArray(Init(buf, false), [Int(1), Int(2), Int(3)])) == "[1,2,3]"
  {
    var xs := [Int(1), Int(2), Int(3)];
    var b := Init(buf, false);
    hide *;
    FreshCompact(buf);
    LeavesThree(xs);
    OneTwoThree();
  }

  /** A fresh compact builder: empty, at level 0, nothing to separate. */
  lemma FreshCompact(buf: seq<char>)
    requires |buf| >= 1
    ensures var b := Init(buf, false);
      Compact(b) && Text(b) == [] && SeparatorText(b) == [] && Room(b) == |buf| - 1
  {
  }

  lemma LeavesThree(xs: seq<Scalar>)
    requires xs == [Int(1), Int(2), Int(3)]
    ensures Leaves(xs) == [Leaf(Int(1)), Leaf(Int(2)), Leaf(Int(3))]
  {
  }

  lemma OneTwoThree()
    ensures Render(Array([Leaf(Int(1)), Leaf(Int(2)), Leaf(Int(3))])) == "[1,2,3]"
  {
    var l1, l2, l3 := Leaf(Int(1)), Leaf(Int(2)), Leaf(Int(3));
    assert Render(l1) == "1" && Render(l2) == "2" && Render(l3) == "3";
    assert [l1, l2, l3][1..] == [l2, l3] && [l2, l3][1..] == [l3] && [l3][1..] == [];
    assert RenderItems([l3], false) == ",3";
    assert RenderItems([l2, l3], false) == ",2,3";
    assert RenderItems([l1, l2, l3], true) == "1,2,3";
  }

  /** A compact document with an object nested in an object: the shared
      level 0 still puts the commas and colons where they belong. */
  lemma NestedExample(buf: seq<char>)
    requires |buf| >= 20
    ensures var j := Object([Member("a", Object([Member("b", Leaf(Int(1)))])), Member("c", Leaf(Int(2)))]);
      Text(Run(Init(buf, false), Events(j))) == "{\"a\":{\"b\":1},\"c\":2}"
  {
    var inner := Object([Member("b", Leaf(Int(1)))]);
    var ma, mc := Member("a", inner), Member("c", Leaf(Int(2)));
    NestedText(inner, ma, mc);
    BuildDocument(buf, Object([ma, mc]));
  }

  lemma NestedText(inner: Json, ma: Member, mc: Member)
    requires inner == Object([Member("b", Leaf(Int(1)))])
    requires ma == Member("a", inner) && mc == Member("c", Leaf(Int(2)))
    ensures Render(Object([ma, mc])) == "{\"a\":{\"b\":1},\"c\":2}"
  {
    hide *;
    ObjectText([ma, mc]);
    TwoMemberText(ma, mc);
    InnerText();
    LetterKeyMember("a", inner);
    LetterKeyMember("c", Leaf(Int(2)));
    LeafText(2);
  }

  lemma ObjectText(ms: seq<Member>)
    ensures Render(Object(ms)) == "{" + RenderMembers(ms, true) + "}"
  {
  }

  lemma LeafText(i: nat)
    requires i < 10
    ensures Render(Leaf(Int(i))) == [('0' as int + i) as char]
  {
  }

  lemma InnerText()
    ensures Render(Object([Member("b", Leaf(Int(1)))])) == "{\"b\":1}"
  {
    LetterKeyMember("b", Leaf(Int(1)));
    OneMemberText(Member("b", Leaf(Int(1))));
    assert Render(Leaf(Int(1))) == "1";
  }

  /** A member whose one-letter key needs no escape. */
  lemma LetterKeyMember(k: CStr, v: Json)
    requires k == "a" || k == "b" || k == "c"
    ensures MemberText(Member(k, v)) == "\"" + k + "\":" + Render(v)
  {
    EscapeIdentity(k);
  }

  /** The text of a one-member and of a two-member object body. */
  lemma OneMemberText(m: Member)
    ensures RenderMembers([m], true) == MemberText(m)
  {
    assert [m][1..] == [];
  }

  lemma TwoMemberText(m1: Member, m2: Member)
    ensures RenderMembers([m1, m2], true) == MemberText(m1) + "," + MemberText(m2)
  {
    assert [m1, m2][1..] == [m2] && [m2][1..] == [];
    assert RenderMembers([m2], false) == "," + MemberText(m2) + [];
    assert RenderMembers([m1, m2], true) == "" + MemberText(m1) + RenderMembers([m2], false);
  }
}
