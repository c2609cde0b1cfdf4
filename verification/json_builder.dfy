/** ESP8266StaticJsonBuilder: a JSON writer into a caller-supplied buffer of
    fixed capacity.

    The builder is an immutable record: the whole buffer (`|buf|` is the
    capacity, its initial contents are whatever the caller's array held),
    the write cursor `pos`, the nesting `depth`, the per-depth flags
    `isFirst`, `justWroteKey` and `containerType` (MaxDepth + 1 slots each)
    and the `pretty` switch. Every operation returns the new record.

    Every write goes through `WriteChar` or `WriteLiteral`; both refuse to
    write once only the last byte is left, so the text written so far is
    `buf[..pos]` and the byte at `pos` is the terminator. `WriteLiteral` is
    the corrected form that writes the terminator on every exit; the source
    form is `WriteLiteralAsWritten` (see `LiteralLeavesBufferUnterminated`). */
module JsonBuilder {
  import opened Chars
  import opened Json

  /** ESP8266JSON_MAX_DEPTH */
  const MaxDepth: nat := 10

  datatype Builder = Builder(
    buf: seq<char>,
    pos: nat,
    depth: nat,
    isFirst: seq<bool>,
    justWroteKey: seq<bool>,
    containerType: seq<char>,
    pretty: bool)

  /** Cursor inside the buffer, depth within bounds, per-depth arrays sized
      MaxDepth + 1: every index the operations use is in range. */
  predicate Shaped(b: Builder)
  {
    && b.pos < |b.buf|
    && b.depth <= MaxDepth
    && |b.isFirst| == MaxDepth + 1
    && |b.justWroteKey| == MaxDepth + 1
    && |b.containerType| == MaxDepth + 1
  }

  /** The builder invariant: shaped, and the byte at the cursor terminates
      the text. */
  predicate Valid(b: Builder)
  {
    Shaped(b) && b.buf[b.pos] == NUL
  }

  /** What `c_str()` shows: the bytes written so far. */
  function Text(b: Builder): seq<char>
    requires b.pos <= |b.buf|
  {
    b.buf[..b.pos]
  }

  /** Bytes that can still be written: one byte is always kept for the
      terminator. */
  function Room(b: Builder): nat
    requires Shaped(b)
  {
    |b.buf| - 1 - b.pos
  }

  /** The first `n` characters of `s` (all of `s` when it is shorter). */
  function Take(s: seq<char>, n: int): (r: seq<char>)
    ensures |r| <= |s| && r == s[..|r|]
    ensures n >= 0 ==> |r| == (if |s| <= n then |s| else n)
  {
    if n <= 0 then [] else if |s| <= n then s else s[..n]
  }

  lemma TakeAppend(a: seq<char>, c: seq<char>, n: int)
    requires n >= 0
    ensures Take(a, n) + Take(c, n - |Take(a, n)|) == Take(a + c, n)
  {
    if |a| > n {
      assert (a + c)[..n] == a[..n];
    }
  }

  /** Append-only: same capacity, and nothing below the old cursor changed. */
  predicate Appended(b: Builder, r: Builder)
  {
    && |r.buf| == |b.buf|
    && b.pos <= r.pos <= |r.buf|
    && r.buf[..b.pos] == b.buf[..b.pos]
  }

  lemma AppendedTrans(a: Builder, b: Builder, c: Builder)
    requires Appended(a, b) && Appended(b, c)
    ensures Appended(a, c)
  {
    assert c.buf[..a.pos] == c.buf[..b.pos][..a.pos];
    assert b.buf[..a.pos] == b.buf[..b.pos][..a.pos];
  }

  /** Two writes in a row write the concatenation, truncated to the room
      the first one started with. */
  lemma Chain(b: Builder, b1: Builder, b2: Builder, x: seq<char>, y: seq<char>)
    requires Shaped(b) && Shaped(b1) && Shaped(b2)
    requires |b1.buf| == |b.buf| && |b2.buf| == |b.buf|
    requires Text(b1) == Text(b) + Take(x, Room(b))
    requires Text(b2) == Text(b1) + Take(y, Room(b1))
    ensures Text(b2) == Text(b) + Take(x + y, Room(b))
    ensures Appended(b, b2)
  {
    TakeAppend(x, y, Room(b));
    assert b2.buf[..b.pos] == Text(b2)[..b.pos];
  }

  /** Everything but the buffer and the cursor is unchanged. */
  predicate SameState(b: Builder, r: Builder)
  {
    && r.depth == b.depth
    && r.isFirst == b.isFirst
    && r.justWroteKey == b.justWroteKey
    && r.containerType == b.containerType
    && r.pretty == b.pretty
  }

  /** The constructor: cursor and depth 0, every level "first", no key
      pending, terminator at index 0. */
  function Init(buf: seq<char>, pretty: bool): (b: Builder)
    requires |buf| >= 1
    ensures Valid(b) && Text(b) == [] && Room(b) == |buf| - 1
    ensures b.depth == 0 && b.pretty == pretty
    ensures forall d :: 0 <= d <= MaxDepth ==> b.isFirst[d] && !b.justWroteKey[d]
  {
    Builder(buf[0 := NUL], 0, 0, seq(MaxDepth + 1, _ => true), seq(MaxDepth + 1, _ => false),
            seq(MaxDepth + 1, _ => NUL), pretty)
  }

  function SetPretty(b: Builder, enable: bool): (r: Builder)
    requires Valid(b)
    ensures Valid(r) && Text(r) == Text(b) && r.pretty == enable && r.depth == b.depth
  {
    b.(pretty := enable)
  }

  /** `length()` */
  function Length(b: Builder): (n: nat)
    requires Valid(b)
    ensures n == |Text(b)| && n < |b.buf|
  {
    b.pos
  }

  // ---------------------------------------------------------------------
  // Write primitives

  /** writeChar: one byte and a new terminator, or nothing when only the
      terminator's byte is left. */
  function WriteChar(b: Builder, c: char): (r: Builder)
    requires Valid(b)
    ensures Valid(r) && SameState(b, r) && Appended(b, r)
    ensures Text(r) == Text(b) + Take([c], Room(b))
  {
    if b.pos + 1 >= |b.buf| then b
    else
      var r := b.(buf := b.buf[b.pos := c][b.pos + 1 := NUL], pos := b.pos + 1);
      assert Text(r) == Text(b) + [c];
      r
  }

  /** The copy loop of writeLiteral from index `i`: it stops at the end of
      the literal, or as soon as only one byte is left. */
  function LiteralLoop(b: Builder, s: seq<char>, i: nat): (r: Builder)
    requires Shaped(b) && i <= |s|
    ensures Shaped(r) && SameState(b, r) && Appended(b, r)
    ensures Text(r) == Text(b) + Take(s[i..], Room(b))
    decreases |s| - i
  {
    if i == |s| || b.pos + 1 >= |b.buf| then b
    else
      var b1 := b.(buf := b.buf[b.pos := s[i]], pos := b.pos + 1);
      CopyStep(b, b1, s[i]);
      var r := LiteralLoop(b1, s, i + 1);
      AppendedTrans(b, b1, r);
      TakeStep(Text(b), Text(r), s, i, Room(b));
      r
  }

  /** One character stored at the cursor, which moves past it. */
  lemma CopyStep(b: Builder, b1: Builder, c: char)
    requires Shaped(b) && b.pos + 1 < |b.buf|
    requires b1 == b.(buf := b.buf[b.pos := c], pos := b.pos + 1)
    ensures Shaped(b1) && SameState(b, b1) && Appended(b, b1)
    ensures Text(b1) == Text(b) + [c] && Room(b1) == Room(b) - 1
  {
    assert Text(b1) == Text(b) + [c];
  }

  /** Copying one character, then a prefix of the rest with one byte less,
      copies a prefix of the whole. */
  lemma TakeStep(t: seq<char>, u: seq<char>, s: seq<char>, i: nat, room: int)
    requires i < |s| && room >= 1
    requires u == t + [s[i]] + Take(s[i + 1..], room - 1)
    ensures u == t + Take(s[i..], room)
  {
    assert s[i..] == [s[i]] + s[i + 1..];
    TakeAppend([s[i]], s[i + 1..], room);
  }

  /** writeLiteral as the source has it: when capacity runs out in the
      middle of the literal it returns before storing the terminator. */
  function WriteLiteralAsWritten(b: Builder, s: CStr): (r: Builder)
    requires Valid(b)
    ensures Shaped(r) && SameState(b, r) && Appended(b, r)
    ensures Text(r) == Text(b) + Take(s, Room(b))
    ensures |s| <= Room(b) ==> r.buf[r.pos] == NUL
  {
    var r := LiteralLoop(b, s, 0);
    if r.pos == b.pos + |s| then r.(buf := r.buf[r.pos := NUL]) else r
  }

  /** writeLiteral with the terminator stored on every exit (the model's
      writer): the same text as the source, always terminated. */
  function WriteLiteral(b: Builder, s: CStr): (r: Builder)
    requires Valid(b)
    ensures Valid(r) && SameState(b, r) && Appended(b, r)
    ensures Text(r) == Text(b) + Take(s, Room(b))
  {
    var r := LiteralLoop(b, s, 0);
    r.(buf := r.buf[r.pos := NUL])
  }

  /** A three-byte buffer whose last byte is not NUL: `true` fills the first
      two bytes and the source returns with no terminator anywhere in the
      buffer, so `c_str()` runs past its end. */
  lemma LiteralLeavesBufferUnterminated()
    ensures var r := WriteLiteralAsWritten(Init("\0XX", false), "true");
      && r.pos == 2 && r.buf == "trX" && r.buf[r.pos] != NUL && NUL !in r.buf
    ensures var r := WriteLiteral(Init("\0XX", false), "true");
      && r.pos == 2 && r.buf == "tr\0" && Text(r) == "tr"
  {
    var b := Init("\0XX", false);
    assert b.buf == "\0XX";
    var b1 := b.(buf := b.buf[0 := 't'], pos := 1);
    var b2 := b1.(buf := b1.buf[1 := 'r'], pos := 2);
    assert LiteralLoop(b2, "true", 2) == b2;
    assert LiteralLoop(b1, "true", 1) == b2;
    assert LiteralLoop(b, "true", 0) == b2;
    assert b2.buf == "trX";
  }

  // ---------------------------------------------------------------------
  // Layout (pretty mode only)

  function Spaces(n: nat): (r: seq<char>)
    ensures |r| == n && forall i :: 0 <= i < n ==> r[i] == ' '
  {
    if n == 0 then [] else [' '] + Spaces(n - 1)
  }

  lemma SpacesSplit(n: nat)
    ensures Spaces(2 * (n + 1)) == "  " + Spaces(2 * n)
  {
  }

  /** Line break and indentation at depth `d`; nothing in compact mode. */
  function LineBreakAt(pretty: bool, d: nat): seq<char>
  {
    if pretty then "\n" + Spaces(2 * d) else []
  }

  /** indent(): writeLiteral("  ") once per level from `i` up to `depth`. */
  function IndentLoop(b: Builder, i: nat): (r: Builder)
    requires Valid(b) && i <= b.depth
    ensures Valid(r) && SameState(b, r) && Appended(b, r)
    ensures Text(r) == Text(b) + Take(Spaces(2 * (b.depth - i)), Room(b))
    decreases b.depth - i
  {
    if i == b.depth then b
    else
      var b1 := WriteLiteral(b, "  ");
      var r := IndentLoop(b1, i + 1);
      IndentStep(b, b1, r, i);
      r
  }

  /** Two spaces, then the indentation of the levels after `i`. */
  lemma IndentStep(b: Builder, b1: Builder, r: Builder, i: nat)
    requires Shaped(b) && Shaped(b1) && Shaped(r) && i < b.depth && b1.depth == b.depth
    requires |b1.buf| == |b.buf| && |r.buf| == |b.buf|
    requires Text(b1) == Text(b) + Take("  ", Room(b))
    requires Text(r) == Text(b1) + Take(Spaces(2 * (b1.depth - (i + 1))), Room(b1))
    ensures Text(r) == Text(b) + Take(Spaces(2 * (b.depth - i)), Room(b)) && Appended(b, r)
  {
    SpacesSplit(b.depth - i - 1);
    Chain(b, b1, r, "  ", Spaces(2 * (b.depth - i - 1)));
  }

  /** newline() followed by indent(). */
  function BreakLine(b: Builder): (r: Builder)
    requires Valid(b)
    ensures Valid(r) && SameState(b, r) && Appended(b, r)
    ensures Text(r) == Text(b) + Take(LineBreakAt(b.pretty, b.depth), Room(b))
  {
    if !b.pretty then b
    else
      var b1 := WriteChar(b, '\n');
      var r := IndentLoop(b1, 0);
      Chain(b, b1, r, "\n", Spaces(2 * b.depth));
      r
  }

  // ---------------------------------------------------------------------
  // Separators

  /** What the separator rule asks for before the next element at the
      current depth: nothing right after a key; otherwise a comma unless the
      element is the level's first, then (pretty only) a line break. */
  function SeparatorText(b: Builder): seq<char>
    requires Shaped(b)
  {
    if b.justWroteKey[b.depth] then []
    else (if b.isFirst[b.depth] then "" else ",") + LineBreakAt(b.pretty, b.depth)
  }

  /** writeSeparator */
  function WriteSeparator(b: Builder): (r: Builder)
    requires Valid(b)
    ensures Valid(r) && Appended(b, r)
    ensures r.depth == b.depth && r.pretty == b.pretty && r.containerType == b.containerType
    ensures Text(r) == Text(b) + Take(SeparatorText(b), Room(b))
    ensures b.justWroteKey[b.depth] ==> r.isFirst == b.isFirst && r.justWroteKey == b.justWroteKey[b.depth := false]
    ensures !b.justWroteKey[b.depth] ==> r.isFirst == b.isFirst[b.depth := false] && r.justWroteKey == b.justWroteKey
  {
    var d := b.depth;
    if !b.justWroteKey[d] then
      var comma: seq<char> := if b.isFirst[d] then "" else ",";
      var b1 := if !b.isFirst[d] then WriteChar(b, ',') else b;
      assert Text(b1) == Text(b) + Take(comma, Room(b));
      var b2 := BreakLine(b1);
      Chain(b, b1, b2, comma, LineBreakAt(b.pretty, d));
      b2.(isFirst := b2.isFirst[d := false])
    else
      b.(justWroteKey := b.justWroteKey[d := false])
  }

  // ---------------------------------------------------------------------
  // Strings

  /** How many characters of `s` the escape loop of serializeString copies
      when `room` bytes are left before the terminator: it goes on while at
      least two bytes remain (one of them is meant for the closing quote). */
  function StringFit(s: seq<char>, room: int): (k: nat)
    ensures k <= |s|
    ensures room >= 0 ==> |Escape(s[..k])| <= room
    ensures forall j :: 0 <= j < k ==> room - |Escape(s[..j])| >= 2
    ensures k < |s| ==> room - |Escape(s[..k])| < 2
    ensures room >= |Escape(s)| + 1 ==> k == |s|
  {
    if |s| == 0 || room < 2 then 0
    else
      var rest := room - |EscapeChar(s[0])|;
      var k1 := StringFit(s[1..], rest);
      FitStep(s, room, rest, k1);
      k1 + 1
  }

  /** The copy loop's step: what holds of the rest of the string with the
      first character's escape taken off the room holds of the whole string
      with one character more copied. */
  lemma FitStep(s: seq<char>, room: int, rest: int, k1: nat)
    requires |s| > 0 && room >= 2 && rest == room - |EscapeChar(s[0])|
    requires k1 <= |s[1..]|
    requires rest >= 0 ==> |Escape(s[1..][..k1])| <= rest
    requires forall j :: 0 <= j < k1 ==> rest - |Escape(s[1..][..j])| >= 2
    requires k1 < |s[1..]| ==> rest - |Escape(s[1..][..k1])| < 2
    requires rest >= |Escape(s[1..])| + 1 ==> k1 == |s[1..]|
    ensures k1 + 1 <= |s|
    ensures room >= 0 ==> |Escape(s[..k1 + 1])| <= room
    ensures forall j :: 0 <= j < k1 + 1 ==> room - |Escape(s[..j])| >= 2
    ensures k1 + 1 < |s| ==> room - |Escape(s[..k1 + 1])| < 2
    ensures room >= |Escape(s)| + 1 ==> k1 + 1 == |s|
  {
    assert s[..k1 + 1] == [s[0]] + s[1..][..k1];
    EscapeCons(s[0], s[1..][..k1]);
    assert s == [s[0]] + s[1..];
    EscapeCons(s[0], s[1..]);
    RoomBeforeEach(s, room, rest, k1);
  }

  /** The loop test held before each character the loop copied: if it held
      before each of the first `k - 1` characters of the rest, with the
      first character's escape taken off the room, it held before each of
      the first `k` characters of `s`. */
  lemma RoomBeforeEach(s: seq<char>, room: int, rest: int, k1: nat)
    requires k1 < |s| && room >= 2 && rest == room - |EscapeChar(s[0])|
    requires forall j :: 0 <= j < k1 ==> rest - |Escape(s[1..][..j])| >= 2
    ensures forall j :: 0 <= j < k1 + 1 ==> room - |Escape(s[..j])| >= 2
  {
    forall j | 0 < j < k1 + 1
      ensures room - |Escape(s[..j])| >= 2
    {
      assert s[..j] == [s[0]] + s[1..][..j - 1];
      EscapeCons(s[0], s[1..][..j - 1]);
    }
    assert s[..0] == [];
  }

  lemma EscapeCons(c: char, t: seq<char>)
    ensures Escape([c] + t) == EscapeChar(c) + Escape(t)
  {
    assert ([c] + t)[1..] == t;
  }

  /** One step of `StringFit`: the copied prefix of a non-empty string is
      its first character followed by the copied prefix of the rest. */
  lemma StringFitStep(t: seq<char>, room: int)
    requires |t| > 0 && room >= 2
    ensures var k := StringFit(t[1..], room - |EscapeChar(t[0])|);
      && StringFit(t, room) == k + 1
      && Escape(t[..k + 1]) == EscapeChar(t[0]) + Escape(t[1..][..k])
  {
    var k := StringFit(t[1..], room - |EscapeChar(t[0])|);
    assert t[..k + 1] == [t[0]] + t[1..][..k];
    EscapeCons(t[0], t[1..][..k]);
  }

  lemma EscapeStepText(tb: seq<char>, t1: seq<char>, tr: seq<char>, t: seq<char>, room: int)
    requires |t| > 0 && room >= 2
    requires t1 == tb + EscapeChar(t[0])
    requires tr == t1 + Escape(t[1..][..StringFit(t[1..], room - |EscapeChar(t[0])|)])
    ensures tr == tb + Escape(t[..StringFit(t, room)])
  {
    StringFitStep(t, room);
  }

  /** One character of the escape loop: its escape sequence when the
      character needs one, the character itself otherwise. */
  function WriteEscaped(b: Builder, c: char): (r: Builder)
    requires Valid(b) && c != NUL
    ensures Valid(r) && SameState(b, r) && Appended(b, r)
    ensures Room(b) >= 2 ==> Text(r) == Text(b) + EscapeChar(c) && Room(r) == Room(b) - |EscapeChar(c)|
  {
    if NeedsEscape(c) then WriteLiteral(b, EscapeChar(c)) else WriteChar(b, c)
  }

  /** The escape loop of serializeString from index `i`. */
  function EscapeLoop(b: Builder, s: CStr, i: nat): (r: Builder)
    requires Valid(b) && i <= |s|
    ensures Valid(r) && SameState(b, r) && Appended(b, r)
    ensures Text(r) == Text(b) + Escape(s[i..][..StringFit(s[i..], Room(b))])
    decreases |s| - i
  {
    if i == |s| || b.pos + 2 >= |b.buf| then b
    else
      var t := s[i..];
      var b1 := WriteEscaped(b, s[i]);
      var r := EscapeLoop(b1, s, i + 1);
      assert t[0] == s[i] && t[1..] == s[i + 1..];
      EscapeStepText(Text(b), Text(b1), Text(r), t, Room(b));
      AppendedTrans(b, b1, r);
      r
  }

  /** serializeString: opening quote, escaped characters while two bytes
      remain, closing quote if a byte remains. With room for the whole
      string the text is exactly `"` + escape(s) + `"`; otherwise a
      truncated string that is still closed when one byte is left. */
  function SerializeString(b: Builder, s: CStr): (r: Builder)
    requires Valid(b)
    ensures Valid(r) && SameState(b, r) && Appended(b, r)
    ensures Text(r) == Text(b) + Take(Quote(Escape(s[..StringFit(s, Room(b) - 1)])), Room(b))
    ensures Room(b) >= |Quote(Escape(s))| ==> Text(r) == Text(b) + Quote(Escape(s))
    ensures Text(r) == Text(b) + Take(FitQuote(s, Room(b)), Room(b))
  {
    var b1 := WriteChar(b, '"');
    var b2 := EscapeLoop(b1, s, 0);
    var r := WriteChar(b2, '"');
    SerializeStringText(b, s);
    StringWhole(s, Room(b));
    AppendedTrans(b, b1, b2);
    AppendedTrans(b, b2, r);
    r
  }

  lemma SerializeStringText(b: Builder, s: CStr)
    requires Valid(b)
    ensures Text(WriteChar(EscapeLoop(WriteChar(b, '"'), s, 0), '"'))
         == Text(b) + Take(Quote(Escape(s[..StringFit(s, Room(b) - 1)])), Room(b))
  {
    var b1 := WriteChar(b, '"');
    var b2 := EscapeLoop(b1, s, 0);
    var r := WriteChar(b2, '"');
    var e := OpenQuoteText(b, s);
    Chain(b, b2, r, "\"" + e, "\"");
  }

  /** The opening quote and the escaped characters that fit. */
  lemma OpenQuoteText(b: Builder, s: CStr) returns (e: seq<char>)
    requires Valid(b)
    ensures e == Escape(s[..StringFit(s, Room(b) - 1)])
    ensures Text(EscapeLoop(WriteChar(b, '"'), s, 0)) == Text(b) + Take("\"" + e, Room(b))
  {
    var b1 := WriteChar(b, '"');
    var k := StringFit(s, Room(b) - 1);
    e := Escape(s[..k]);
    assert s[0..] == s;
    assert StringFit(s, Room(b1)) == k;
    assert Take(e, Room(b1)) == e;
    Chain(b, b1, EscapeLoop(b1, s, 0), "\"", e);
  }

  /** With room for all of it, the whole quoted string is written. */
  lemma StringWhole(s: CStr, room: int)
    ensures room >= |Quote(Escape(s))| ==> Take(Quote(Escape(s[..StringFit(s, room - 1)])), room) == Quote(Escape(s))
  {
    if room >= |Quote(Escape(s))| {
      assert s[..StringFit(s, room - 1)] == s;
    }
  }

  /** What serializeString aims at with `room` bytes left: the characters
      its loop copies, escaped and between quotes (the closing quote is then
      cut too when no byte is left for it). */
  function FitQuote(s: seq<char>, room: int): seq<char>
  {
    Quote(Escape(s[..StringFit(s, room - 1)]))
  }

  /** With four bytes left (a fresh builder of capacity 5, say),
      `value("abc")` writes `"ab"`: a closed string that is not a prefix of
      the untruncated `"abc"`. */
  lemma TruncatedStringIsClosed(b: Builder)
    requires Valid(b) && Room(b) == 4
    ensures var t := Text(SerializeString(b, "abc"));
      && t == Text(b) + "\"ab\""
      && !(t[|Text(b)|..] <= Quote(Escape("abc")))
  {
    AbcFit();
    AbcEscaped();
    var t := Text(SerializeString(b, "abc"));
    assert t[|Text(b)|..] == "\"ab\"";
  }

  lemma AbcFit()
    ensures StringFit("abc", 3) == 2
    ensures "abc"[..2] == "ab" && Escape("ab") == "ab"
  {
    assert "abc"[1..] == "bc" && "bc"[1..] == "c";
    assert StringFit("c", 1) == 0;
    assert "ab"[1..] == "b" && "b"[1..] == [];
  }

  lemma AbcEscaped()
    ensures Take(Quote("ab"), 4) == "\"ab\""
    ensures !("\"ab\"" <= Quote(Escape("abc")))
  {
    assert "abc"[1..] == "bc" && "bc"[1..] == "c" && "c"[1..] == [];
    assert Escape("abc") == "abc";
    assert Quote(Escape("abc"))[3] == 'c';
  }

  /** The closing quote is written only when the escape loop leaves a byte
      for it. With three bytes left, `value("\"a")` writes `"\"`: the
      escape of the inner quote takes the last two bytes, so the only quote
      after the opening one is escaped and the string is never closed. With
      one byte left, `value("a")` writes the opening quote alone. */
  lemma TruncatedStringUnclosed(b: Builder)
    requires Valid(b)
    ensures Room(b) == 3 ==> Text(SerializeString(b, "\"a")) == Text(b) + "\"\\\""
    ensures Room(b) == 1 ==> Text(SerializeString(b, "a")) == Text(b) + "\""
  {
    if Room(b) == 3 {
      QuoteAFit();
    } else if Room(b) == 1 {
      assert StringFit("a", 0) == 0;
      assert Take(Quote(Escape([])), 1) == "\"";
    }
  }

  lemma QuoteAFit()
    ensures StringFit("\"a", 2) == 1
    ensures Take(Quote(Escape("\"a"[..1])), 3) == "\"\\\""
  {
    assert "\"a"[1..] == "a";
    assert StringFit("a", 0) == 0;
    assert "\"a"[..1] == "\"";
    assert Escape("\"") == EscapeChar('"') + Escape([]);
  }

  // ---------------------------------------------------------------------
  // Scalars

  /** What a scalar's serializer aims at with `room` bytes left: the
      fitting part of a string, the whole text of anything else. */
  function ScalarFit(v: Scalar, room: int): seq<char>
  {
    if v.Str? then FitQuote(v.s, room) else ScalarText(v)
  }

  /** The serialize* call a `value(...)` overload makes: quoted and escaped
      string, `true`/`false`, `null`, signed or unsigned decimal, the raw
      character, or the float's text. */
  function SerializeScalar(b: Builder, v: Scalar): (r: Builder)
    requires Valid(b)
    ensures Valid(r) && SameState(b, r) && Appended(b, r)
    ensures !v.Str? ==> Text(r) == Text(b) + Take(ScalarText(v), Room(b))
    ensures v.Str? ==> Text(r) == Text(b) + Take(Quote(Escape(v.s[..StringFit(v.s, Room(b) - 1)])), Room(b))
    ensures Text(r) == Text(b) + Take(ScalarFit(v, Room(b)), Room(b))
    ensures Room(b) >= |ScalarText(v)| ==> Text(r) == Text(b) + ScalarText(v)
  {
    match v
    case Str(s) => SerializeString(b, s)
    case Bool(x) => WriteLiteral(b, if x then "true" else "false")
    case Null => WriteLiteral(b, "null")
    case Int(i) => WriteLiteral(b, Decimal(i))
    case UInt(n) => WriteLiteral(b, Decimal(n))
    case Char(c) => WriteChar(b, c)
    case Float(text) => WriteLiteral(b, text)
  }

  /** value(v): separator, the scalar, and the level is no longer "first". */
  function Value(b: Builder, v: Scalar): (r: Builder)
    requires Valid(b)
    ensures Valid(r) && Appended(b, r)
    ensures r.depth == b.depth && r.pretty == b.pretty
    ensures !r.isFirst[b.depth] && !r.justWroteKey[b.depth]
    ensures r.isFirst == b.isFirst[b.depth := false] && r.justWroteKey == b.justWroteKey[b.depth := false]
    ensures r.containerType == b.containerType
    ensures Room(b) >= |SeparatorText(b) + ScalarText(v)| ==> Text(r) == Text(b) + SeparatorText(b) + ScalarText(v)
    ensures !v.Str? ==> Text(r) == Text(b) + Take(SeparatorText(b) + ScalarText(v), Room(b))
    ensures Text(r) == Text(b) + Take(SeparatorText(b) + ScalarFit(v, Room(b) - |SeparatorText(b)|), Room(b))
  {
    var b1 := WriteSeparator(b);
    var b2 := SerializeScalar(b1, v);
    AppendedTrans(b, b1, b2);
    ScalarAfterSeparator(b, b1, b2, v);
    b2.(isFirst := b2.isFirst[b2.depth := false])
  }

  /** The text of a scalar written after the separator. */
  lemma ScalarAfterSeparator(b: Builder, b1: Builder, b2: Builder, v: Scalar)
    requires Valid(b) && Valid(b1) && Valid(b2) && |b1.buf| == |b.buf| && |b2.buf| == |b.buf|
    requires Text(b1) == Text(b) + Take(SeparatorText(b), Room(b))
    requires Text(b2) == Text(b1) + Take(ScalarFit(v, Room(b1)), Room(b1))
    ensures Text(b2) == Text(b) + Take(SeparatorText(b) + ScalarFit(v, Room(b) - |SeparatorText(b)|), Room(b))
    ensures Room(b) >= |SeparatorText(b) + ScalarText(v)| ==> Text(b2) == Text(b) + SeparatorText(b) + ScalarText(v)
    ensures !v.Str? ==> Text(b2) == Text(b) + Take(SeparatorText(b) + ScalarText(v), Room(b))
  {
    var sep := SeparatorText(b);
    SeparatorCut(b, b1, b2, sep, ScalarFit(v, Room(b1)), ScalarFit(v, Room(b) - |sep|));
    ScalarFitWhole(v, Room(b) - |sep|);
    TakeWhole(sep + ScalarText(v), Room(b));
  }

  /** Anything but a string is never cut short before it is written; a
      string with room for all of it is not cut either. */
  lemma ScalarFitWhole(v: Scalar, room: int)
    ensures !v.Str? || room >= |ScalarText(v)| ==> ScalarFit(v, room) == ScalarText(v)
  {
    if v.Str? {
      FitQuoteWhole(v.s, room);
    }
  }

  /** With room for all of it, a string is not cut. */
  lemma FitQuoteWhole(s: seq<char>, room: int)
    ensures room >= |Quote(Escape(s))| ==> FitQuote(s, room) == Quote(Escape(s))
  {
    if room >= |Quote(Escape(s))| {
      assert s[..StringFit(s, room - 1)] == s;
    }
  }

  lemma TakeWhole(x: seq<char>, n: int)
    ensures n >= |x| ==> Take(x, n) == x
  {
  }

  /** A write after the separator `sep`: the separator and the piece `y`
      the next writer aims at with the room left after it. When the
      separator itself is cut, any other piece `z` gives the same text. */
  lemma SeparatorCut(b: Builder, b1: Builder, b2: Builder, sep: seq<char>, y: seq<char>, z: seq<char>)
    requires Shaped(b) && Shaped(b1) && Shaped(b2) && |b1.buf| == |b.buf| && |b2.buf| == |b.buf|
    requires Text(b1) == Text(b) + Take(sep, Room(b))
    requires Text(b2) == Text(b1) + Take(y, Room(b1))
    ensures Room(b) >= |sep| ==> Room(b1) == Room(b) - |sep|
    ensures Text(b2) == Text(b) + Take(sep + (if Room(b) >= |sep| then y else z), Room(b))
  {
    Chain(b, b1, b2, sep, y);
    if Room(b) < |sep| {
      TakeCut(sep, y, z, Room(b));
    }
  }

  /** Cutting inside the head: the tail does not matter. */
  lemma TakeCut(x: seq<char>, y: seq<char>, z: seq<char>, n: int)
    requires n < |x|
    ensures Take(x + y, n) == Take(x + z, n)
  {
    if n > 0 {
      assert (x + y)[..n] == x[..n] == (x + z)[..n];
    }
  }

  /** The text `key(k)` writes when it fits. */
  function KeyText(b: Builder, k: seq<char>): seq<char>
    requires Shaped(b)
  {
    SeparatorText(b) + Quote(Escape(k)) + ":" + (if b.pretty then " " else "")
  }

  /** The text `key(k)` aims at with the builder's room: as `KeyText`, but
      with only the part of the key that fits, as serializeString cuts it. */
  function KeyFitText(b: Builder, k: seq<char>): seq<char>
    requires Shaped(b)
  {
    SeparatorText(b) + FitQuote(k, Room(b) - |SeparatorText(b)|) + ":" + (if b.pretty then " " else "")
  }

  /** The separator and the quoted key: the part of `key(k)` before `:`. */
  function KeyName(b: Builder, k: CStr): (r: Builder)
    requires Valid(b)
    ensures Valid(r) && Appended(b, r) && r.pretty == b.pretty && r.depth == b.depth
    ensures !r.justWroteKey[b.depth] && r.isFirst[b.depth] == (b.isFirst[b.depth] && b.justWroteKey[b.depth])
    ensures r.isFirst == (if b.justWroteKey[b.depth] then b.isFirst else b.isFirst[b.depth := false])
    ensures r.justWroteKey == b.justWroteKey[b.depth := false] && r.containerType == b.containerType
    ensures Room(b) >= |SeparatorText(b) + Quote(Escape(k))| ==>
      Text(r) == Text(b) + (SeparatorText(b) + Quote(Escape(k)))
    ensures Text(r) == Text(b) + Take(SeparatorText(b) + FitQuote(k, Room(b) - |SeparatorText(b)|), Room(b))
  {
    var b1 := WriteSeparator(b);
    var b2 := SerializeString(b1, k);
    SeparatorFlags(b, b1, b2);
    AppendedTrans(b, b1, b2);
    QuotedAfterSeparator(b, b1, b2, k);
    b2
  }

  /** The text of a quoted string written after the separator. */
  lemma QuotedAfterSeparator(b: Builder, b1: Builder, b2: Builder, k: seq<char>)
    requires Valid(b) && Valid(b1) && Valid(b2) && |b1.buf| == |b.buf| && |b2.buf| == |b.buf|
    requires Text(b1) == Text(b) + Take(SeparatorText(b), Room(b))
    requires Text(b2) == Text(b1) + Take(FitQuote(k, Room(b1)), Room(b1))
    ensures Room(b) >= |SeparatorText(b) + Quote(Escape(k))| ==>
      Text(b2) == Text(b) + (SeparatorText(b) + Quote(Escape(k)))
    ensures Text(b2) == Text(b) + Take(SeparatorText(b) + FitQuote(k, Room(b) - |SeparatorText(b)|), Room(b))
  {
    var sep, room, room1 := SeparatorText(b), Room(b), Room(b1);
    hide *;
    ValidShaped(b);
    ValidShaped(b1);
    ValidShaped(b2);
    SeparatorCut(b, b1, b2, sep, FitQuote(k, room1), FitQuote(k, room - |sep|));
    FitQuoteWhole(k, room - |sep|);
    TakeWhole(sep + Quote(Escape(k)), room);
  }

  /** The space after a key's `:`, in pretty mode only. */
  function PrettySpace(b: Builder): (r: Builder)
    requires Valid(b)
    ensures Valid(r) && SameState(b, r) && Appended(b, r)
    ensures Text(r) == Text(b) + Take(if b.pretty then " " else "", Room(b))
  {
    if b.pretty then WriteChar(b, ' ') else b
  }

  /** key(k): separator, the escaped quoted key, `:` (and a space when
      pretty); the level is no longer "first" and the next element's
      separator is suppressed. */
  function Key(b: Builder, k: CStr): (r: Builder)
    requires Valid(b)
    ensures Valid(r) && Appended(b, r)
    ensures r.depth == b.depth && r.pretty == b.pretty
    ensures r.justWroteKey[b.depth] && !r.isFirst[b.depth]
    ensures r.isFirst == b.isFirst[b.depth := false] && r.justWroteKey == b.justWroteKey[b.depth := true]
    ensures r.containerType == b.containerType
    ensures Room(b) >= |KeyText(b, k)| ==> Text(r) == Text(b) + KeyText(b, k)
    ensures Text(r) == Text(b) + Take(KeyFitText(b, k), Room(b))
  {
    var b2 := KeyName(b, k);
    var b3 := WriteChar(b2, ':');
    var b4 := PrettySpace(b3);
    AppendedTrans(b, b2, b3);
    AppendedTrans(b, b3, b4);
    KeyWritten(b, k);
    KeyFlags(b, b2, b3, b4);
    b4.(isFirst := b4.isFirst[b4.depth := false], justWroteKey := b4.justWroteKey[b4.depth := true])
  }

  /** The flags after `writeSeparator` and writes that keep them: the
      level is no longer "first" unless a key was just written, and no key
      is pending there. */
  lemma SeparatorFlags(b: Builder, b1: Builder, r: Builder)
    requires b.depth < |b.isFirst| && b.depth < |b.justWroteKey| && b1.depth == b.depth
    requires b1.containerType == b.containerType
    requires b.justWroteKey[b.depth] ==> b1.isFirst == b.isFirst && b1.justWroteKey == b.justWroteKey[b.depth := false]
    requires !b.justWroteKey[b.depth] ==> b1.isFirst == b.isFirst[b.depth := false] && b1.justWroteKey == b.justWroteKey
    requires r.isFirst == b1.isFirst && r.justWroteKey == b1.justWroteKey && r.containerType == b1.containerType
    ensures r.isFirst == (if b.justWroteKey[b.depth] then b.isFirst else b.isFirst[b.depth := false])
    ensures r.justWroteKey == b.justWroteKey[b.depth := false] && r.containerType == b.containerType
  {
    if !b.justWroteKey[b.depth] {
      assert b.justWroteKey[b.depth := false] == b.justWroteKey;
    }
  }

  /** The flags `key(k)` leaves: the separator's, then the level marked as
      holding a key. */
  lemma KeyFlags(b: Builder, b2: Builder, b3: Builder, b4: Builder)
    requires b.depth < |b.isFirst| && b.depth < |b.justWroteKey| && b2.depth == b.depth
    requires b2.isFirst == (if b.justWroteKey[b.depth] then b.isFirst else b.isFirst[b.depth := false])
    requires b2.justWroteKey == b.justWroteKey[b.depth := false] && b2.containerType == b.containerType
    requires SameState(b2, b3) && SameState(b3, b4)
    ensures b4.depth == b.depth && b4.containerType == b.containerType
    ensures b4.isFirst[b4.depth := false] == b.isFirst[b.depth := false]
    ensures b4.justWroteKey[b4.depth := true] == b.justWroteKey[b.depth := true]
  {
    UpdateTwice(b.isFirst, b.depth, false, false);
    UpdateTwice(b.justWroteKey, b.depth, false, true);
  }

  /** Storing twice at one index keeps only the second value. */
  lemma UpdateTwice<T>(s: seq<T>, i: nat, x: T, y: T)
    requires i < |s|
    ensures s[i := x][i := y] == s[i := y]
  {
    var twice, once := s[i := x][i := y], s[i := y];
    assert forall j :: 0 <= j < |twice| ==> twice[j] == once[j];
  }

  lemma KeyWritten(b: Builder, k: CStr)
    requires Valid(b)
    ensures Room(b) >= |KeyText(b, k)| ==> Text(PrettySpace(WriteChar(KeyName(b, k), ':'))) == Text(b) + KeyText(b, k)
    ensures Text(PrettySpace(WriteChar(KeyName(b, k), ':'))) == Text(b) + Take(KeyFitText(b, k), Room(b))
  {
    hide *;
    var b2 := KeyName(b, k);
    var b3 := WriteChar(b2, ':');
    var b4 := PrettySpace(b3);
    ValidShaped(b);
    StepShaped(b, b2);
    StepShaped(b2, b3);
    StepShaped(b3, b4);
    SamePretty(b2, b3);
    var space: seq<char> := if b.pretty then " " else "";
    var sep, room := SeparatorText(b), Room(b);
    var fit := sep + FitQuote(k, room - |sep|);
    KeyTextParts(b, k);
    Chain(b, b2, b3, fit, ":");
    Chain(b, b3, b4, fit + ":", space);
    FitQuoteWhole(k, room - |sep|);
    TakeWhole(KeyText(b, k), room);
  }

  lemma ValidShaped(b: Builder)
    requires Valid(b)
    ensures Shaped(b)
  {
  }

  /** A builder written from another is shaped alike over the same buffer. */
  lemma StepShaped(b: Builder, r: Builder)
    requires Valid(r) && Appended(b, r)
    ensures Shaped(r) && |r.buf| == |b.buf|
  {
  }

  lemma SamePretty(b: Builder, r: Builder)
    requires SameState(b, r)
    ensures r.pretty == b.pretty
  {
  }

  lemma KeyTextParts(b: Builder, k: seq<char>)
    requires Shaped(b)
    ensures KeyText(b, k) == SeparatorText(b) + Quote(Escape(k)) + ":" + (if b.pretty then " " else "")
    ensures KeyFitText(b, k)
         == SeparatorText(b) + FitQuote(k, Room(b) - |SeparatorText(b)|) + ":" + (if b.pretty then " " else "")
  {
    hide Escape, Quote, FitQuote, SeparatorText, Shaped;
  }

  // ---------------------------------------------------------------------
  // Containers

  /** The text `beginObject`/`beginArray` writes below the depth limit. */
  function OpenText(b: Builder, open: char): seq<char>
    requires Shaped(b)
  {
    SeparatorText(b) + [open] + LineBreakAt(b.pretty, b.depth + 1)
  }

  /** beginObject / beginArray: at the depth limit nothing at all changes;
      otherwise see `Open`. */
  function Begin(b: Builder, open: char, kind: char): (r: Builder)
    requires Valid(b)
    ensures Valid(r) && Appended(b, r) && r.pretty == b.pretty
    ensures b.depth >= MaxDepth ==> r == b
    ensures b.depth < MaxDepth ==> r.depth == (if b.pretty then b.depth + 1 else b.depth)
    ensures b.depth < MaxDepth ==> r.isFirst[r.depth] && r.containerType[r.depth] == kind
    ensures b.depth < MaxDepth && !b.pretty ==> !r.justWroteKey[r.depth]
    ensures b.depth < MaxDepth ==> r.justWroteKey == b.justWroteKey[b.depth := false]
    ensures b.depth < MaxDepth ==>
      r.isFirst == (if b.justWroteKey[b.depth] then b.isFirst else b.isFirst[b.depth := false])[r.depth := true]
    ensures b.depth < MaxDepth ==> r.containerType == b.containerType[r.depth := kind]
    ensures b.depth < MaxDepth && Room(b) >= |OpenText(b, open)| ==> Text(r) == Text(b) + OpenText(b, open)
    ensures b.depth < MaxDepth ==> Text(r) == Text(b) + Take(OpenText(b, open), Room(b))
  {
    if b.depth >= MaxDepth then b else Open(b, open, kind)
  }

  /** Below the depth limit: separator and delimiter, and only in pretty
      mode one level deeper plus a line break; the (possibly new) level
      starts "first". */
  function Open(b: Builder, open: char, kind: char): (r: Builder)
    requires Valid(b) && b.depth < MaxDepth
    ensures Valid(r) && Appended(b, r) && r.pretty == b.pretty
    ensures r.depth == (if b.pretty then b.depth + 1 else b.depth)
    ensures r.isFirst[r.depth] && r.containerType[r.depth] == kind
    ensures !b.pretty ==> !r.justWroteKey[r.depth]
    ensures r.justWroteKey == b.justWroteKey[b.depth := false]
    ensures r.isFirst == (if b.justWroteKey[b.depth] then b.isFirst else b.isFirst[b.depth := false])[r.depth := true]
    ensures r.containerType == b.containerType[r.depth := kind]
    ensures Room(b) >= |OpenText(b, open)| ==> Text(r) == Text(b) + OpenText(b, open)
    ensures Text(r) == Text(b) + Take(OpenText(b, open), Room(b))
  {
    var b1 := WriteSeparator(b);
    var b2 := WriteChar(b1, open);
    var b3 := Descend(b2);
    OpenSteps(b, b1, b2, b3, open);
    var r := b3.(isFirst := b3.isFirst[b3.depth := true], containerType := b3.containerType[b3.depth := kind]);
    MarkLevel(b, b3, r, open, kind);
    r
  }

  /** Marking the level reached as a new, empty container of the kind. */
  lemma MarkLevel(b: Builder, b3: Builder, r: Builder, open: char, kind: char)
    requires Valid(b) && b.depth < MaxDepth
    requires Valid(b3) && Appended(b, b3) && b3.pretty == b.pretty
    requires b3.depth == (if b.pretty then b.depth + 1 else b.depth)
    requires b3.isFirst == (if b.justWroteKey[b.depth] then b.isFirst else b.isFirst[b.depth := false])
    requires b3.justWroteKey == b.justWroteKey[b.depth := false] && b3.containerType == b.containerType
    requires Text(b3) == Text(b) + Take(OpenText(b, open), Room(b))
    requires r == b3.(isFirst := b3.isFirst[b3.depth := true], containerType := b3.containerType[b3.depth := kind])
    ensures Valid(r) && Appended(b, r) && r.pretty == b.pretty
    ensures r.depth == (if b.pretty then b.depth + 1 else b.depth)
    ensures r.isFirst[r.depth] && r.containerType[r.depth] == kind
    ensures !b.pretty ==> !r.justWroteKey[r.depth]
    ensures r.justWroteKey == b.justWroteKey[b.depth := false]
    ensures r.isFirst == (if b.justWroteKey[b.depth] then b.isFirst else b.isFirst[b.depth := false])[r.depth := true]
    ensures r.containerType == b.containerType[r.depth := kind]
    ensures Room(b) >= |OpenText(b, open)| ==> Text(r) == Text(b) + OpenText(b, open)
    ensures Text(r) == Text(b) + Take(OpenText(b, open), Room(b))
  {
    assert Text(r) == Text(b3);
  }

  /** The separator, the delimiter and the descent together, before the
      new level's flags are set. */
  lemma OpenSteps(b: Builder, b1: Builder, b2: Builder, b3: Builder, open: char)
    requires Valid(b) && b.depth < MaxDepth
    requires b1 == WriteSeparator(b) && b2 == WriteChar(b1, open) && b3 == Descend(b2)
    ensures Valid(b3) && Appended(b, b3) && b3.pretty == b.pretty
    ensures b3.depth == (if b.pretty then b.depth + 1 else b.depth)
    ensures b3.isFirst == (if b.justWroteKey[b.depth] then b.isFirst else b.isFirst[b.depth := false])
    ensures b3.justWroteKey == b.justWroteKey[b.depth := false] && b3.containerType == b.containerType
    ensures Text(b3) == Text(b) + Take(OpenText(b, open), Room(b))
  {
    hide *;
    ValidShaped(b);
    StepShaped(b, b1);
    StepShaped(b1, b2);
    StepShaped(b2, b3);
    SameFlags(b1, b2);
    SeparatorFlags(b, b1, b3);
    OpenTextIs(b, open);
    Chain(b, b1, b2, SeparatorText(b), [open]);
    Chain(b, b2, b3, SeparatorText(b) + [open], LineBreakAt(b.pretty, b.depth + 1));
  }

  lemma SameFlags(b: Builder, r: Builder)
    requires SameState(b, r)
    ensures r.depth == b.depth && r.pretty == b.pretty
    ensures r.isFirst == b.isFirst && r.justWroteKey == b.justWroteKey && r.containerType == b.containerType
  {
  }

  lemma OpenTextIs(b: Builder, open: char)
    requires Shaped(b)
    ensures OpenText(b, open) == SeparatorText(b) + [open] + LineBreakAt(b.pretty, b.depth + 1)
  {
    hide SeparatorText, LineBreakAt;
  }

  /** The part of `beginObject`/`beginArray` after the delimiter: in pretty
      mode one level deeper and a line break indented to it, in compact
      mode nothing. The flags are left to the caller. */
  function Descend(b: Builder): (r: Builder)
    requires Valid(b) && b.depth < MaxDepth
    ensures Valid(r) && Appended(b, r) && r.pretty == b.pretty
    ensures r.depth == (if b.pretty then b.depth + 1 else b.depth)
    ensures r.isFirst == b.isFirst && r.justWroteKey == b.justWroteKey && r.containerType == b.containerType
    ensures Text(r) == Text(b) + Take(LineBreakAt(b.pretty, b.depth + 1), Room(b))
  {
    if b.pretty then
      var deeper := b.(depth := b.depth + 1);
      assert Valid(deeper) && Text(deeper) == Text(b) && Room(deeper) == Room(b);
      BreakLine(deeper)
    else
      b
  }

  function BeginObject(b: Builder): Builder requires Valid(b) { Begin(b, '{', 'O') }
  function BeginArray(b: Builder): Builder requires Valid(b) { Begin(b, '[', 'A') }

  /** The level `endObject`/`endArray` return to: one up in pretty mode,
      the same level in compact mode (where `depth` never moves). */
  function Outer(b: Builder): nat
  {
    if b.pretty && b.depth > 0 then b.depth - 1 else b.depth
  }

  /** The line break before a closing delimiter: none when the level is
      still empty. */
  function CloseBreak(b: Builder): seq<char>
    requires Shaped(b)
  {
    if b.isFirst[b.depth] then [] else LineBreakAt(b.pretty, Outer(b))
  }

  /** The text `endObject`/`endArray` writes. */
  function CloseText(b: Builder, close: char): seq<char>
    requires Shaped(b)
  {
    CloseBreak(b) + [close]
  }

  /** The first half of endObject / endArray: back to the outer level and,
      unless the level is empty, a line break. */
  function Dedent(b: Builder): (r: Builder)
    requires Valid(b)
    ensures Valid(r) && Appended(b, r) && r.depth == Outer(b)
    ensures r.pretty == b.pretty && r.isFirst == b.isFirst && r.justWroteKey == b.justWroteKey
    ensures r.containerType == b.containerType
    ensures Text(r) == Text(b) + Take(CloseBreak(b), Room(b))
  {
    var b1 := b.(depth := Outer(b));
    assert Valid(b1) && Text(b1) == Text(b) && Room(b1) == Room(b);
    if b.isFirst[b.depth] then b1 else BreakLine(b1)
  }

  /** endObject / endArray: one level up only in pretty mode; the level the
      builder is now at is no longer "first". */
  function End(b: Builder, close: char): (r: Builder)
    requires Valid(b)
    ensures Valid(r) && Appended(b, r) && r.pretty == b.pretty
    ensures r.depth == Outer(b)
    ensures !r.isFirst[r.depth] && r.justWroteKey == b.justWroteKey
    ensures r.isFirst == b.isFirst[r.depth := false] && r.containerType == b.containerType
    ensures Room(b) >= |CloseText(b, close)| ==> Text(r) == Text(b) + CloseText(b, close)
    ensures Text(r) == Text(b) + Take(CloseText(b, close), Room(b))
  {
    var b2 := Dedent(b);
    var b3 := WriteChar(b2, close);
    Chain(b, b2, b3, CloseBreak(b), [close]);
    b3.(isFirst := b3.isFirst[b3.depth := false])
  }

  function EndObject(b: Builder): Builder requires Valid(b) { End(b, '}') }
  function EndArray(b: Builder): Builder requires Valid(b) { End(b, ']') }
}
