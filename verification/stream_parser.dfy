/** ESP8266StreamJsonParser: a key search over a character stream and the
    streaming of the value found.

    The stream is the whole input `s` with a cursor `p` (`p <= |s|`); every
    function returns the cursor where the parser leaves the stream.
    `peek()` at the end of the stream returns -1, which equals none of the
    characters the parser tests for (`At` is false there); `_read()` at the
    end returns NUL and does not move. The parser's pushback slot is never
    set to anything but NUL, so `_read()` is simply "next character". */
module StreamParser {
  import opened Chars

  /** `peek() == c` */
  predicate At(s: seq<char>, p: nat, c: char) { p < |s| && s[p] == c }

  /** Cursor after `_read()`. */
  function Next(s: seq<char>, p: nat): nat { if p < |s| then p + 1 else p }

  /** The characters from `p` on begin with `t` (character by character,
      see `HoldsSlice`). */
  predicate Holds(s: seq<char>, p: nat, t: seq<char>)
    decreases |t|
  {
    p + |t| <= |s| && (|t| == 0 || (s[p] == t[0] && Holds(s, p + 1, t[1..])))
  }

  lemma {:induction false} HoldsSlice(s: seq<char>, p: nat, t: seq<char>)
    ensures Holds(s, p, t) <==> p + |t| <= |s| && s[p..p + |t|] == t
    decreases |t|
  {
    if |t| > 0 && p + |t| <= |s| {
      HoldsSlice(s, p + 1, t[1..]);
      assert s[p..p + |t|] == [s[p]] + s[p + 1..p + |t|];
    }
  }

  lemma HoldsAt(s: seq<char>, p: nat, t: seq<char>, i: nat)
    requires Holds(s, p, t) && i < |t|
    ensures p + i < |s| && s[p + i] == t[i]
  {
    HoldsSlice(s, p, t);
    assert s[p..p + |t|][i] == s[p + i];
  }

  // ---------------------------------------------------------------------
  // Skipping

  /** _skipWhitespace (see `SkipWsSpan` for what it skips). */
  function SkipWs(s: seq<char>, p: nat): (q: nat)
    requires p <= |s|
    ensures p <= q <= |s|
    decreases |s| - p
  {
    if p < |s| && IsJsonSpace(s[p]) then SkipWs(s, p + 1) else p
  }

  /** `SkipWs` stops at the first non-space character at or after `p`. */
  lemma {:induction false} SkipWsSpan(s: seq<char>, p: nat)
    requires p <= |s|
    ensures forall i :: p <= i < SkipWs(s, p) ==> IsJsonSpace(s[i])
    ensures SkipWs(s, p) < |s| ==> !IsJsonSpace(s[SkipWs(s, p)])
    decreases |s| - p
  {
    if p < |s| && IsJsonSpace(s[p]) {
      SkipWsSpan(s, p + 1);
    }
  }

  /** Where no space is, `SkipWs` does not move. */
  lemma SkipWsNone(s: seq<char>, p: nat)
    requires p <= |s| && (p < |s| ==> !IsJsonSpace(s[p]))
    ensures SkipWs(s, p) == p
  {
  }

  /** The loop of _skipString, entered after the opening quote: up to and
      including the first quote, the character after each backslash
      skipped unseen. */
  function SkipStringBody(s: seq<char>, p: nat): (q: nat)
    requires p <= |s|
    ensures p <= q <= |s|
    ensures q == |s| || (p < q && s[q - 1] == '"')
    decreases |s| - p
  {
    if p == |s| then p
    else if s[p] == '"' then p + 1
    else if s[p] == '\\' then SkipStringBody(s, Next(s, p + 1))
    else SkipStringBody(s, p + 1)
  }

  /** _skipString: the first `_read()` consumes the opening quote. */
  function SkipString(s: seq<char>, p: nat): (q: nat)
    requires p <= |s|
    ensures p <= q <= |s| && (p < |s| ==> p < q)
  {
    SkipStringBody(s, Next(s, p))
  }

  /** The characters `_skipValue` stops a literal or number at: the
      `strchr` set, whose terminator NUL also matches. */
  predicate StopsLiteral(c: char)
  {
    c == ' ' || c == '\t' || c == '\n' || c == '\r' || c == ',' || c == '}' || c == ']' || c == NUL
  }

  function SkipLiteral(s: seq<char>, p: nat): (q: nat)
    requires p <= |s|
    ensures p <= q <= |s|
    ensures forall i :: p <= i < q ==> !StopsLiteral(s[i])
    ensures q < |s| ==> StopsLiteral(s[q])
    decreases |s| - p
  {
    if p < |s| && !StopsLiteral(s[p]) then SkipLiteral(s, p + 1) else p
  }

  /** The balance loop of _skipObject / _skipArray, entered after the
      opening delimiter: only `open`/`close` are counted, and at a quote
      `_skipString` is called although the quote has been read already, so
      its first `_read()` swallows the string's first character. */
  function SkipNested(s: seq<char>, p: nat, open: char, close: char, bal: nat): (q: nat)
    requires p <= |s|
    ensures p <= q <= |s|
    decreases |s| - p
  {
    if p == |s| || bal == 0 then p
    else if s[p] == open then SkipNested(s, p + 1, open, close, bal + 1)
    else if s[p] == close then SkipNested(s, p + 1, open, close, bal - 1)
    else if s[p] == '"' then SkipNested(s, SkipString(s, p + 1), open, close, bal)
    else SkipNested(s, p + 1, open, close, bal)
  }

  /** _skipValue: a string, an object, an array, or a literal/number up to
      a stop character; anything else is left in place. */
  function SkipValue(s: seq<char>, p: nat): (q: nat)
    requires p <= |s|
    ensures p <= q <= |s|
  {
    var p1 := SkipWs(s, p);
    if At(s, p1, '"') then SkipString(s, p1)
    else if At(s, p1, '{') then SkipNested(s, p1 + 1, '{', '}', 1)
    else if At(s, p1, '[') then SkipNested(s, p1 + 1, '[', ']', 1)
    else if p1 < |s| && (IsDigit(s[p1]) || s[p1] in "-tfn") then SkipLiteral(s, p1)
    else p1
  }

  /** _parseString, entered after the opening quote (see `ParseStringSpan`
      for what it reads). */
  function ParseString(s: seq<char>, p: nat): (r: (seq<char>, nat))
    requires p <= |s|
    ensures p <= r.1 <= |s|
    decreases |s| - p
  {
    if p == |s| then ([], p)
    else if s[p] == '"' then ([], p + 1)
    else
      var rest := ParseString(s, p + 1);
      ([s[p]] + rest.0, rest.1)
  }

  /** `ParseString` reads the characters up to the first quote, with no
      escape processing, and consumes the quote; without a quote it reads
      to the end of the stream. */
  lemma {:induction false} ParseStringSpan(s: seq<char>, p: nat)
    requires p <= |s|
    ensures var r := ParseString(s, p);
      && '"' !in r.0
      && (|| (p < r.1 && s[r.1 - 1] == '"' && r.0 == s[p..r.1 - 1])
          || (r.1 == |s| && r.0 == s[p..]))
    decreases |s| - p
  {
    if p < |s| && s[p] != '"' {
      ParseStringSpan(s, p + 1);
      var rest := ParseString(s, p + 1);
      assert s[p..] == [s[p]] + s[p + 1..];
      assert rest.1 > p + 1 ==> s[p..rest.1 - 1] == [s[p]] + s[p + 1..rest.1 - 1];
    }
  }

  // ---------------------------------------------------------------------
  // Key search

  /** The answer of `_findKeyRecursive` and where it leaves the stream.
      `OutOfFuel` stands for a search that has not returned within the
      given number of steps. */
  datatype Search = Found(pos: nat) | Missing(pos: nat) | OutOfFuel

  /** _findKeyRecursive: search an object or an array; any other value is
      skipped and reported missing. */
  function FindKey(s: seq<char>, p: nat, key: CStr, fuel: nat): (r: Search)
    requires p <= |s|
    ensures r.Found? || r.Missing? ==> p <= r.pos <= |s|
    ensures r.Found? ==> 0 < r.pos && s[r.pos - 1] == ':'
    decreases fuel, 4
  {
    if fuel == 0 then OutOfFuel
    else
      var p1 := SkipWs(s, p);
      if At(s, p1, '{') then FindInObject(s, p1 + 1, key, fuel - 1)
      else if At(s, p1, '[') then FindInArray(s, p1 + 1, key, fuel - 1)
      else Missing(SkipValue(s, p1))
  }

  /** One turn of the object loop: `}` ends the level; an optional comma;
      then a member, which must start with a quote. */
  function FindInObject(s: seq<char>, p: nat, key: CStr, fuel: nat): (r: Search)
    requires p <= |s|
    ensures r.Found? || r.Missing? ==> p <= r.pos <= |s|
    ensures r.Found? ==> 0 < r.pos && s[r.pos - 1] == ':'
    decreases fuel, 2
  {
    if fuel == 0 then OutOfFuel
    else
      var p1 := SkipWs(s, p);
      if At(s, p1, '}') then Missing(p1 + 1)
      else
        var p2 := if At(s, p1, ',') then SkipWs(s, p1 + 1) else p1;
        if !At(s, p2, '"') then Missing(p2)
        else FindMember(s, p2 + 1, key, fuel)
  }

  /** A member's key, entered after its opening quote, up to where the
      colon should be. */
  function MemberKey(s: seq<char>, p: nat): (r: (seq<char>, nat))
    requires p <= |s|
    ensures p <= r.1 <= |s|
  {
    var (name, p3) := ParseString(s, p);
    (name, SkipWs(s, p3))
  }

  /** The key is read (no escapes: it ends at the first quote) and a `:`
      must follow; a key whose text before any NUL is `key` is the match. */
  function FindMember(s: seq<char>, p: nat, key: CStr, fuel: nat): (r: Search)
    requires p <= |s| && fuel > 0
    ensures r.Found? || r.Missing? ==> p <= r.pos <= |s|
    ensures r.Found? ==> 0 < r.pos && s[r.pos - 1] == ':'
    decreases fuel, 1
  {
    var (name, p4) := MemberKey(s, p);
    if !At(s, p4, ':') then Missing(Next(s, p4))
    else if UntilNul(name) == key then Found(p4 + 1)
    else MemberValue(s, SkipWs(s, p4 + 1), key, fuel)
  }

  /** A member's value that did not match: a container is searched, then
      the loop goes on where the search stopped; anything else is
      skipped. */
  function MemberValue(s: seq<char>, p: nat, key: CStr, fuel: nat): (r: Search)
    requires p <= |s| && fuel > 0
    ensures r.Found? || r.Missing? ==> p <= r.pos <= |s|
    ensures r.Found? ==> 0 < r.pos && s[r.pos - 1] == ':'
    decreases fuel, 0
  {
    if At(s, p, '{') || At(s, p, '[') then ThenObject(s, FindKey(s, p, key, fuel - 1), key, fuel - 1)
    else FindInObject(s, SkipValue(s, p), key, fuel - 1)
  }

  /** After a nested search: a match is the answer, a miss goes on with the
      object loop where the nested search stopped. */
  function ThenObject(s: seq<char>, r: Search, key: CStr, fuel: nat): (r': Search)
    requires r.Found? || r.Missing? ==> r.pos <= |s|
    requires r.Found? ==> 0 < r.pos && s[r.pos - 1] == ':'
    ensures r'.Found? || r'.Missing? ==> r'.pos <= |s|
    ensures r.Missing? ==> (r'.Found? || r'.Missing? ==> r.pos <= r'.pos)
    ensures r'.Found? ==> 0 < r'.pos && s[r'.pos - 1] == ':'
    decreases fuel, 3
  {
    if r.Missing? then FindInObject(s, r.pos, key, fuel) else r
  }

  /** One turn of the array loop: `]` ends the level; an optional comma;
      the element is searched, then `_skipValue` runs on what follows it. */
  function FindInArray(s: seq<char>, p: nat, key: CStr, fuel: nat): (r: Search)
    requires p <= |s|
    ensures r.Found? || r.Missing? ==> p <= r.pos <= |s|
    ensures r.Found? ==> 0 < r.pos && s[r.pos - 1] == ':'
    decreases fuel, 2
  {
    if fuel == 0 then OutOfFuel
    else
      var p1 := SkipWs(s, p);
      if At(s, p1, ']') then Missing(p1 + 1)
      else
        var p2 := if At(s, p1, ',') then p1 + 1 else p1;
        ThenArray(s, FindKey(s, p2, key, fuel - 1), key, fuel - 1)
  }

  /** After an element's search: a match is the answer; after a miss
      `_skipValue` runs and the array loop goes on. */
  function ThenArray(s: seq<char>, r: Search, key: CStr, fuel: nat): (r': Search)
    requires r.Found? || r.Missing? ==> r.pos <= |s|
    requires r.Found? ==> 0 < r.pos && s[r.pos - 1] == ':'
    ensures r'.Found? || r'.Missing? ==> r'.pos <= |s|
    ensures r.Missing? ==> (r'.Found? || r'.Missing? ==> r.pos <= r'.pos)
    ensures r'.Found? ==> 0 < r'.pos && s[r'.pos - 1] == ':'
    decreases fuel, 3
  {
    if r.Missing? then FindInArray(s, SkipValue(s, r.pos), key, fuel) else r
  }

  /** The characters `find` discards before the first `{` or `[`. */
  function SkipToContainer(s: seq<char>, p: nat): (q: nat)
    requires p <= |s|
    ensures p <= q <= |s|
    ensures forall i :: p <= i < q ==> s[i] != '{' && s[i] != '['
    ensures q < |s| ==> s[q] == '{' || s[q] == '['
    decreases |s| - p
  {
    if p < |s| && s[p] != '{' && s[p] != '[' then SkipToContainer(s, p + 1) else p
  }

  /** find(key): discard up to the first `{` or `[`; with none, report the
      key missing without searching. */
  function Find(s: seq<char>, p: nat, key: CStr, fuel: nat): (r: Search)
    requires p <= |s|
    ensures r.Found? || r.Missing? ==> p <= r.pos <= |s|
    ensures (forall i :: p <= i < |s| ==> s[i] != '{' && s[i] != '[') ==> r == Missing(|s|)
    ensures r != Missing(|s|) ==> exists i :: p <= i < |s| && (s[i] == '{' || s[i] == '[')
  {
    var q := SkipToContainer(s, SkipWs(s, p));
    if q == |s| then Missing(q) else FindKey(s, q, key, fuel)
  }

  // ---------------------------------------------------------------------
  // Value streaming

  /** What `getValueStream` emitted, and how it ended: `Done` with the
      cursor after the value; `Blocked` when the stream ended inside a
      string or container, where the source waits for more input forever;
      `BadHex` at a `\u` not followed by four hex digits, whose `strtol`
      reading is outside this model. */
  datatype Outcome = Done(out: seq<char>, pos: nat) | Blocked(out: seq<char>) | BadHex(out: seq<char>)

  function Emit(prefix: seq<char>, o: Outcome): Outcome
  {
    match o
    case Done(out, q) => Done(prefix + out, q)
    case Blocked(out) => Blocked(prefix + out)
    case BadHex(out) => BadHex(prefix + out)
  }

  /** The character a two-character escape `\c` stands for: the JSON
      escapes, and the escaped character itself for any other. */
  function EscapedChar(c: char): char
  {
    match c
    case 'b' => '\U{08}'
    case 'f' => '\U{0C}'
    case 'n' => '\n'
    case 'r' => '\r'
    case 't' => '\t'
    case _ => c
  }

  /** Four hex digits at `q`. */
  predicate HexAt(s: seq<char>, q: nat)
  {
    q + 4 <= |s| && IsHex4(s[q..q + 4])
  }

  /** A low surrogate escape `\uXXXX` at `r`. */
  predicate LowEscapeAt(s: seq<char>, r: nat)
  {
    At(s, r, '\\') && At(s, r + 1, 'u') && HexAt(s, r + 2) && IsLowSurrogate(Hex4Value(s[r + 2..r + 6]))
  }

  /** A `\u` escape, entered after the `u`: the bytes emitted and the cursor
      after everything consumed, or None when hex digits are missing. A
      complete surrogate pair becomes four bytes; any other code unit,
      a lone surrogate included, one to three. After a high surrogate a
      backslash is consumed even when no `u` follows it (and then lost),
      and a following `\uXXXX` that is not a low surrogate is consumed and
      dropped. */
  function UnicodeEscape(s: seq<char>, q: nat): (r: Option<(seq<char>, nat)>)
    requires q <= |s|
    ensures r.Some? ==> q + 4 <= r.value.1 <= |s| && AllBytes(r.value.0) && 1 <= |r.value.0| <= 4
  {
    if !HexAt(s, q) then None
    else
      var cp1 := Hex4Value(s[q..q + 4]);
      var r := q + 4;
      if IsHighSurrogate(cp1) && LowEscapeAt(s, r) then
        Some((Utf8Supplementary(CombineSurrogates(cp1, Hex4Value(s[r + 2..r + 6]))), r + 6))
      else if !IsHighSurrogate(cp1) || !At(s, r, '\\') then Some((Utf8Bmp(cp1), r))
      else if !At(s, r + 1, 'u') then Some((Utf8Bmp(cp1), r + 1))
      else if !HexAt(s, r + 2) then None
      else Some((Utf8Bmp(cp1), r + 6))
  }

  /** The string branch of getValueStream, entered after the opening quote. */
  function StringValue(s: seq<char>, p: nat): (o: Outcome)
    requires p <= |s|
    ensures o.Done? ==> p < o.pos <= |s| && s[o.pos - 1] == '"'
    decreases |s| - p
  {
    if p == |s| then Blocked([])
    else if s[p] == '"' then Done([], p + 1)
    else if s[p] != '\\' then Emit([s[p]], StringValue(s, p + 1))
    else if p + 1 == |s| then Blocked([])
    else if s[p + 1] != 'u' then Emit([EscapedChar(s[p + 1])], StringValue(s, p + 2))
    else
      match UnicodeEscape(s, p + 2)
      case None => BadHex([])
      case Some(e) => Emit(e.0, StringValue(s, e.1))
  }

  predicate IsNumberChar(c: char) { IsDigit(c) || c in ".-+eE" }

  /** The number branch: the run of number characters, left in place
      after it. */
  function NumberValue(s: seq<char>, p: nat): (q: nat)
    requires p <= |s|
    ensures p <= q <= |s|
    ensures forall i :: p <= i < q ==> IsNumberChar(s[i])
    ensures q < |s| ==> !IsNumberChar(s[q])
    decreases |s| - p
  {
    if p < |s| && IsNumberChar(s[p]) then NumberValue(s, p + 1) else p
  }

  /** How a character moves the container branch's counter: `{` and `[`
      count up, `}` and `]` count down, all else leaves it. */
  function BracketStep(c: char): int
  {
    if c == '{' || c == '[' then 1 else if c == '}' || c == ']' then -1 else 0
  }

  /** The counter's net movement over `t`. */
  function Balance(t: seq<char>): int
  {
    if |t| == 0 then 0 else BracketStep(t[0]) + Balance(t[1..])
  }

  /** The container branch after the opening delimiter, with the counter
      at `bal`: every character is emitted raw, quotes are not looked at,
      and the copy stops right after the first character that brings the
      counter to zero; when the stream ends first, the source waits. */
  function RawContainer(s: seq<char>, p: nat, bal: nat): (o: Outcome)
    requires p <= |s|
    ensures o.Done? ==> p <= o.pos <= |s| && o.out == s[p..o.pos]
    ensures o.Done? ==> bal + Balance(s[p..o.pos]) == 0
    ensures o.Done? ==> forall j :: p <= j < o.pos ==> bal + Balance(s[p..j]) > 0
    ensures o.Blocked? ==> o.out == s[p..]
    ensures o.Blocked? ==> forall j :: p <= j <= |s| ==> bal + Balance(s[p..j]) > 0
    ensures !o.BadHex?
    decreases |s| - p
  {
    if bal == 0 then
      assert s[p..p] == [];
      Done([], p)
    else if p == |s| then
      assert s[p..p] == [];
      Blocked([])
    else
      var c := s[p];
      var nb := if c == '{' || c == '[' then bal + 1 else if c == '}' || c == ']' then bal - 1 else bal;
      var o := RawContainer(s, p + 1, nb);
      assert s[p..] == [c] + s[p + 1..];
      assert o.Done? ==> s[p..o.pos] == [c] + s[p + 1..o.pos];
      BalanceStep(s, p, if o.Done? then o.pos else |s|);
      CountStaysUp(s, p, p + 1, bal, nb, if o.Done? then o.pos else |s| + 1);
      Emit([c], o)
  }

  /** The counter over `s[p..j]` is the first character's step and the
      counter over the rest. */
  lemma BalanceStep(s: seq<char>, p: nat, j: nat)
    requires p < j <= |s|
    ensures Balance(s[p..j]) == BracketStep(s[p]) + Balance(s[p + 1..j])
  {
    assert s[p..j][1..] == s[p + 1..j];
  }

  /** The counter stays up before each character from `p` on, given that
      it does from `p + 1` on after the first character's step. */
  lemma CountStaysUp(s: seq<char>, p: nat, q: nat, bal: int, nb: int, end: nat)
    requires p < |s| && q == p + 1 && p < end <= |s| + 1 && bal > 0 && nb == bal + BracketStep(s[p])
    requires forall j :: q <= j < end ==> nb + Balance(s[q..j]) > 0
    ensures forall j :: p <= j < end ==> bal + Balance(s[p..j]) > 0
  {
    forall j | p < j < end
      ensures bal + Balance(s[p..j]) > 0
    {
      BalanceStep(s, p, j);
    }
    assert s[p..p] == [];
  }

  /** getValueStream: a string is decoded, a number or a container copied
      raw, anything else skipped without output. */
  function GetValueStream(s: seq<char>, p: nat): (o: Outcome)
    requires p <= |s|
    ensures o.Done? ==> p <= o.pos <= |s|
  {
    var p1 := SkipWs(s, p);
    if At(s, p1, '"') then StringValue(s, p1 + 1)
    else if p1 < |s| && (IsDigit(s[p1]) || s[p1] == '-') then
      var q := NumberValue(s, p1);
      Done(s[p1..q], q)
    else if At(s, p1, '{') || At(s, p1, '[') then Emit([s[p1]], RawContainer(s, p1 + 1, 1))
    else Done([], SkipValue(s, p1))
  }

  // ---------------------------------------------------------------------
  // Properties of the search

  /** More fuel never changes an answer: fuel only decides whether the
      search has returned yet. */
  lemma {:induction false} FindKeyFuel(s: seq<char>, p: nat, key: CStr, f: nat, g: nat)
    requires p <= |s| && f <= g && FindKey(s, p, key, f) != OutOfFuel
    ensures FindKey(s, p, key, g) == FindKey(s, p, key, f)
    decreases f, 4
  {
    var p1 := SkipWs(s, p);
    if At(s, p1, '{') {
      FindInObjectFuel(s, p1 + 1, key, f - 1, g - 1);
    } else if At(s, p1, '[') {
      FindInArrayFuel(s, p1 + 1, key, f - 1, g - 1);
    }
  }

  lemma {:induction false} FindInObjectFuel(s: seq<char>, p: nat, key: CStr, f: nat, g: nat)
    requires p <= |s| && f <= g && FindInObject(s, p, key, f) != OutOfFuel
    ensures FindInObject(s, p, key, g) == FindInObject(s, p, key, f)
    decreases f, 2
  {
    var p1 := SkipWs(s, p);
    if !At(s, p1, '}') {
      var p2 := if At(s, p1, ',') then SkipWs(s, p1 + 1) else p1;
      if At(s, p2, '"') {
        FindMemberFuel(s, p2 + 1, key, f, g);
      }
    }
  }

  lemma {:induction false} FindMemberFuel(s: seq<char>, p: nat, key: CStr, f: nat, g: nat)
    requires p <= |s| && 0 < f <= g && FindMember(s, p, key, f) != OutOfFuel
    ensures FindMember(s, p, key, g) == FindMember(s, p, key, f)
    decreases f, 1
  {
    var (name, p4) := MemberKey(s, p);
    if At(s, p4, ':') && UntilNul(name) != key {
      MemberValueFuel(s, SkipWs(s, p4 + 1), key, f, g);
    }
  }

  lemma {:induction false} MemberValueFuel(s: seq<char>, p: nat, key: CStr, f: nat, g: nat)
    requires p <= |s| && 0 < f <= g && MemberValue(s, p, key, f) != OutOfFuel
    ensures MemberValue(s, p, key, g) == MemberValue(s, p, key, f)
    decreases f, 0
  {
    if At(s, p, '{') || At(s, p, '[') {
      FindKeyFuel(s, p, key, f - 1, g - 1);
      ThenObjectFuel(s, FindKey(s, p, key, f - 1), key, f - 1, g - 1);
    } else {
      FindInObjectFuel(s, SkipValue(s, p), key, f - 1, g - 1);
    }
  }

  lemma {:induction false} ThenObjectFuel(s: seq<char>, r: Search, key: CStr, f: nat, g: nat)
    requires r.Found? || r.Missing? ==> r.pos <= |s|
    requires r.Found? ==> 0 < r.pos && s[r.pos - 1] == ':'
    requires f <= g && ThenObject(s, r, key, f) != OutOfFuel
    ensures ThenObject(s, r, key, g) == ThenObject(s, r, key, f)
    decreases f, 3
  {
    if r.Missing? {
      FindInObjectFuel(s, r.pos, key, f, g);
    }
  }

  lemma {:induction false} FindInArrayFuel(s: seq<char>, p: nat, key: CStr, f: nat, g: nat)
    requires p <= |s| && f <= g && FindInArray(s, p, key, f) != OutOfFuel
    ensures FindInArray(s, p, key, g) == FindInArray(s, p, key, f)
    decreases f, 2
  {
    var p1 := SkipWs(s, p);
    if !At(s, p1, ']') {
      var p2 := if At(s, p1, ',') then p1 + 1 else p1;
      FindKeyFuel(s, p2, key, f - 1, g - 1);
      ThenArrayFuel(s, FindKey(s, p2, key, f - 1), key, f - 1, g - 1);
    }
  }

  lemma {:induction false} ThenArrayFuel(s: seq<char>, r: Search, key: CStr, f: nat, g: nat)
    requires r.Found? || r.Missing? ==> r.pos <= |s|
    requires r.Found? ==> 0 < r.pos && s[r.pos - 1] == ':'
    requires f <= g && ThenArray(s, r, key, f) != OutOfFuel
    ensures ThenArray(s, r, key, g) == ThenArray(s, r, key, f)
    decreases f, 3
  {
    if r.Missing? {
      FindInArrayFuel(s, SkipValue(s, r.pos), key, f, g);
    }
  }

  /** An array still open when the stream ends is never left: the loop
      finds no `]`, the element search returns at once without consuming,
      and the loop turns again, with any amount of fuel. */
  lemma {:induction false} OpenArrayAtEndDiverges(s: seq<char>, key: CStr, fuel: nat)
    ensures FindInArray(s, |s|, key, fuel) == OutOfFuel
    decreases fuel
  {
    if fuel > 1 {
      assert FindKey(s, |s|, key, fuel - 1) == Missing(|s|);
      OpenArrayAtEndDiverges(s, key, fuel - 1);
    }
  }

  /** The truncated document `[1` makes the search run forever. */
  lemma TruncatedArrayDiverges(key: CStr, fuel: nat)
    ensures FindKey("[1", 0, key, fuel) == OutOfFuel
  {
    var s := "[1";
    assert SkipWs(s, 0) == 0;
    if fuel > 2 {
      assert SkipWs(s, 1) == 1 && SkipLiteral(s, 2) == 2;
      assert SkipValue(s, 1) == 2;
      assert FindKey(s, 1, key, fuel - 2) == Missing(2);
      assert SkipValue(s, 2) == 2;
      assert FindInArray(s, 1, key, fuel - 1) == ThenArray(s, Missing(2), key, fuel - 2);
      OpenArrayAtEndDiverges(s, key, fuel - 2);
    }
  }

  // ---------------------------------------------------------------------
  // Properties of string decoding

  lemma HoldsSplit(s: seq<char>, p: nat, a: seq<char>, b: seq<char>)
    requires Holds(s, p, a + b)
    ensures Holds(s, p, a) && Holds(s, p + |a|, b)
  {
    HoldsSlice(s, p, a + b);
    HoldsSlice(s, p, a);
    HoldsSlice(s, p + |a|, b);
    assert s[p..p + |a|] == (a + b)[..|a|];
    assert s[p + |a|..p + |a| + |b|] == (a + b)[|a|..];
  }

  /** A `\u` escape of a code unit that is not a high surrogate becomes
      its 1-3 UTF-8 bytes and consumes four hex digits. */
  lemma UnicodeSingle(s: seq<char>, q: nat, cp: nat)
    requires cp < 0x10000 && !IsHighSurrogate(cp)
    requires Holds(s, q, Hex4(cp))
    ensures UnicodeEscape(s, q) == Some((Utf8Bmp(cp), q + 4))
  {
    HoldsSlice(s, q, Hex4(cp));
  }

  /** `\uHHHH\uLLLL` with a high and a low surrogate becomes the four
      UTF-8 bytes of the code point the pair encodes. */
  lemma UnicodePair(s: seq<char>, q: nat, hi: nat, lo: nat)
    requires IsHighSurrogate(hi) && IsLowSurrogate(lo)
    requires Holds(s, q, Hex4(hi) + "\\u" + Hex4(lo))
    ensures UnicodeEscape(s, q) == Some((Utf8Supplementary(CombineSurrogates(hi, lo)), q + 10))
  {
    HoldsSplit(s, q, Hex4(hi) + "\\u", Hex4(lo));
    HoldsSplit(s, q, Hex4(hi), "\\u");
    HoldsSlice(s, q, Hex4(hi));
    HoldsSlice(s, q + 6, Hex4(lo));
    HoldsAt(s, q + 4, "\\u", 0);
    HoldsAt(s, q + 4, "\\u", 1);
  }

  /** A high surrogate followed by a `\n` escape loses the backslash: the
      string `"\uD800\n"` decodes to the surrogate's three bytes and a
      letter `n`. */
  lemma LoneSurrogateLosesEscape()
    ensures StringValue("\\uD800\\n\"", 0) == Done(Utf8Bmp(0xD800) + "n", 9)
  {
    var s := "\\uD800\\n\"";
    assert s[2..6] == "D800";
    assert Hex4Value("D800") == 0xD800;
    assert !LowEscapeAt(s, 6);
    assert StringValue(s, 8) == Done([], 9);
    assert StringValue(s, 7) == Done("n", 9);
  }

  /** A high surrogate followed by a `\u` escape that is not a low
      surrogate swallows that escape: `"\uD800\u0041"` loses its `A`. */
  lemma LoneSurrogateDropsNext()
    ensures StringValue("\\uD800\\u0041\"", 0) == Done(Utf8Bmp(0xD800), 13)
  {
    var s := "\\uD800\\u0041\"";
    assert s[2..6] == "D800";
    assert Hex4Value("D800") == 0xD800;
    assert s[8..12] == "0041";
    assert Hex4Value("0041") == 0x41;
    assert !LowEscapeAt(s, 6);
    assert StringValue(s, 12) == Done([], 13);
  }

  // ---------------------------------------------------------------------
  // The skip loops

  /** `_skipObject` loses its place at an empty string: in `{"":1}"}`,
      whose object ends at offset 6, it takes the closing quote of `""` for
      an opening one and stops after the second `}`. */
  lemma SkipObjectDesync()
    ensures SkipValue("{\"\":1}\"}", 0) == 8
  {
    var s := "{\"\":1}\"}";
    assert SkipStringBody(s, 3) == 7;
    assert SkipNested(s, 7, '{', '}', 1) == 8;
  }
}
