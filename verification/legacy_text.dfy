/** The text helpers of the older client: `_decodeUnicode`, which turns
    `\uXXXX` escapes (and surrogate pairs) into UTF-8 bytes, and
    `_extractContent`, which cuts the first `"text":` string out of a
    response and unescapes it. Strings are sequences of byte-valued
    characters, as Arduino `String`s are. */
module LegacyText {
  import opened Chars

  // ---------------------------------------------------------------------
  // _decodeUnicode

  /** A `\u` and four hex digits at the start of `s`. */
  predicate UnitAt(s: seq<char>)
  {
    |s| >= 6 && s[0] == '\\' && s[1] == 'u' && IsHex4(s[2..6])
  }

  /** A `\u` low surrogate at index 6 of `s`: what makes a high surrogate
      the first half of a pair. */
  predicate LowAfter(s: seq<char>)
  {
    |s| >= 12 && s[6] == '\\' && s[7] == 'u' && IsHex4(s[8..12]) && IsLowSurrogate(Hex4Value(s[8..12]))
  }

  /** The bytes a `\u` escape at the start of `s` stands for, and how many
      characters it takes: a high surrogate directly followed by a `\u` low
      surrogate is one four-byte character (12 characters), any other code
      unit is one to three bytes (6 characters). */
  function UnicodeAt(s: seq<char>): (r: Option<(seq<char>, nat)>)
    ensures r.Some? <==> UnitAt(s)
    ensures r.Some? ==> AllBytes(r.value.0) && 0 < r.value.1 <= |s|
    ensures r.Some? ==> (r.value.1 == 6 && |r.value.0| <= 3) || (r.value.1 == 12 && |r.value.0| == 4)
  {
    if !UnitAt(s) then None
    else
      var cp1 := Hex4Value(s[2..6]);
      if IsHighSurrogate(cp1) && LowAfter(s) then
        Some((Utf8Supplementary(CombineSurrogates(cp1, Hex4Value(s[8..12]))), 12))
      else Some((Utf8Bmp(cp1), 6))
  }

  /** `_decodeUnicode`. Its loop decides at index `i` by looking at
      `input[i..]` only, so it is written here as a recursion over the
      suffix. The four characters after `\u` count as a code unit when
      `strtol` consumes all of them; for the texts this model admits that
      is exactly when they are four hex digits. */
  function DecodeUnicode(s: seq<char>): (r: seq<char>)
    ensures |r| <= |s|
    decreases |s|
  {
    if |s| == 0 then []
    else
      match UnicodeAt(s)
      case Some(e) => e.0 + DecodeUnicode(s[e.1..])
      case None => [s[0]] + DecodeUnicode(s[1..])
  }

  /** A text without backslashes comes out unchanged. */
  lemma {:induction false} DecodeNoBackslash(s: seq<char>)
    requires forall i :: 0 <= i < |s| ==> s[i] != '\\'
    ensures DecodeUnicode(s) == s
    decreases |s|
  {
    if |s| > 0 {
      DecodeNoBackslash(s[1..]);
      assert [s[0]] + s[1..] == s;
    }
  }

  // ---------------------------------------------------------------------
  // The texts the decoder reads back: a reference writer

  /** One unit of escaped text: a raw character, a `\uXXXX` code unit, a
      surrogate pair written as two `\u` escapes, or a two-character escape
      `\n`, `\r`, `\t`, `\"`, `\\` of the character `c`. */
  datatype Piece = Plain(c: char) | Unit(cp: nat) | Pair(hi: nat, lo: nat) | Esc(c: char)

  predicate PieceOk(p: Piece)
  {
    match p
    case Plain(c) => c != '\\'
    case Unit(cp) => cp < 0x10000
    case Pair(hi, lo) => IsHighSurrogate(hi) && IsLowSurrogate(lo)
    case Esc(c) => c == '\n' || c == '\r' || c == '\t' || c == '"' || c == '\\'
  }

  /** A high surrogate written alone must not be followed by a low one:
      the decoder would join the two. */
  predicate Apart(p: Piece, q: Piece)
  {
    !(p.Unit? && IsHighSurrogate(p.cp) && q.Unit? && IsLowSurrogate(q.cp))
  }

  predicate PiecesOk(ps: seq<Piece>)
  {
    |ps| == 0 || (PieceOk(ps[0]) && (|ps| > 1 ==> Apart(ps[0], ps[1])) && PiecesOk(ps[1..]))
  }

  /** The letter after the backslash of a two-character escape. */
  function EscLetter(c: char): char
  {
    match c
    case '\n' => 'n'
    case '\r' => 'r'
    case '\t' => 't'
    case _ => c
  }

  function PieceText(p: Piece): (t: seq<char>)
    requires PieceOk(p)
    ensures |t| > 0
  {
    match p
    case Plain(c) => [c]
    case Unit(cp) => "\\u" + Hex4(cp)
    case Pair(hi, lo) => "\\u" + Hex4(hi) + "\\u" + Hex4(lo)
    case Esc(c) => ['\\', EscLetter(c)]
  }

  function PieceBytes(p: Piece): seq<char>
    requires PieceOk(p)
  {
    match p
    case Plain(c) => [c]
    case Unit(cp) => Utf8Bmp(cp)
    case Pair(hi, lo) => Utf8Supplementary(CombineSurrogates(hi, lo))
    case Esc(c) => [c]
  }

  function Text(ps: seq<Piece>): seq<char>
    requires PiecesOk(ps)
  {
    if |ps| == 0 then [] else PieceText(ps[0]) + Text(ps[1..])
  }

  function Bytes(ps: seq<Piece>): seq<char>
    requires PiecesOk(ps)
  {
    if |ps| == 0 then [] else PieceBytes(ps[0]) + Bytes(ps[1..])
  }

  predicate NoEsc(ps: seq<Piece>)
  {
    forall i :: 0 <= i < |ps| ==> !ps[i].Esc?
  }

  /** Nothing at the start of `t` joins a preceding high surrogate. */
  predicate NoLowAhead(t: seq<char>)
  {
    !(UnitAt(t) && IsLowSurrogate(Hex4Value(t[2..6])))
  }

  /** The text after a piece does not start with a low surrogate escape
      unless that piece is followed by a `Unit` low surrogate. */
lemma TextHead(ps: seq<Piece>)
    requires PiecesOk(ps) && |ps| > 0 && !(ps[0].Unit? && IsLowSurrogate(ps[0].cp))
    ensures NoLowAhead(Text(ps))
  {
    assert Text(ps) == PieceText(ps[0]) + Text(ps[1..]);
    HeadNoLow(ps[0], Text(ps[1..]));
  }

  lemma HeadNoLow(p: Piece, t: seq<char>)
    requires PieceOk(p) && !(p.Unit? && IsLowSurrogate(p.cp))
    ensures NoLowAhead(PieceText(p) + t)
  {
    var s := PieceText(p) + t;
    match p {
      case Plain(c) =>
        assert s[0] == c;
      case Esc(c) =>
        assert s[1] == EscLetter(c);
      case Unit(cp) =>
        assert s[2..6] == Hex4(cp);
      case Pair(hi, lo) =>
        assert s[2..6] == Hex4(hi);
    }
  }

  /** How the decoder reads a `Unit` piece: one code unit, six
      characters. */
  lemma UnitRead(p: Piece, t: seq<char>)
    requires p.Unit? && PieceOk(p)
    requires IsHighSurrogate(p.cp) ==> NoLowAhead(t)
    ensures UnicodeAt(PieceText(p) + t) == Some((PieceBytes(p), 6))
    ensures (PieceText(p) + t)[6..] == t
  {
    var s := PieceText(p) + t;
    assert s[2..6] == Hex4(p.cp);
    if |s| >= 12 {
      assert s[6..12] == t[..6] && s[8..12] == t[2..6];
    }
  }

  /** How the decoder reads a `Pair` piece: one four-byte character,
      twelve characters. */
  lemma PairRead(p: Piece, t: seq<char>)
    requires p.Pair? && PieceOk(p)
    ensures UnicodeAt(PieceText(p) + t) == Some((PieceBytes(p), 12))
    ensures (PieceText(p) + t)[12..] == t
  {
    var s := PieceText(p) + t;
    assert s[2..6] == Hex4(p.hi);
    assert s[8..12] == Hex4(p.lo);
  }
  /** The decoder reads one piece (other than a two-character escape)
      exactly. */
lemma DecodePiece(p: Piece, t: seq<char>)
    requires PieceOk(p) && !p.Esc?
    requires p.Unit? && IsHighSurrogate(p.cp) ==> NoLowAhead(t)
    ensures DecodeUnicode(PieceText(p) + t) == PieceBytes(p) + DecodeUnicode(t)
  {
    match p {
      case Plain(c) =>
        assert (PieceText(p) + t)[1..] == t;
      case Unit(cp) =>
        UnitRead(p, t);
      case Pair(hi, lo) =>
        PairRead(p, t);
    }
  }
  /** `_decodeUnicode` reads back every text written from pieces without
      two-character escapes. */
  lemma {:induction false} DecodeText(ps: seq<Piece>)
    requires PiecesOk(ps) && NoEsc(ps)
    ensures DecodeUnicode(Text(ps)) == Bytes(ps)
    decreases |ps|
  {
    if |ps| > 0 {
      var rest := ps[1..];
      assert NoEsc(rest) by {
        forall i | 0 <= i < |rest| ensures !rest[i].Esc? {
          assert rest[i] == ps[i + 1];
        }
      }
      assert !ps[0].Esc?;
      DecodeText(rest);
      if |rest| > 0 && ps[0].Unit? && IsHighSurrogate(ps[0].cp) {
        TextHead(rest);
      }
      DecodePiece(ps[0], Text(rest));
    }
  }

  /** A high surrogate without a low one after it is decoded alone, as the
      three bytes of its own code unit; the following text is untouched. */
  lemma LoneHighSurrogate(hi: nat, t: seq<char>)
    requires IsHighSurrogate(hi) && NoLowAhead(t)
    ensures DecodeUnicode("\\u" + Hex4(hi) + t) == Utf8Bmp(hi) + DecodeUnicode(t)
    ensures |Utf8Bmp(hi)| == 3
  {
    DecodePiece(Unit(hi), t);
  }

  // ---------------------------------------------------------------------
  // String::replace

  /** Arduino's `String::replace`: every occurrence of `pat`, left to right
      and without overlap, replaced by `rep`. */
  function ReplaceAll(s: seq<char>, pat: seq<char>, rep: seq<char>): seq<char>
    requires |pat| > 0
    decreases |s|
  {
    if |s| < |pat| then s
    else if s[..|pat|] == pat then rep + ReplaceAll(s[|pat|..], pat, rep)
    else [s[0]] + ReplaceAll(s[1..], pat, rep)
  }

  /** Without an occurrence of the pattern's first character nothing is
      replaced. */
  lemma {:induction false} ReplaceAbsent(s: seq<char>, pat: seq<char>, rep: seq<char>)
    requires |pat| > 0 && forall i :: 0 <= i < |s| ==> s[i] != pat[0]
    ensures ReplaceAll(s, pat, rep) == s
    decreases |s|
  {
    if |s| >= |pat| {
      assert s[..|pat|][0] == s[0];
      ReplaceAbsent(s[1..], pat, rep);
      assert [s[0]] + s[1..] == s;
    }
  }

  // ---------------------------------------------------------------------
  // Unescaping the content

  /** The five `replace` calls of `_extractContent`, in its order, then
      `_decodeUnicode`. */
  function UnescapeAsWritten(s: seq<char>): seq<char>
  {
    var a := ReplaceAll(s, "\\n", "\n");
    var b := ReplaceAll(a, "\\r", "\r");
    var c := ReplaceAll(b, "\\t", "\t");
    var d := ReplaceAll(c, "\\\"", "\"");
    var e := ReplaceAll(d, "\\\\", "\\");
    DecodeUnicode(e)
  }

  /** The escaped backslash of `\\n` (a backslash, then the letter n) is
      cut in half by the first replacement: the text comes out as a
      backslash and a line feed instead of a backslash and `n`. */
  lemma BackslashNBecomesNewline()
    ensures Text([Esc('\\'), Plain('n')]) == "\\\\n"
    ensures Bytes([Esc('\\'), Plain('n')]) == "\\n"
    ensures UnescapeAsWritten("\\\\n") == "\\\n"
    ensures Unescape("\\\\n") == "\\n"
  {
    var s: seq<char> := "\\\\n";
    assert s[1..] == "\\n" && s[1..][..2] == "\\n" && s[1..][2..] == [];
    assert ReplaceAll(s[1..], "\\n", "\n") == "\n";
    var a := ReplaceAll(s, "\\n", "\n");
    assert a == "\\\n";
    assert a[1..] == "\n";
    assert a[..2][1] == '\n';
    assert a[..2] != "\\r" by { assert "\\r"[1] == 'r'; }
    assert a[..2] != "\\t" by { assert "\\t"[1] == 't'; }
    assert ReplaceAll(a, "\\r", "\r") == a;
    assert ReplaceAll(a, "\\t", "\t") == a;
    assert ReplaceAll(a[1..], "\\\"", "\"") == a[1..];
    assert ReplaceAll(a, "\\\"", "\"") == a;
    assert ReplaceAll(a[1..], "\\\\", "\\") == a[1..];
    assert ReplaceAll(a, "\\\\", "\\") == a;
    assert !UnitAt(a) && !UnitAt(a[1..]);
    assert DecodeUnicode(a[1..]) == a[1..];
    assert DecodeUnicode(a) == a;
    assert s[2..] == "n" && s[2..][1..] == [];
    assert !UnitAt("n");
    assert Unescape(s[2..]) == "n";
    assert Text([Plain('n')]) == "n";
    assert [Esc('\\'), Plain('n')][1..] == [Plain('n')];
  }

  /** The character a two-character escape `\x` of the content stands
      for. */
  predicate SimpleEscape(x: char) { x == 'n' || x == 'r' || x == 't' || x == '"' || x == '\\' }

  function EscValue(x: char): char
  {
    match x
    case 'n' => '\n'
    case 'r' => '\r'
    case 't' => '\t'
    case _ => x
  }

  /** The content unescaped in one pass from left to right: each escape is
      read once, so an escaped backslash can no longer start another
      escape. Other backslashes are kept, as the replacements keep them. */
  function Unescape(s: seq<char>): (r: seq<char>)
    ensures |r| <= |s|
    decreases |s|
  {
    if |s| == 0 then []
    else if |s| >= 2 && s[0] == '\\' && SimpleEscape(s[1]) then [EscValue(s[1])] + Unescape(s[2..])
    else
      match UnicodeAt(s)
      case Some(e) => e.0 + Unescape(s[e.1..])
      case None => [s[0]] + Unescape(s[1..])
  }

lemma UnescapePiece(p: Piece, t: seq<char>)
    requires PieceOk(p)
    requires p.Unit? && IsHighSurrogate(p.cp) ==> NoLowAhead(t)
    ensures Unescape(PieceText(p) + t) == PieceBytes(p) + Unescape(t)
  {
    match p {
      case Plain(c) =>
        assert (PieceText(p) + t)[1..] == t;
      case Esc(c) =>
        assert (PieceText(p) + t)[2..] == t;
      case Unit(cp) =>
        UnitRead(p, t);
      case Pair(hi, lo) =>
        PairRead(p, t);
    }
  }
  /** The one-pass unescape reads back every text written from pieces,
      two-character escapes included. */
  lemma {:induction false} UnescapeText(ps: seq<Piece>)
    requires PiecesOk(ps)
    ensures Unescape(Text(ps)) == Bytes(ps)
    decreases |ps|
  {
    if |ps| > 0 {
      var rest := ps[1..];
      UnescapeText(rest);
      if |rest| > 0 && ps[0].Unit? && IsHighSurrogate(ps[0].cp) {
        TextHead(rest);
      }
      UnescapePiece(ps[0], Text(rest));
    }
  }

  // ---------------------------------------------------------------------
  // Finding the content

  /** `String::indexOf(pat, from)`: the first occurrence at or after
      `from`. */
  function IndexOf(s: seq<char>, pat: seq<char>, from: nat): (r: Option<nat>)
    requires |pat| > 0
    ensures r.Some? ==> from <= r.value && r.value + |pat| <= |s| && s[r.value..r.value + |pat|] == pat
    decreases |s| - from
  {
    if from + |pat| > |s| then None
    else if s[from..from + |pat|] == pat then Some(from)
    else IndexOf(s, pat, from + 1)
  }

  predicate OccursAt(s: seq<char>, pat: seq<char>, k: nat)
  {
    k + |pat| <= |s| && s[k..k + |pat|] == pat
  }

  /** `IndexOf` finds the first occurrence, and misses only when there is
      none. */
  lemma {:induction false} IndexOfFirst(s: seq<char>, pat: seq<char>, from: nat)
    requires |pat| > 0
    ensures IndexOf(s, pat, from).Some? ==>
              forall k :: from <= k < IndexOf(s, pat, from).value ==> !OccursAt(s, pat, k)
    ensures IndexOf(s, pat, from).None? ==> forall k :: from <= k ==> !OccursAt(s, pat, k)
    decreases |s| - from
  {
    if from + |pat| <= |s| && s[from..from + |pat|] != pat {
      IndexOfFirst(s, pat, from + 1);
    }
  }

  /** Consecutive backslashes at the end of `t`. */
  function Trailing(t: seq<char>): nat
  {
    if |t| > 0 && t[|t| - 1] == '\\' then 1 + Trailing(t[..|t| - 1]) else 0
  }

  /** The quote at `j` closes the string opened before `a`: an even number
      of backslashes stands right before it. */
  predicate Closes(s: seq<char>, a: nat, j: nat)
  {
    a <= j < |s| && s[j] == '"' && Trailing(s[a..j]) % 2 == 0
  }

  /** The scan of `_extractContent` from `j`: a backslash toggles the
      escape flag, an unescaped quote stops it, anything else clears the
      flag. */
  function ScanEnd(line: seq<char>, j: nat, escape: bool): (q: nat)
    requires j <= |line|
    ensures j <= q <= |line|
    decreases |line| - j
  {
    if j == |line| then j
    else if line[j] == '\\' then ScanEnd(line, j + 1, !escape)
    else if line[j] == '"' && !escape then j
    else ScanEnd(line, j + 1, false)
  }

  /** The escape flag is the parity of the backslashes just scanned, so the
      scan stops at the first closing quote. */
  lemma {:induction false} ScanCloses(line: seq<char>, a: nat, j: nat, escape: bool)
    requires a <= j <= |line|
    requires escape <==> Trailing(line[a..j]) % 2 == 1
    requires forall k :: a <= k < j ==> !Closes(line, a, k)
    ensures ScanEnd(line, j, escape) < |line| ==> Closes(line, a, ScanEnd(line, j, escape))
    ensures forall k :: a <= k < ScanEnd(line, j, escape) ==> !Closes(line, a, k)
    decreases |line| - j
  {
    if j < |line| {
      var t := line[a..j + 1];
      assert t[..|t| - 1] == line[a..j];
      if line[j] == '\\' {
        ScanCloses(line, a, j + 1, !escape);
      } else if line[j] != '"' || escape {
        ScanCloses(line, a, j + 1, false);
      }
    }
  }

  /** Where `_extractContent` finds the content, or which of its two
      errors it reports. */
  datatype Extraction = NoLine | NoQuote | Raw(start: nat, end: nat)

  const TextKey: seq<char> := "\"text\":"

  /** The end of the line that starts at `from`: the next line feed, or
      the end of the response. */
  function LineEnd(r: seq<char>, from: nat): (e: nat)
    ensures from <= |r| ==> from <= e <= |r|
  {
    match IndexOf(r, "\n", from)
    case Some(e) => e
    case None => |r|
  }

  function Locate(r: seq<char>): (x: Extraction)
    ensures x.Raw? ==> x.start <= x.end <= |r|
  {
    match IndexOf(r, TextKey, 0)
    case None => NoLine
    case Some(ls) =>
      var line := r[ls..LineEnd(r, ls)];
      match IndexOf(line, ":", 0)
      case None => NoQuote
      case Some(colon) =>
        match IndexOf(line, "\"", colon)
        case None => NoQuote
        case Some(q) => Raw(ls + q + 1, ls + ScanEnd(line, q + 1, false))
  }

  const NoLineMessage: seq<char> := "No content line found.\n\nJSON RESPONSE ====>\n"
  const NoQuoteMessage: seq<char> := "Content quote not found.\n\nJSON RESPONSE ====>\n"

  /** `_extractContent` as the source has it; `last` is the stored last
      response the error messages append. */
  function ExtractContentAsWritten(r: seq<char>, last: seq<char>): seq<char>
  {
    match Locate(r)
    case NoLine => NoLineMessage + last
    case NoQuote => NoQuoteMessage + last
    case Raw(a, b) => UnescapeAsWritten(r[a..b])
  }

  /** `_extractContent` with the one-pass unescape. */
  function ExtractContent(r: seq<char>, last: seq<char>): seq<char>
  {
    match Locate(r)
    case NoLine => NoLineMessage + last
    case NoQuote => NoQuoteMessage + last
    case Raw(a, b) => Unescape(r[a..b])
  }

  /** The first error: no `"text":` anywhere in the response. */
  lemma NoLineExactly(r: seq<char>, last: seq<char>)
    ensures Locate(r).NoLine? <==> forall k :: !OccursAt(r, TextKey, k)
    ensures Locate(r).NoLine? ==> ExtractContent(r, last) == NoLineMessage + last
  {
    IndexOfFirst(r, TextKey, 0);
    if IndexOf(r, TextKey, 0).Some? {
      assert OccursAt(r, TextKey, IndexOf(r, TextKey, 0).value);
    }
  }

  /** An occurrence with none before it is what `IndexOf` returns. */
  lemma {:induction false} IndexOfIs(s: seq<char>, pat: seq<char>, from: nat, k: nat)
    requires |pat| > 0 && from <= k && OccursAt(s, pat, k)
    requires forall j :: from <= j < k ==> !OccursAt(s, pat, j)
    ensures IndexOf(s, pat, from) == Some(k)
    decreases k - from
  {
    if from < k {
      assert !OccursAt(s, pat, from);
      IndexOfIs(s, pat, from + 1, k);
    }
  }

  /** A one-character pattern occurs exactly where that character is. */
  lemma OccursChar(s: seq<char>, c: char, k: nat)
    ensures OccursAt(s, [c], k) <==> k < |s| && s[k] == c
  {
    if k < |s| {
      assert s[k..k + 1] == [s[k]];
    }
  }

  /** The line of the first `"text":` holds the whole key, since the key
      has no line feed. */
  lemma LineHoldsKey(r: seq<char>, ls: nat)
    requires OccursAt(r, TextKey, ls)
    ensures ls + 7 <= LineEnd(r, ls)
    ensures r[ls..LineEnd(r, ls)][..7] == TextKey
  {
    assert r[ls..ls + 7] == TextKey;
    assert forall i :: ls <= i < ls + 7 ==> r[i] == TextKey[i - ls];
    match IndexOf(r, "\n", ls) {
      case None =>
      case Some(k) =>
        OccursChar(r, '\n', k);
        assert '\n' !in TextKey;
    }
  }

  /** On that line the colon is at index 6, so the quote search starts
      there. */
  lemma ColonAtSix(r: seq<char>, ls: nat)
    requires OccursAt(r, TextKey, ls)
    ensures IndexOf(r[ls..LineEnd(r, ls)], ":", 0) == Some(6)
    ensures r[ls..LineEnd(r, ls)][6] == ':'
  {
    var line := r[ls..LineEnd(r, ls)];
    LineHoldsKey(r, ls);
    assert line[6] == ':' by { assert line[6] == line[..7][6]; }
    OccursChar(line, ':', 6);
    forall j | 0 <= j < 6 ensures !OccursAt(line, ":", j) {
      OccursChar(line, ':', j);
      assert line[j] == line[..7][j];
    }
    IndexOfIs(line, ":", 0, 6);
  }

  /** No line feed before the end of the line. */
  lemma LineHasNoFeed(r: seq<char>, ls: nat)
    requires ls <= |r|
    ensures forall k :: ls <= k < LineEnd(r, ls) ==> r[k] != '\n'
  {
    IndexOfFirst(r, "\n", ls);
    forall k | ls <= k < LineEnd(r, ls) ensures r[k] != '\n' {
      OccursChar(r, '\n', k);
    }
  }

  /** The quote search: no quote at all from the colon on, or the first
      one at `q`. */
  lemma QuoteSearch(line: seq<char>)
    ensures IndexOf(line, "\"", 6).None? <==> forall k :: 6 <= k < |line| ==> line[k] != '"'
    ensures IndexOf(line, "\"", 6).Some? ==>
              var q := IndexOf(line, "\"", 6).value;
              line[q] == '"' && forall k :: 6 <= k < q ==> line[k] != '"'
  {
    IndexOfFirst(line, "\"", 6);
    forall k | 6 <= k < |line| ensures OccursAt(line, "\"", k) <==> line[k] == '"' {
      OccursChar(line, '"', k);
    }
    if IndexOf(line, "\"", 6).Some? {
      OccursChar(line, '"', IndexOf(line, "\"", 6).value);
    }
  }

  /** The line `Locate` cuts out of the response. */
  function LineOf(r: seq<char>): seq<char>
    requires IndexOf(r, TextKey, 0).Some?
  {
    var ls := IndexOf(r, TextKey, 0).value;
    r[ls..LineEnd(r, ls)]
  }

  /** The second error: a line is found but no quote follows its colon. */
  lemma NoQuoteExactly(r: seq<char>, last: seq<char>)
    requires IndexOf(r, TextKey, 0).Some?
    ensures Locate(r).NoQuote? <==> forall k :: 6 <= k < |LineOf(r)| ==> LineOf(r)[k] != '"'
    ensures Locate(r).NoQuote? ==> ExtractContent(r, last) == NoQuoteMessage + last
  {
    ColonAtSix(r, IndexOf(r, TextKey, 0).value);
    QuoteSearch(LineOf(r));
  }

  /** After the opening quote just before `a`, the scan stops at the
      first closing quote or at the end of the line. */
  lemma QuoteThenScan(line: seq<char>, a: nat)
    requires 7 < a <= |line| && line[a - 1] == '"'
    ensures var b := ScanEnd(line, a, false);
      && (b < |line| ==> Closes(line, a, b))
      && (forall k :: a <= k < b ==> !Closes(line, a, k))
  {
    assert line[a..a] == [];
    ScanCloses(line, a, a, false);
  }

  /** The raw case of `Locate`: the quote at `q` of the line opens the
      content. */
  lemma LocateRaw(r: seq<char>) returns (q: nat)
    requires Locate(r).Raw?
    ensures IndexOf(r, TextKey, 0).Some?
    ensures IndexOf(LineOf(r), "\"", 6) == Some(q)
    ensures LineOf(r)[6] == ':'
    ensures Locate(r).start == IndexOf(r, TextKey, 0).value + q + 1
    ensures Locate(r).end == IndexOf(r, TextKey, 0).value + ScanEnd(LineOf(r), q + 1, false)
  {
    ColonAtSix(r, IndexOf(r, TextKey, 0).value);
    q := IndexOf(LineOf(r), "\"", 6).value;
  }

  /** Where the content lies, counted from the start `ls` of the line of
      the first `"text":`: it opens right after the first quote following
      the colon and ends at the first closing quote (one after an even run
      of backslashes) or at the end of the line, so never past a line
      feed. */
  lemma ContentSpan(r: seq<char>)
    requires Locate(r).Raw?
    ensures IndexOf(r, TextKey, 0).Some?
    ensures var ls := IndexOf(r, TextKey, 0).value;
      var line := LineOf(r);
      var a := Locate(r).start - ls;
      var b := Locate(r).end - ls;
      && 7 < a <= b <= |line|
      && line[a - 1] == '"'
      && (forall k :: 6 <= k < a - 1 ==> line[k] != '"')
      && (b < |line| ==> Closes(line, a, b))
      && (forall k :: a <= k < b ==> !Closes(line, a, k))
  {
    hide *;
    var q := LocateRaw(r);
    QuoteSearch(LineOf(r));
    QuoteThenScan(LineOf(r), q + 1);
  }

  /** The content never reaches past the line: it is free of line
      feeds. */
  lemma ContentOnOneLine(r: seq<char>)
    requires Locate(r).Raw?
    ensures forall k :: Locate(r).start <= k < Locate(r).end ==> r[k] != '\n'
  {
    var ls := IndexOf(r, TextKey, 0).value;
    LineHasNoFeed(r, ls);
  }

  // ---------------------------------------------------------------------
  // Reading the content back

  /** Pieces of a JSON string as the service sends it: no raw quote and no
      raw line feed. */
  predicate InString(ps: seq<Piece>)
  {
    forall i :: 0 <= i < |ps| ==> ps[i].Plain? ==> ps[i].c != '"' && ps[i].c != '\n'
  }

  /** A response whose first `"text":` is followed by a space and the
      string written from `ps`. */
  function Response(pre: seq<char>, ps: seq<Piece>, post: seq<char>): seq<char>
    requires PiecesOk(ps)
  {
    pre + LineStart(Text(ps)) + post
  }

  /** No `"text":` starts before `n`. */
  predicate NoKeyBefore(r: seq<char>, n: nat)
  {
    forall k: nat :: k < n ==> !OccursAt(r, TextKey, k)
  }

  lemma OccursSplit(s: seq<char>, a: seq<char>, b: seq<char>, k: nat)
    requires OccursAt(s, a + b, k)
    ensures OccursAt(s, a, k) && OccursAt(s, b, k + |a|)
  {
    assert s[k..k + |a|] == (a + b)[..|a|];
    assert s[k + |a|..k + |a| + |b|] == (a + b)[|a|..];
  }

  /** A run of characters that neither toggle nor stop the scan ends with
      the flag cleared. */
  lemma {:induction false} ScanRun(line: seq<char>, j: nat, k: nat, escape: bool)
    requires j < k <= |line|
    requires forall i :: j <= i < k ==> line[i] != '\\' && line[i] != '"'
    ensures ScanEnd(line, j, escape) == ScanEnd(line, k, false)
    decreases k - j
  {
    if j + 1 < k {
      ScanRun(line, j + 1, k, false);
    }
  }

  /** After `\u` the scan passes over the four hex digits. */
  lemma ScanUnit(line: seq<char>, j: nat, cp: nat)
    requires cp < 0x10000 && OccursAt(line, "\\u" + Hex4(cp), j)
    ensures ScanEnd(line, j, false) == ScanEnd(line, j + 6, false)
  {
    var t := "\\u" + Hex4(cp);
    assert forall i :: 0 <= i < 6 ==> line[j + i] == t[i];
    assert forall i :: 2 <= i < 6 ==> IsHexDigit(t[i]) by {
      assert forall i :: 2 <= i < 6 ==> t[i] == Hex4(cp)[i - 2];
    }
    ScanRun(line, j + 1, j + 6, true);
  }

  /** A two-character escape: the backslash sets the flag and the letter
      after it, a quote or a backslash included, clears it again. */
  lemma ScanEsc(line: seq<char>, j: nat)
    requires j + 2 <= |line| && line[j] == '\\'
    ensures ScanEnd(line, j, false) == ScanEnd(line, j + 2, false)
  {
  }

  /** The scan passes over every piece of a string with its flag cleared
      at the end. */
  lemma ScanPiece(line: seq<char>, j: nat, p: Piece)
    requires PieceOk(p) && (p.Plain? ==> p.c != '"')
    requires OccursAt(line, PieceText(p), j)
    ensures ScanEnd(line, j, false) == ScanEnd(line, j + |PieceText(p)|, false)
  {
    var t := PieceText(p);
    assert line[j] == line[j..j + |t|][0] == t[0];
    match p {
      case Plain(c) =>
        hide *;
        ScanRun(line, j, j + 1, false);
      case Esc(c) =>
        hide *;
        ScanEsc(line, j);
      case Unit(cp) =>
        hide *;
        ScanUnit(line, j, cp);
      case Pair(hi, lo) =>
        assert t == ("\\u" + Hex4(hi)) + ("\\u" + Hex4(lo));
        hide *;
        OccursSplit(line, "\\u" + Hex4(hi), "\\u" + Hex4(lo), j);
        ScanUnit(line, j, hi);
        ScanUnit(line, j + 6, lo);
    }
  }

  lemma InStringTail(ps: seq<Piece>)
    requires |ps| > 0 && InString(ps)
    ensures InString(ps[1..])
    ensures ps[0].Plain? ==> ps[0].c != '"' && ps[0].c != '\n'
  {
    assert forall i :: 0 <= i < |ps| - 1 ==> ps[1..][i] == ps[i + 1];
  }

  lemma {:induction false} ScanText(line: seq<char>, j: nat, ps: seq<Piece>)
    requires PiecesOk(ps) && InString(ps)
    requires OccursAt(line, Text(ps) + "\"", j)
    ensures ScanEnd(line, j, false) == j + |Text(ps)|
    decreases |ps|
  {
    hide *;
    if |ps| == 0 {
      TextEmpty(ps);
      OccursHead(line, Text(ps) + "\"", j);
      ScanQuote(line, j);
    } else {
      TextCons(ps);
      InStringTail(ps);
      var t0 := PieceText(ps[0]);
      var rest := Text(ps[1..]);
      assert Text(ps) + "\"" == t0 + (rest + "\"");
      OccursSplit(line, t0, rest + "\"", j);
      ScanPiece(line, j, ps[0]);
      ScanText(line, j + |t0|, ps[1..]);
    }
  }

  lemma TextEmpty(ps: seq<Piece>)
    requires |ps| == 0
    ensures PiecesOk(ps) && Text(ps) == []
  {
  }

  lemma TextCons(ps: seq<Piece>)
    requires |ps| > 0 && PiecesOk(ps)
    ensures PieceOk(ps[0]) && PiecesOk(ps[1..])
    ensures Text(ps) == PieceText(ps[0]) + Text(ps[1..])
  {
  }

  lemma OccursHead(s: seq<char>, pat: seq<char>, k: nat)
    requires OccursAt(s, pat, k) && |pat| > 0
    ensures k < |s| && s[k] == pat[0]
  {
    assert s[k] == s[k..k + |pat|][0];
  }

  lemma ScanQuote(line: seq<char>, j: nat)
    requires j < |line| && line[j] == '"'
    ensures ScanEnd(line, j, false) == j
  {
  }

  /** A string as the service sends it has no raw line feed. */
  lemma {:induction false} NoFeedInText(ps: seq<Piece>)
    requires PiecesOk(ps) && InString(ps)
    ensures '\n' !in Text(ps)
    decreases |ps|
  {
    if |ps| > 0 {
      InStringTail(ps);
      NoFeedInText(ps[1..]);
      match ps[0] {
        case Plain(c) =>
        case Esc(c) =>
        case Unit(cp) =>
          assert forall i :: 0 <= i < 4 ==> IsHexDigit(Hex4(cp)[i]);
        case Pair(hi, lo) =>
          assert forall i :: 0 <= i < 4 ==> IsHexDigit(Hex4(hi)[i]) && IsHexDigit(Hex4(lo)[i]);
      }
    }
  }

  /** The key, the space and the quoted string, as they open the line. */
  function LineStart(t: seq<char>): seq<char>
  {
    TextKey + " \"" + t + "\""
  }

  lemma ResponseSplit(pre: seq<char>, ps: seq<Piece>, post: seq<char>)
    requires PiecesOk(ps)
    ensures |LineStart(Text(ps))| == 10 + |Text(ps)|
    ensures OccursAt(Response(pre, ps, post), LineStart(Text(ps)), |pre|)
  {
    var r := Response(pre, ps, post);
    var body := LineStart(Text(ps));
    assert r[|pre|..|pre| + |body|] == body;
  }

  /** The first `"text":` of the response is the one before the string. */
  lemma ResponseKey(pre: seq<char>, ps: seq<Piece>, post: seq<char>)
    requires PiecesOk(ps)
    requires NoKeyBefore(Response(pre, ps, post), |pre|)
    ensures IndexOf(Response(pre, ps, post), TextKey, 0) == Some(|pre|)
  {
    var r := Response(pre, ps, post);
    var body := LineStart(Text(ps));
    ResponseSplit(pre, ps, post);
    assert body == TextKey + (" \"" + Text(ps) + "\"");
    OccursSplit(r, TextKey, " \"" + Text(ps) + "\"", |pre|);
    IndexOfIs(r, TextKey, 0, |pre|);
  }

  /** No line feed in the text that opens the line. */
  lemma StartHasNoFeed(ps: seq<Piece>)
    requires PiecesOk(ps) && InString(ps)
    ensures '\n' !in LineStart(Text(ps))
  {
    NoFeedInText(ps);
  }

  /** The line reaches at least to the closing quote. */
  lemma LineLong(r: seq<char>, n: nat, body: seq<char>)
    requires OccursAt(r, body, n) && '\n' !in body
    ensures n + |body| <= LineEnd(r, n)
    ensures r[n..LineEnd(r, n)][..|body|] == body
  {
    match IndexOf(r, "\n", n) {
      case None =>
      case Some(v) =>
        OccursChar(r, '\n', v);
    }
  }

  /** The line of the response: the key, a space and the quoted string
      come first. */
  lemma ResponseLine(pre: seq<char>, ps: seq<Piece>, post: seq<char>)
    requires PiecesOk(ps) && InString(ps)
    requires NoKeyBefore(Response(pre, ps, post), |pre|)
    ensures IndexOf(Response(pre, ps, post), TextKey, 0) == Some(|pre|)
    ensures |LineOf(Response(pre, ps, post))| >= 10 + |Text(ps)|
    ensures LineOf(Response(pre, ps, post))[..10 + |Text(ps)|] == LineStart(Text(ps))
  {
    hide *;
    ResponseKey(pre, ps, post);
    ResponseSplit(pre, ps, post);
    StartHasNoFeed(ps);
    LineLong(Response(pre, ps, post), |pre|, LineStart(Text(ps)));
    LineOfAt(Response(pre, ps, post), |pre|);
  }

  lemma LineOfAt(r: seq<char>, ls: nat)
    requires IndexOf(r, TextKey, 0) == Some(ls)
    ensures LineOf(r) == r[ls..LineEnd(r, ls)]
  {
  }

  /** The first nine characters of such a line. */
  lemma LineHead(line: seq<char>, t: seq<char>)
    requires |line| >= 10 + |t| && line[..10 + |t|] == LineStart(t)
    ensures line[0] == '"' && line[1] == 't' && line[2] == 'e' && line[3] == 'x' && line[4] == 't'
    ensures line[5] == '"' && line[6] == ':' && line[7] == ' ' && line[8] == '"'
    ensures line[9..10 + |t|] == t + "\""
  {
    var body := LineStart(t);
    assert body == "\"text\": \"" + (t + "\"");
    assert forall i :: 0 <= i < 9 ==> line[i] == body[i];
    assert line[9..10 + |t|] == body[9..];
  }

  lemma NoColonBefore(line: seq<char>)
    requires |line| >= 9
    requires line[0] == '"' && line[1] == 't' && line[2] == 'e' && line[3] == 'x' && line[4] == 't'
    requires line[5] == '"' && line[6] == ':'
    ensures IndexOf(line, ":", 0) == Some(6)
  {
    forall j | 0 <= j < 6 ensures !OccursAt(line, ":", j) {
      OccursChar(line, ':', j);
    }
    OccursChar(line, ':', 6);
    IndexOfIs(line, ":", 0, 6);
  }

  lemma QuoteAtEight(line: seq<char>)
    requires |line| >= 9 && line[6] == ':' && line[7] == ' ' && line[8] == '"'
    ensures IndexOf(line, "\"", 6) == Some(8)
  {
    OccursChar(line, '"', 8);
    OccursChar(line, '"', 7);
    OccursChar(line, '"', 6);
    IndexOfIs(line, "\"", 6, 8);
  }

  /** On such a line the colon is at 6 and the opening quote at 8, and the
      string and its closing quote start at 9. */
  lemma LineQuote(line: seq<char>, t: seq<char>)
    requires |line| >= 10 + |t| && line[..10 + |t|] == LineStart(t)
    ensures IndexOf(line, ":", 0) == Some(6)
    ensures IndexOf(line, "\"", 6) == Some(8)
    ensures OccursAt(line, t + "\"", 9)
  {
    LineHead(line, t);
    hide *;
    NoColonBefore(line);
    QuoteAtEight(line);
  }

  /** Where the content of such a response lies. */
  lemma ResponseLocated(pre: seq<char>, ps: seq<Piece>, post: seq<char>)
    requires PiecesOk(ps) && InString(ps)
    requires NoKeyBefore(Response(pre, ps, post), |pre|)
    ensures Locate(Response(pre, ps, post)) == Raw(|pre| + 9, |pre| + 9 + |Text(ps)|)
  {
    var r := Response(pre, ps, post);
    ResponseLine(pre, ps, post);
    hide *;
    var line := LineOf(r);
    LineQuote(line, Text(ps));
    ScanText(line, 9, ps);
    LocateAt(r, |pre|, 8, 9 + |Text(ps)|);
  }

  /** `Locate` with the line at `ls`, the quote at `q` and the scan's
      end at `e`, counted on the line. */
  lemma LocateAt(r: seq<char>, ls: nat, q: nat, e: nat)
    requires IndexOf(r, TextKey, 0) == Some(ls)
    requires IndexOf(LineOf(r), ":", 0) == Some(6)
    requires IndexOf(LineOf(r), "\"", 6) == Some(q)
    requires q + 1 <= |LineOf(r)| && ScanEnd(LineOf(r), q + 1, false) == e
    ensures Locate(r) == Raw(ls + q + 1, ls + e)
  {
  }

  /** The string sits right after the key, the space and the opening
      quote. */
  lemma ResponseContent(pre: seq<char>, ps: seq<Piece>, post: seq<char>)
    requires PiecesOk(ps)
    ensures |pre| + 9 + |Text(ps)| <= |Response(pre, ps, post)|
    ensures Response(pre, ps, post)[|pre| + 9..|pre| + 9 + |Text(ps)|] == Text(ps)
  {
    var t := Text(ps);
    var r := Response(pre, ps, post);
    ResponseSplit(pre, ps, post);
    assert LineStart(t) == (TextKey + " \"") + (t + "\"");
    OccursSplit(r, TextKey + " \"", t + "\"", |pre|);
    OccursSplit(r, t, "\"", |pre| + 9);
  }

  lemma ExtractRaw(r: seq<char>, last: seq<char>, a: nat, b: nat)
    requires Locate(r) == Raw(a, b)
    ensures a <= b <= |r| && ExtractContent(r, last) == Unescape(r[a..b])
  {
  }

  /** The content of a response is read back: the first `"text":` line
      gives exactly the string the service wrote. */
  lemma ExtractRoundTrip(pre: seq<char>, ps: seq<Piece>, post: seq<char>, last: seq<char>)
    requires PiecesOk(ps) && InString(ps)
    requires NoKeyBefore(Response(pre, ps, post), |pre|)
    ensures ExtractContent(Response(pre, ps, post), last) == Bytes(ps)
  {
    hide *;
    ResponseLocated(pre, ps, post);
    ResponseContent(pre, ps, post);
    ExtractRaw(Response(pre, ps, post), last, |pre| + 9, |pre| + 9 + |Text(ps)|);
    UnescapeText(ps);
  }
}
