/** The settings image of the command line interface: byte 0 holds a magic
    value, then the five C strings (network name, password, model, token,
    system instruction) follow from address 1, each ended by a NUL, then
    the raw bytes of the token limit, the three sampling parameters and the
    three switches. Memory is a sequence of byte-valued characters; the
    platform's `EEPROM` object is modelled by its documented behaviour:
    `write` outside the area and `put`/`get` that would cross its end do
    nothing. */
module Eeprom {
  import opened Chars

  const EepromSize: nat := 1024
  const Magic: char := 0x42 as char

  /** A 32-bit pattern: the bytes of a `float`, whose value is not
      modelled. */
  type Bits32 = n: nat | n < 0x1_0000_0000

  type Int32 = i: int | -0x8000_0000 <= i < 0x8000_0000

  datatype Settings = Settings(
    ssid: CStr,
    password: CStr,
    model: CStr,
    token: CStr,
    systemInstruction: CStr,
    maxTokens: Int32,
    temperature: Bits32,
    topP: Bits32,
    topK: Bits32,
    codeExecution: bool,
    googleSearch: bool,
    ledmode: bool)

  /** The settings' C strings hold bytes. */
  predicate ByteStrings(st: Settings)
  {
    AllBytes(st.ssid) && AllBytes(st.password) && AllBytes(st.model)
    && AllBytes(st.token) && AllBytes(st.systemInstruction)
  }

  /** The EEPROM area: `EepromSize` bytes. */
  predicate Image(m: seq<char>) { |m| == EepromSize && AllBytes(m) }

  // ---------------------------------------------------------------------
  // Fixed-size fields

  /** The four bytes of a 32-bit pattern, least significant first. */
  function Le4(u: Bits32): (r: seq<char>)
    ensures |r| == 4 && AllBytes(r)
  {
    var q1 := u / 0x100;
    var q2 := q1 / 0x100;
    var q3 := q2 / 0x100;
    [(u % 0x100) as char, (q1 % 0x100) as char, (q2 % 0x100) as char, (q3 % 0x100) as char]
  }

  function Le4Value(b: seq<char>): Bits32
    requires |b| == 4 && AllBytes(b)
  {
    b[0] as nat + 0x100 * (b[1] as nat + 0x100 * (b[2] as nat + 0x100 * b[3] as nat))
  }

  lemma Le4RoundTrip(u: Bits32)
    ensures Le4Value(Le4(u)) == u
  {
    var q1 := u / 0x100;
    var q2 := q1 / 0x100;
    var q3 := q2 / 0x100;
    assert q3 < 0x100;
    assert q2 == q2 % 0x100 + 0x100 * q3;
    assert q1 == q1 % 0x100 + 0x100 * q2;
    assert u == u % 0x100 + 0x100 * q1;
  }

  /** Two's complement: the pattern an `int` is stored as. */
  function Int32Bits(i: Int32): Bits32
  {
    if i < 0 then i + 0x1_0000_0000 else i
  }

  function Int32Of(u: Bits32): (i: Int32)
    ensures Int32Bits(i) == u
  {
    if u >= 0x8000_0000 then u - 0x1_0000_0000 else u
  }

  /** A `bool` is one byte, 1 for true. */
  function BoolByte(b: bool): (r: seq<char>)
    ensures |r| == 1
  {
    if b then [1 as char] else [0 as char]
  }

  function BoolOf(c: char): bool { c != 0 as char }

  // ---------------------------------------------------------------------
  // Writing

  function Write(m: seq<char>, a: nat, c: char): (r: seq<char>)
    ensures |r| == |m|
  {
    if a < |m| then m[a := c] else m
  }

  /** `writeStr`: the characters of `s` while the address is below the last
      byte, then a NUL (dropped when the address is already past the
      end). */
  function WriteStr(m: seq<char>, addr: nat, s: CStr): (r: (seq<char>, nat))
    ensures |r.0| == |m| && r.1 > addr
    decreases |s|
  {
    if |s| == 0 || addr >= EepromSize - 1 then (Write(m, addr, NUL), addr + 1)
    else WriteStr(Write(m, addr, s[0]), addr + 1, s[1..])
  }

  function WriteStrs(m: seq<char>, addr: nat, ss: seq<CStr>): (r: (seq<char>, nat))
    ensures |r.0| == |m| && r.1 >= addr
    decreases |ss|
  {
    if |ss| == 0 then (m, addr)
    else
      var w := WriteStr(m, addr, ss[0]);
      WriteStrs(w.0, w.1, ss[1..])
  }

  /** `EEPROM.put`: the bytes of a value, unless they would cross the
      end. */
  function Put(m: seq<char>, addr: nat, b: seq<char>): (r: seq<char>)
    ensures |r| == |m|
  {
    if addr + |b| <= |m| then m[..addr] + b + m[addr + |b|..] else m
  }

  /** The fixed-size fields one after the other; the address advances by
      each field's size whether or not it was written. */
  function Puts(m: seq<char>, addr: nat, chunks: seq<seq<char>>): (r: seq<char>)
    ensures |r| == |m|
    decreases |chunks|
  {
    if |chunks| == 0 then m
    else Puts(Put(m, addr, chunks[0]), addr + |chunks[0]|, chunks[1..])
  }

  function Strings(st: Settings): seq<CStr>
  {
    [st.ssid, st.password, st.model, st.token, st.systemInstruction]
  }

  function Tail(st: Settings): seq<seq<char>>
  {
    [Le4(Int32Bits(st.maxTokens)), Le4(st.temperature), Le4(st.topP), Le4(st.topK),
     BoolByte(st.codeExecution), BoolByte(st.googleSearch), BoolByte(st.ledmode)]
  }

  /** The sizes of the fixed-size fields. */
  const TailSizes: seq<nat> := [4, 4, 4, 4, 1, 1, 1]

  /** `saveToEEPROM`. */
  function Save(m: seq<char>, st: Settings): (r: seq<char>)
    ensures |r| == |m|
  {
    var w := WriteStrs(Write(m, 0, Magic), 1, Strings(st));
    Puts(w.0, w.1, Tail(st))
  }

  // ---------------------------------------------------------------------
  // Reading

  /** `readStr`: characters up to a NUL, which is consumed, or up to the
      end of the area. */
  function ReadStr(m: seq<char>, addr: nat): (r: (CStr, nat))
    ensures r.1 >= addr
    decreases |m| - addr
  {
    if addr >= |m| then ([], addr)
    else if m[addr] == NUL then ([], addr + 1)
    else
      var t := ReadStr(m, addr + 1);
      ([m[addr]] + t.0, t.1)
  }

  function ReadStrs(m: seq<char>, addr: nat, n: nat): (r: (seq<CStr>, nat))
    ensures |r.0| == n
    decreases n
  {
    if n == 0 then ([], addr)
    else
      var t := ReadStr(m, addr);
      var u := ReadStrs(m, t.1, n - 1);
      ([t.0] + u.0, u.1)
  }

  /** `EEPROM.get` of fields of the given sizes; `None` where the field
      would cross the end, which leaves the variable as it was. */
  function Gets(m: seq<char>, addr: nat, sizes: seq<nat>): (r: seq<Option<seq<char>>>)
    ensures |r| == |sizes|
    decreases |sizes|
  {
    if |sizes| == 0 then []
    else
      var g := if addr + sizes[0] <= |m| then Some(m[addr..addr + sizes[0]]) else None;
      [g] + Gets(m, addr + sizes[0], sizes[1..])
  }

  function Get4(g: Option<seq<char>>, old4: Bits32): Bits32
  {
    if g.Some? && |g.value| == 4 && AllBytes(g.value) then Le4Value(g.value) else old4
  }

  function Get1(g: Option<seq<char>>, old1: bool): bool
  {
    if g.Some? && |g.value| == 1 then BoolOf(g.value[0]) else old1
  }

  /** The fixed-size fields as `loadFromEEPROM` reads them after the
      strings. */
  function LoadTail(m: seq<char>, addr: nat, st: Settings): Settings
  {
    var g := Gets(m, addr, TailSizes);
    st.(maxTokens := Int32Of(Get4(g[0], Int32Bits(st.maxTokens))),
        temperature := Get4(g[1], st.temperature),
        topP := Get4(g[2], st.topP),
        topK := Get4(g[3], st.topK),
        codeExecution := Get1(g[4], st.codeExecution),
        googleSearch := Get1(g[5], st.googleSearch),
        ledmode := Get1(g[6], st.ledmode))
  }

  /** `loadFromEEPROM` with each string stored into its own field: nothing
      happens without the magic byte. */
  function Load(m: seq<char>, st: Settings): Settings
    requires |m| == EepromSize
  {
    if m[0] != Magic then st
    else
      var r := ReadStrs(m, 1, 5);
      var ss := r.0;
      LoadTail(m, r.1, st.(ssid := ss[0], password := ss[1], model := ss[2], token := ss[3],
                           systemInstruction := ss[4]))
  }

  // ---------------------------------------------------------------------
  // Round trip

  /** The strings with their NULs, as they lie in the area. */
  function Join(ss: seq<CStr>): (r: seq<char>)
    ensures |r| >= |ss|
  {
    if |ss| == 0 then [] else ss[0] + [NUL] + Join(ss[1..])
  }

  function Concat(chunks: seq<seq<char>>): seq<char>
  {
    if |chunks| == 0 then [] else chunks[0] + Concat(chunks[1..])
  }

  /** The whole image fits: strings, NULs and fixed-size fields after the
      magic byte. */
  predicate Fits(st: Settings)
  {
    1 + |Join(Strings(st))| + 19 <= EepromSize
  }

  /** `x` written over `m` from address `a`. */
  function Splice(m: seq<char>, a: nat, x: seq<char>): (r: seq<char>)
    requires a + |x| <= |m|
    ensures |r| == |m|
  {
    m[..a] + x + m[a + |x|..]
  }

  /** `t` lies at address `a` of `m`. */
  predicate At(m: seq<char>, a: nat, t: seq<char>)
  {
    a + |t| <= |m| && m[a..a + |t|] == t
  }

  lemma SpliceSplice(m: seq<char>, a: nat, x: seq<char>, y: seq<char>)
    requires a + |x| + |y| <= |m|
    ensures Splice(Splice(m, a, x), a + |x|, y) == Splice(m, a, x + y)
  {
    var m1 := Splice(m, a, x);
    assert m1[..a + |x|] == m[..a] + x;
    assert m1[a + |x| + |y|..] == m[a + |x| + |y|..];
  }

  lemma SpliceAt(m: seq<char>, a: nat, x: seq<char>)
    requires a + |x| <= |m|
    ensures At(Splice(m, a, x), a, x)
  {
    assert Splice(m, a, x)[a..a + |x|] == x;
  }

  lemma AtSplit(m: seq<char>, a: nat, x: seq<char>, y: seq<char>)
    requires At(m, a, x + y)
    ensures At(m, a, x) && At(m, a + |x|, y)
  {
    assert m[a..a + |x|] == (x + y)[..|x|];
    assert m[a + |x|..a + |x| + |y|] == (x + y)[|x|..];
  }

  lemma {:induction false} WriteStrFits(m: seq<char>, a: nat, s: CStr)
    requires |m| == EepromSize && a + |s| < EepromSize
    ensures WriteStr(m, a, s).0 == Splice(m, a, s + [NUL])
    ensures WriteStr(m, a, s).1 == a + |s| + 1
    decreases |s|
  {
    if |s| == 0 {
      assert s + [NUL] == [NUL];
      assert m[a := NUL] == m[..a] + [NUL] + m[a + 1..];
    } else {
      var m1 := Write(m, a, s[0]);
      assert m1 == Splice(m, a, [s[0]]);
      WriteStrFits(m1, a + 1, s[1..]);
      SpliceSplice(m, a, [s[0]], s[1..] + [NUL]);
      assert [s[0]] + (s[1..] + [NUL]) == s + [NUL];
    }
  }

  lemma {:induction false} WriteStrsFits(m: seq<char>, a: nat, ss: seq<CStr>)
    requires |m| == EepromSize && a + |Join(ss)| <= EepromSize
    ensures WriteStrs(m, a, ss).0 == Splice(m, a, Join(ss))
    ensures WriteStrs(m, a, ss).1 == a + |Join(ss)|
    decreases |ss|
  {
    if |ss| == 0 {
      assert Splice(m, a, []) == m;
    } else {
      var x := ss[0] + [NUL];
      WriteStrFits(m, a, ss[0]);
      WriteStrsFits(Splice(m, a, x), a + |x|, ss[1..]);
      SpliceSplice(m, a, x, Join(ss[1..]));
    }
  }

  lemma {:induction false} PutsFit(m: seq<char>, a: nat, chunks: seq<seq<char>>)
    requires a + |Concat(chunks)| <= |m|
    ensures Puts(m, a, chunks) == Splice(m, a, Concat(chunks))
    decreases |chunks|
  {
    if |chunks| == 0 {
      assert Splice(m, a, []) == m;
    } else {
      var c := chunks[0];
      PutsFit(Splice(m, a, c), a + |c|, chunks[1..]);
      SpliceSplice(m, a, c, Concat(chunks[1..]));
    }
  }

  lemma {:induction false} ReadStrAt(m: seq<char>, a: nat, s: CStr)
    requires At(m, a, s + [NUL])
    ensures ReadStr(m, a) == (s, a + |s| + 1)
    decreases |s|
  {
    assert m[a] == (s + [NUL])[0];
    if |s| > 0 {
      assert s + [NUL] == [s[0]] + (s[1..] + [NUL]);
      AtSplit(m, a, [s[0]], s[1..] + [NUL]);
      ReadStrAt(m, a + 1, s[1..]);
      assert [s[0]] + s[1..] == s;
    }
  }

  lemma {:induction false} ReadStrsAt(m: seq<char>, a: nat, ss: seq<CStr>)
    requires At(m, a, Join(ss))
    ensures ReadStrs(m, a, |ss|) == (ss, a + |Join(ss)|)
    decreases |ss|
  {
    if |ss| > 0 {
      var s := ss[0];
      AtSplit(m, a, s + [NUL], Join(ss[1..]));
      ReadStrAt(m, a, s);
      ReadStrsAt(m, a + |s| + 1, ss[1..]);
      assert [s] + ss[1..] == ss;
    }
  }

  function Sizes(chunks: seq<seq<char>>): (r: seq<nat>)
    ensures |r| == |chunks|
    ensures forall i :: 0 <= i < |chunks| ==> r[i] == |chunks[i]|
  {
    if |chunks| == 0 then [] else [|chunks[0]|] + Sizes(chunks[1..])
  }

  function Somes(chunks: seq<seq<char>>): (r: seq<Option<seq<char>>>)
    ensures |r| == |chunks|
    ensures forall i :: 0 <= i < |chunks| ==> r[i] == Some(chunks[i])
  {
    if |chunks| == 0 then [] else [Some(chunks[0])] + Somes(chunks[1..])
  }

  lemma {:induction false} GetsAt(m: seq<char>, a: nat, chunks: seq<seq<char>>)
    requires At(m, a, Concat(chunks))
    ensures Gets(m, a, Sizes(chunks)) == Somes(chunks)
    decreases |chunks|
  {
    if |chunks| > 0 {
      var c := chunks[0];
      AtSplit(m, a, c, Concat(chunks[1..]));
      GetsAt(m, a + |c|, chunks[1..]);
      assert Sizes(chunks)[1..] == Sizes(chunks[1..]);
    }
  }

  /** The fixed-size fields take 19 bytes. */
  lemma TailBytes(st: Settings)
    ensures |Concat(Tail(st))| == 19
  {
    var t := Tail(st);
    assert Concat(t[6..]) == t[6] + Concat(t[7..]);
    assert Concat(t[5..]) == t[5] + Concat(t[6..]);
    assert Concat(t[4..]) == t[4] + Concat(t[5..]);
    assert Concat(t[3..]) == t[3] + Concat(t[4..]);
    assert Concat(t[2..]) == t[2] + Concat(t[3..]);
    assert Concat(t[1..]) == t[1] + Concat(t[2..]);
  }

  /** The bytes of the fixed-size fields. */
  function TailImage(st: Settings): (r: seq<char>)
    ensures |r| == 19
  {
    TailBytes(st);
    Concat(Tail(st))
  }

  /** The saved area: the magic byte, the strings and the fixed-size
      fields from address 0, and whatever was there before after them. */
  lemma SaveLayout(m: seq<char>, st: Settings)
    requires |m| == EepromSize && Fits(st)
    ensures Save(m, st) == Splice(m, 0, [Magic] + Join(Strings(st)) + TailImage(st))
  {
    var j := Join(Strings(st));
    var m0 := Write(m, 0, Magic);
    assert m0 == Splice(m, 0, [Magic]);
    WriteStrsFits(m0, 1, Strings(st));
    TailBytes(st);
    PutsFit(Splice(m0, 1, j), 1 + |j|, Tail(st));
    SpliceSplice(m, 0, [Magic], j);
    SpliceSplice(m, 0, [Magic] + j, TailImage(st));
  }

  lemma Int32RoundTrip(i: Int32)
    ensures Int32Of(Int32Bits(i)) == i
  {
  }

  /** What the seven `get`s read where the fields were put. */
  lemma TailValues(m: seq<char>, a: nat, st: Settings)
    requires At(m, a, TailImage(st))
    ensures var g := Gets(m, a, TailSizes);
      && g[0] == Some(Le4(Int32Bits(st.maxTokens))) && g[1] == Some(Le4(st.temperature))
      && g[2] == Some(Le4(st.topP)) && g[3] == Some(Le4(st.topK))
      && g[4] == Some(BoolByte(st.codeExecution)) && g[5] == Some(BoolByte(st.googleSearch))
      && g[6] == Some(BoolByte(st.ledmode))
  {
    hide *;
    TailImageIs(st);
    GetsAt(m, a, Tail(st));
    SizesOfTail(st);
    SomesOfTail(st);
  }

  lemma TailImageIs(st: Settings)
    ensures TailImage(st) == Concat(Tail(st))
  {
  }

  lemma SizesOfTail(st: Settings)
    ensures Sizes(Tail(st)) == TailSizes
  {
    var z := Sizes(Tail(st));
    assert z[0] == 4 && z[1] == 4 && z[2] == 4 && z[3] == 4;
    assert z[4] == 1 && z[5] == 1 && z[6] == 1;
  }

  lemma SomesOfTail(st: Settings)
    ensures var g := Somes(Tail(st));
      && g[0] == Some(Le4(Int32Bits(st.maxTokens))) && g[1] == Some(Le4(st.temperature))
      && g[2] == Some(Le4(st.topP)) && g[3] == Some(Le4(st.topK))
      && g[4] == Some(BoolByte(st.codeExecution)) && g[5] == Some(BoolByte(st.googleSearch))
      && g[6] == Some(BoolByte(st.ledmode))
  {
  }

  lemma TailRoundTrip(m: seq<char>, a: nat, st: Settings, st0: Settings)
    requires At(m, a, TailImage(st))
    requires Strings(st0) == Strings(st)
    ensures LoadTail(m, a, st0) == st
  {
    TailValues(m, a, st);
    Le4RoundTrip(Int32Bits(st.maxTokens));
    Int32RoundTrip(st.maxTokens);
    Le4RoundTrip(st.temperature);
    Le4RoundTrip(st.topP);
    Le4RoundTrip(st.topK);
    assert Strings(st0)[0] == st.ssid && Strings(st0)[1] == st.password && Strings(st0)[2] == st.model;
    assert Strings(st0)[3] == st.token && Strings(st0)[4] == st.systemInstruction;
  }

  /** A load of an area with the magic byte: the five strings, then the
      fixed-size fields after them. */
  lemma LoadReads(m: seq<char>, st: Settings, ss: seq<CStr>, a: nat)
    requires |m| == EepromSize && m[0] == Magic && ReadStrs(m, 1, 5) == (ss, a)
    ensures |ss| == 5
    ensures Load(m, st) == LoadTail(m, a, st.(ssid := ss[0], password := ss[1], model := ss[2],
                                              token := ss[3], systemInstruction := ss[4]))
  {
  }

  /** Saving then loading gives back every setting, whatever the area held
      before and whatever the settings were, as long as the image fits. */
  lemma SaveLoadRoundTrip(m: seq<char>, st: Settings, st0: Settings)
    requires |m| == EepromSize && Fits(st)
    ensures Load(Save(m, st), st0) == st
  {
    hide Load, Save, LoadTail, Splice, Join, TailImage, ReadStrs;
    var j := Join(Strings(st));
    var c := TailImage(st);
    SaveLayout(m, st);
    var sv := Save(m, st);
    SpliceAt(m, 0, [Magic] + j + c);
    AtSplit(sv, 0, [Magic] + j, c);
    AtSplit(sv, 0, [Magic], j);
    assert sv[0] == Magic;
    ReadStrsAt(sv, 1, Strings(st));
    var ss := Strings(st);
    LoadReads(sv, st0, ss, 1 + |j|);
    TailRoundTrip(sv, 1 + |j|, st, st0.(ssid := ss[0], password := ss[1], model := ss[2], token := ss[3],
                                        systemInstruction := ss[4]));
  }

  /** The fixed-size fields are put at and after their address: every
      byte before it stays as it was. */
  lemma {:induction false} PutsKeepsBefore(m: seq<char>, a: nat, chunks: seq<seq<char>>)
    ensures forall i :: 0 <= i < a && i < |m| ==> Puts(m, a, chunks)[i] == m[i]
    decreases |chunks|
  {
    if |chunks| > 0 {
      PutsKeepsBefore(Put(m, a, chunks[0]), a + |chunks[0]|, chunks[1..]);
    }
  }

  /** The strings alone come back whenever they fit with their NULs, even
      when the fixed-size fields after them do not: `writeStr` stops
      copying only at the area's last byte. */
  lemma SaveLoadStrings(m: seq<char>, st: Settings, st0: Settings)
    requires |m| == EepromSize && 1 + |Join(Strings(st))| <= EepromSize
    ensures Strings(Load(Save(m, st), st0)) == Strings(st)
  {
    hide *;
    var ss := Strings(st);
    var j := Join(ss);
    var m0 := Write(m, 0, Magic);
    var w := WriteStrs(m0, 1, ss);
    var sv := Save(m, st);
    SaveIs(m, st);
    FiveStrings(st);
    WriteMagic(m);
    WriteStrsFits(m0, 1, ss);
    PutsKeepsBefore(w.0, w.1, Tail(st));
    StringsKept(m0, w.0, sv, j);
    ReadStrsAt(sv, 1, ss);
    LoadReads(sv, st0, ss, 1 + |j|);
    LoadTailKeepsStrings(sv, 1 + |j|, st0, ss);
  }

  lemma SaveIs(m: seq<char>, st: Settings)
    ensures Save(m, st) == Puts(WriteStrs(Write(m, 0, Magic), 1, Strings(st)).0,
                                WriteStrs(Write(m, 0, Magic), 1, Strings(st)).1, Tail(st))
  {
  }

  lemma WriteMagic(m: seq<char>)
    requires |m| == EepromSize
    ensures Write(m, 0, Magic)[0] == Magic
  {
  }

  /** The magic byte and the strings survive the fixed-size fields. */
  lemma StringsKept(m0: seq<char>, w: seq<char>, sv: seq<char>, j: seq<char>)
    requires |m0| == |sv| == EepromSize && 1 + |j| <= EepromSize
    requires w == Splice(m0, 1, j) && m0[0] == Magic
    requires forall i :: 0 <= i < 1 + |j| && i < |w| ==> sv[i] == w[i]
    ensures At(sv, 1, j) && sv[0] == Magic
  {
    SpliceAt(m0, 1, j);
    assert sv[1..1 + |j|] == w[1..1 + |j|];
  }

  lemma FiveStrings(st: Settings)
    ensures |Strings(st)| == 5
  {
  }

  lemma LoadTailKeepsStrings(m: seq<char>, a: nat, st: Settings, ss: seq<CStr>)
    requires |ss| == 5
    ensures Strings(LoadTail(m, a, st.(ssid := ss[0], password := ss[1], model := ss[2], token := ss[3],
                                       systemInstruction := ss[4]))) == ss
  {
  }

  /** Without the magic byte a load changes nothing. */
  lemma NoMagicNoChange(m: seq<char>, st: Settings)
    requires |m| == EepromSize && m[0] != Magic
    ensures Load(m, st) == st
    ensures forall conv: Conv :: LoadAsWritten(m, st, conv) == st
  {
  }

  /** A save always leaves the magic byte, so the next load reads the
      area. */
  lemma SaveMarks(m: seq<char>, st: Settings)
    requires |m| == EepromSize
    ensures Save(m, st)[0] == Magic
  {
    var m0 := Write(m, 0, Magic);
    var w := WriteStrs(m0, 1, Strings(st));
    WriteStrsKeeps(m0, 1, Strings(st), 0);
    PutsKeeps(w.0, w.1, Tail(st), 0);
  }

  /** Writing a string leaves every byte below its address alone. */
  lemma {:induction false} WriteStrKeeps(m: seq<char>, a: nat, s: CStr, k: nat)
    requires k < a && k < |m|
    ensures WriteStr(m, a, s).0[k] == m[k]
    decreases |s|
  {
    if |s| > 0 && a < EepromSize - 1 {
      WriteStrKeeps(Write(m, a, s[0]), a + 1, s[1..], k);
    }
  }

  lemma {:induction false} WriteStrsKeeps(m: seq<char>, a: nat, ss: seq<CStr>, k: nat)
    requires k < a && k < |m|
    ensures WriteStrs(m, a, ss).0[k] == m[k]
    decreases |ss|
  {
    if |ss| > 0 {
      var w := WriteStr(m, a, ss[0]);
      WriteStrKeeps(m, a, ss[0], k);
      WriteStrsKeeps(w.0, w.1, ss[1..], k);
    }
  }

  lemma {:induction false} PutsKeeps(m: seq<char>, a: nat, chunks: seq<seq<char>>, k: nat)
    requires k < a && k < |m|
    ensures Puts(m, a, chunks)[k] == m[k]
    decreases |chunks|
  {
    if |chunks| > 0 {
      PutsKeeps(Put(m, a, chunks[0]), a + |chunks[0]|, chunks[1..], k);
    }
  }

  // ---------------------------------------------------------------------
  // The load as written: through `_update`, keyed by the current value

  /** `String::toInt` and `String::toFloat`, which are not modelled. */
  datatype Conv = Conv(toInt: seq<char> -> Int32, toFloat: seq<char> -> Bits32)

  /** `_update(key, value)`: the field the key names (with or without a
      leading underscore for the strings) takes the value; an unknown key
      changes nothing. */
  function Update(st: Settings, key: seq<char>, value: CStr, conv: Conv): Settings
  {
    if key == "ssid" || key == "_ssid" then st.(ssid := value)
    else if key == "password" || key == "_password" then st.(password := value)
    else if key == "model" || key == "_model" then st.(model := value)
    else if key == "token" || key == "_token" then st.(token := value)
    else if key == "systemInstruction" || key == "_systemInstruction" then st.(systemInstruction := value)
    else if key == "maxTokens" then st.(maxTokens := conv.toInt(value))
    else if key == "temperature" then st.(temperature := conv.toFloat(value))
    else if key == "TopP" then st.(topP := conv.toFloat(value))
    else if key == "TopK" then st.(topK := conv.toFloat(value))
    else if key == "codeExecution" then st.(codeExecution := value == "enable")
    else if key == "googleSearch" then st.(googleSearch := value == "enable")
    else if key == "ledmode" then st.(ledmode := value == "enable")
    else st
  }

  /** The names `_update` accepts. */
  const FieldNames: set<seq<char>> := {
    "ssid", "_ssid", "password", "_password", "model", "_model", "token", "_token",
    "systemInstruction", "_systemInstruction", "maxTokens", "temperature", "TopP", "TopK",
    "codeExecution", "googleSearch", "ledmode" }

  lemma UpdateUnknown(st: Settings, key: seq<char>, value: CStr, conv: Conv)
    requires key !in FieldNames
    ensures Update(st, key, value, conv) == st
  {
  }

  /** A switch is on exactly when the value is the word "enable" (any other
      text, "Enable" or "on" included, turns it off), and no other setting
      moves. */
  lemma UpdateSwitches(st: Settings, value: CStr, conv: Conv)
    ensures var r := Update(st, "codeExecution", value, conv);
      (r.codeExecution <==> value == "enable") && r == st.(codeExecution := r.codeExecution)
    ensures var r := Update(st, "googleSearch", value, conv);
      (r.googleSearch <==> value == "enable") && r == st.(googleSearch := r.googleSearch)
    ensures var r := Update(st, "ledmode", value, conv);
      (r.ledmode <==> value == "enable") && r == st.(ledmode := r.ledmode)
  {
  }

  /** The sampling fields are named `TopP` and `TopK`: the spelling of the
      request body's keys is not accepted and changes nothing. */
  lemma UpdateCaseSensitive(st: Settings, value: CStr, conv: Conv)
    ensures Update(st, "topP", value, conv) == st
    ensures Update(st, "topK", value, conv) == st
    ensures Update(st, "TopP", value, conv) == st.(topP := conv.toFloat(value))
    ensures Update(st, "TopK", value, conv) == st.(topK := conv.toFloat(value))
  {
    assert "topP"[0] != "TopP"[0];
  }

  /** The five string lines of `loadFromEEPROM` as written, from the
      `i`-th on: each string read is passed to `_update` with the field's
      current value as the key. */
  function LoadStrs(m: seq<char>, addr: nat, st: Settings, conv: Conv, i: nat): (Settings, nat)
    requires i <= 5
    decreases 5 - i
  {
    if i == 5 then (st, addr)
    else
      var r := ReadStr(m, addr);
      LoadStrs(m, r.1, Update(st, Strings(st)[i], r.0, conv), conv, i + 1)
  }

  /** `loadFromEEPROM` as written. */
  function LoadAsWritten(m: seq<char>, st: Settings, conv: Conv): Settings
    requires |m| == EepromSize
  {
    if m[0] != Magic then st
    else
      var r := LoadStrs(m, 1, st, conv, 0);
      LoadTail(m, r.1, r.0)
  }

  lemma {:induction false} LoadStrsKeeps(m: seq<char>, addr: nat, st: Settings, conv: Conv, i: nat)
    requires i <= 5
    requires forall k :: i <= k < 5 ==> Strings(st)[k] !in FieldNames
    ensures LoadStrs(m, addr, st, conv, i).0 == st
    decreases 5 - i
  {
    if i < 5 {
      var r := ReadStr(m, addr);
      UpdateUnknown(st, Strings(st)[i], r.0, conv);
      LoadStrsKeeps(m, r.1, st, conv, i + 1);
    }
  }

  /** When no string setting happens to be a field name, the load as
      written keeps all five strings as they were: what was saved is read
      and thrown away. */
  lemma LoadAsWrittenKeepsStrings(m: seq<char>, st: Settings, conv: Conv)
    requires |m| == EepromSize
    requires forall k :: 0 <= k < 5 ==> Strings(st)[k] !in FieldNames
    ensures Strings(LoadAsWritten(m, st, conv)) == Strings(st)
  {
    if m[0] == Magic {
      LoadStrsKeeps(m, 1, st, conv, 0);
    }
  }

  /** Settings saved with the network name "office". */
  const Office: Settings := Settings("office", "pw", "m", "t", "s", 100, 0, 0, 0, false, false, false)

  /** The same settings with the network name now "home". */
  const Home: Settings := Settings("home", "pw", "m", "t", "s", 100, 0, 0, 0, false, false, false)

  lemma OfficeFits()
    ensures Fits(Office)
  {
    assert Join(Strings(Office)) == "office" + [NUL] + "pw" + [NUL] + "m" + [NUL] + "t" + [NUL] + "s" + [NUL];
  }

  lemma HomeIsNoFieldName()
    ensures forall k :: 0 <= k < 5 ==> Strings(Home)[k] !in FieldNames
  {
    var ss := Strings(Home);
    assert ss == ["home", "pw", "m", "t", "s"];
  }

  /** A network name saved as "office" does not come back over a current
      "home", while the corrected load restores it. */
  lemma LoadAsWrittenLosesSsid(m: seq<char>, conv: Conv)
    requires |m| == EepromSize
    ensures LoadAsWritten(Save(m, Office), Home, conv).ssid == "home"
    ensures Load(Save(m, Office), Home).ssid == "office"
  {
    OfficeFits();
    SaveLoadRoundTrip(m, Office, Home);
    HomeIsNoFieldName();
    LoadAsWrittenKeepsStrings(Save(m, Office), Home, conv);
    assert Strings(LoadAsWritten(Save(m, Office), Home, conv))[0] == Strings(Home)[0];
  }

  // ---------------------------------------------------------------------
  // The load with `_update` keyed by the field's name

  /** The names of the five string fields, in the order they are saved. */
  const StringNames: seq<seq<char>> := ["ssid", "password", "model", "token", "systemInstruction"]

  /** The fixed-size settings of `a` and `b` agree. */
  predicate SameTail(a: Settings, b: Settings)
  {
    && a.maxTokens == b.maxTokens && a.temperature == b.temperature && a.topP == b.topP
    && a.topK == b.topK && a.codeExecution == b.codeExecution && a.googleSearch == b.googleSearch
    && a.ledmode == b.ledmode
  }

  /** Settings are their five strings and their fixed-size fields. */
  lemma SettingsEqual(a: Settings, b: Settings)
    requires Strings(a) == Strings(b) && SameTail(a, b)
    ensures a == b
  {
    assert Strings(a)[0] == Strings(b)[0] && Strings(a)[1] == Strings(b)[1];
    assert Strings(a)[2] == Strings(b)[2] && Strings(a)[3] == Strings(b)[3];
    assert Strings(a)[4] == Strings(b)[4];
  }

  /** `st` with its `k`-th string setting replaced. */
  function SetString(st: Settings, k: nat, v: CStr): (r: Settings)
    requires k < 5
    ensures Strings(r) == Strings(st)[k := v]
    ensures SameTail(r, st)
  {
    if k == 0 then st.(ssid := v)
    else if k == 1 then st.(password := v)
    else if k == 2 then st.(model := v)
    else if k == 3 then st.(token := v)
    else st.(systemInstruction := v)
  }

  /** `_update` with a string field's name, with or without the leading
      underscore, sets that field and nothing else. */
  lemma UpdateString(st: Settings, k: nat, value: CStr, conv: Conv)
    requires k < 5
    ensures Update(st, StringNames[k], value, conv) == SetString(st, k, value)
    ensures Update(st, "_" + StringNames[k], value, conv) == SetString(st, k, value)
  {
    var n := StringNames[k];
    if k == 0 {
      assert n == "ssid" && "_" + n == "_ssid";
    } else if k == 1 {
      assert n == "password" && "_" + n == "_password";
      assert n != "ssid" && n != "_ssid" && "_" + n != "ssid" && "_" + n != "_ssid";
    } else if k == 2 {
      assert n == "model" && "_" + n == "_model";
      assert n[0] != "_ssid"[0];
    } else if k == 3 {
      assert n == "token" && "_" + n == "_token";
      assert n[0] != "_ssid"[0] && n[0] != "model"[0];
      assert ("_" + n)[1] != "_model"[1];
    } else {
      assert n == "systemInstruction" && "_" + n == "_systemInstruction";
    }
  }

  /** The five string lines of `loadFromEEPROM`, from the `i`-th on, with
      the field's name as the key of `_update`. */
  function LoadStrsByName(m: seq<char>, addr: nat, st: Settings, conv: Conv, i: nat): (Settings, nat)
    requires i <= 5
    decreases 5 - i
  {
    if i == 5 then (st, addr)
    else
      var r := ReadStr(m, addr);
      LoadStrsByName(m, r.1, Update(st, StringNames[i], r.0, conv), conv, i + 1)
  }

  /** `loadFromEEPROM` with `_update("ssid", readStr())` and so on, leaving
      out the save each accepted `_update` makes (which would overwrite the
      strings not read yet with the current ones). */
  function LoadByName(m: seq<char>, st: Settings, conv: Conv): Settings
    requires |m| == EepromSize
  {
    if m[0] != Magic then st
    else
      var r := LoadStrsByName(m, 1, st, conv, 0);
      LoadTail(m, r.1, r.0)
  }

  /** Keyed by name, the string lines store the strings read, in order,
      and end where the reads end. */
  lemma {:induction false} LoadStrsByNameReads(m: seq<char>, addr: nat, st: Settings, conv: Conv, i: nat)
    requires i <= 5
    ensures var r := LoadStrsByName(m, addr, st, conv, i);
      var t := ReadStrs(m, addr, 5 - i);
      && r.1 == t.1 && SameTail(r.0, st) && Strings(r.0) == Strings(st)[..i] + t.0
    decreases 5 - i
  {
    if i < 5 {
      var rs := ReadStr(m, addr);
      UpdateString(st, i, rs.0, conv);
      var st1 := SetString(st, i, rs.0);
      LoadStrsByNameReads(m, rs.1, st1, conv, i + 1);
      assert Strings(st1)[..i + 1] == Strings(st)[..i] + [rs.0];
    }
  }

  /** Keying each `_update` of the load by the field's name gives the
      corrected load. */
  lemma LoadByNameIsLoad(m: seq<char>, st: Settings, conv: Conv)
    requires |m| == EepromSize
    ensures LoadByName(m, st, conv) == Load(m, st)
  {
    if m[0] == Magic {
      LoadStrsByNameReads(m, 1, st, conv, 0);
      var r := LoadStrsByName(m, 1, st, conv, 0);
      var ss := ReadStrs(m, 1, 5).0;
      SettingsEqual(r.0, st.(ssid := ss[0], password := ss[1], model := ss[2], token := ss[3],
                              systemInstruction := ss[4]));
    }
  }
}
