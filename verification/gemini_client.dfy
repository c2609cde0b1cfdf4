/** The request side of the newer client: `_escape`, which escapes a prompt
    before it is handed to the builder, and `_buildGeminiPayload`, which
    writes the request body with the static builder in compact mode. The
    payload is described as the JSON tree whose builder calls the function
    makes; floating point values are carried as the text the builder would
    print and a flag saying whether they are zero. */
module GeminiClient {
  import opened Chars
  import opened Json
  import JsonBuilder
  import BuilderRender
  import LegacyText
  import StreamParser
  import StreamSearch

  // ---------------------------------------------------------------------
  // _escape

  const Backspace: char := 8 as char
  const FormFeed: char := 12 as char

  /** The seven characters `_escape` writes as a backslash and a letter. */
  predicate PromptSpecial(c: char)
  {
    c == '"' || c == '\\' || c == Backspace || c == FormFeed || c == '\n' || c == '\r' || c == '\t'
  }

  /** The letter after the backslash. */
  function PromptLetter(c: char): char
    requires PromptSpecial(c)
  {
    if c == Backspace then 'b'
    else if c == FormFeed then 'f'
    else if c == '\n' then 'n'
    else if c == '\r' then 'r'
    else if c == '\t' then 't'
    else c
  }

  function PromptEscapeChar(c: char): seq<char>
  {
    if PromptSpecial(c) then ['\\', PromptLetter(c)] else [c]
  }

  /** The number of characters of `s` that `_escape` expands. */
  function SpecialCount(s: seq<char>): nat
  {
    if |s| == 0 then 0 else (if PromptSpecial(s[0]) then 1 else 0) + SpecialCount(s[1..])
  }

  /** A raw character `_escape` never leaves in its output. */
  predicate RawControl(c: char)
  {
    c == Backspace || c == FormFeed || c == '\n' || c == '\r' || c == '\t'
  }

  /** `_escape`: every special character becomes two characters, the rest
      are copied; the result grows by one character per special one, and
      keeps no raw control character and no NUL the input did not have. */
  function PromptEscape(s: seq<char>): (r: seq<char>)
    ensures |r| == |s| + SpecialCount(s)
    ensures forall i :: 0 <= i < |r| ==> !RawControl(r[i])
    ensures NUL !in s ==> NUL !in r
  {
    if |s| == 0 then [] else PromptEscapeChar(s[0]) + PromptEscape(s[1..])
  }

  /** Reading the two-character escapes back. */
  predicate EscapeLetter(x: char) { x == '"' || x == '\\' || x == 'b' || x == 'f' || x == 'n' || x == 'r' || x == 't' }

  function LetterValue(x: char): char
  {
    match x
    case 'b' => Backspace
    case 'f' => FormFeed
    case 'n' => '\n'
    case 'r' => '\r'
    case 't' => '\t'
    case _ => x
  }

  function PromptUnescape(t: seq<char>): (r: seq<char>)
    ensures |r| <= |t|
    decreases |t|
  {
    if |t| == 0 then []
    else if |t| >= 2 && t[0] == '\\' && EscapeLetter(t[1]) then [LetterValue(t[1])] + PromptUnescape(t[2..])
    else [t[0]] + PromptUnescape(t[1..])
  }

  lemma UnescapeStep(c: char, t: seq<char>)
    ensures PromptUnescape(PromptEscapeChar(c) + t) == [c] + PromptUnescape(t)
  {
    var s := PromptEscapeChar(c) + t;
    if PromptSpecial(c) {
      assert s[2..] == t;
    } else {
      assert s[1..] == t;
    }
  }

  /** `_escape` loses nothing: its output reads back to its input. */
  lemma {:induction false} PromptRoundTrip(s: seq<char>)
    ensures PromptUnescape(PromptEscape(s)) == s
    decreases |s|
  {
    if |s| > 0 {
      UnescapeStep(s[0], PromptEscape(s[1..]));
      PromptRoundTrip(s[1..]);
      assert [s[0]] + s[1..] == s;
    }
  }

  /** Text without special characters is passed unchanged. */
  lemma {:induction false} PromptEscapePlain(s: seq<char>)
    requires forall i :: 0 <= i < |s| ==> !PromptSpecial(s[i])
    ensures PromptEscape(s) == s
    decreases |s|
  {
    if |s| > 0 {
      PromptEscapePlain(s[1..]);
      assert [s[0]] + s[1..] == s;
    }
  }

  /** The builder escapes the escaped prompt once more: a line feed in the
      question reaches the payload as `\\n`, which a JSON reader takes for
      a backslash followed by `n`. */
  lemma LineFeedTwiceEscaped()
    ensures PromptEscape("\n") == "\\n"
    ensures Escape(PromptEscape("\n")) == "\\\\n"
    ensures LegacyText.Unescape("\\\\n") == "\\n"
  {
    assert PromptEscape("\n") == PromptEscapeChar('\n') + PromptEscape([]);
    var e: seq<char> := "\\n";
    assert Escape(e) == EscapeChar('\\') + Escape(e[1..]);
    assert e[1..] == "n" && Escape("n") == "n";
    LegacyText.BackslashNBecomesNewline();
  }

  // ---------------------------------------------------------------------
  // _buildGeminiPayload

  /** A `float` argument: the text `dtostrf` gives it and whether it is
      zero. */
  datatype Num = Num(text: CStr, zero: bool)

  /** The client fields the payload reads. */
  datatype Config = Config(
    model: CStr,
    systemInstruction: CStr,
    maxTokens: int,
    temperature: Num,
    topP: Num,
    topK: Num,
    googleSearch: bool,
    codeExecution: bool)

  /** `std::min(maxTokens, MAX_TOKENS)`. */
  function TokenLimit(maxTokens: int, cap: int): (t: int)
    ensures t <= maxTokens && t <= cap && (t == maxTokens || t == cap)
  {
    if cap < maxTokens then cap else maxTokens
  }

  /** `strstr(model, "image-generation") != nullptr`. */
  predicate ImageModel(model: seq<char>)
  {
    LegacyText.IndexOf(model, "image-generation", 0).Some?
  }

  lemma ImageModelExactly(model: seq<char>)
    ensures ImageModel(model) <==> exists k :: LegacyText.OccursAt(model, "image-generation", k)
  {
    LegacyText.IndexOfFirst(model, "image-generation", 0);
    if ImageModel(model) {
      assert LegacyText.OccursAt(model, "image-generation", LegacyText.IndexOf(model, "image-generation", 0).value);
    }
  }

  // The key names the payload writes.
  const TemperatureKey: CStr := "temperature"
  const TopPKey: CStr := "topP"
  const TopKKey: CStr := "topK"
  const TokensKey: CStr := "maxOutputTokens"
  const ModalitiesKey: CStr := "responseModalities"
  const MimeTypeKey: CStr := "responseMimeType"
  const ToolsKey: CStr := "tools"
  const ConfigKey: CStr := "generationConfig"
  const InstructionKey: CStr := "systemInstruction"
  const ContentsKey: CStr := "contents"

  /** The key names differ: all but `topP` and `topK` already in length. */
  lemma KeyNamesDiffer()
    ensures |TemperatureKey| == 11 && |TopPKey| == 4 && |TopKKey| == 4 && |TokensKey| == 15
    ensures |ModalitiesKey| == 18 && |MimeTypeKey| == 16
    ensures |ToolsKey| == 5 && |ConfigKey| == 16 && |InstructionKey| == 17 && |ContentsKey| == 8
    ensures TopPKey != TopKKey
  {
    assert TopPKey[3] != TopKKey[3];
  }

  function StrLeaf(s: CStr): Json { Leaf(Str(s)) }

  function FloatLeaf(n: Num): Json { Leaf(Float(n.text)) }

  /** `{"googleSearch":{}}` and `{"codeExecution":{}}`, for the flags that
      are set. */
  function Tools(c: Config): seq<Json>
  {
    (if c.googleSearch then [Object([Member("googleSearch", Object([]))])] else [])
    + (if c.codeExecution then [Object([Member("codeExecution", Object([]))])] else [])
  }

  const Modalities: Json := Array([Leaf(Str("IMAGE")), Leaf(Str("TEXT"))])

  /** The first `generationConfig`: every parameter, zero or not. */
  function FirstConfig(c: Config, tokens: int): seq<Member>
  {
    [Member(TemperatureKey, FloatLeaf(c.temperature)), Member(TopPKey, FloatLeaf(c.topP)),
     Member(TopKKey, FloatLeaf(c.topK)), Member(TokensKey, Leaf(Int(tokens)))]
    + (if ImageModel(c.model) then [Member(ModalitiesKey, Modalities)] else [])
    + [Member(MimeTypeKey, StrLeaf("text/plain"))]
  }

  /** Whether the second `generationConfig` is written. */
  predicate SecondWanted(c: Config, tokens: int)
  {
    !c.temperature.zero || !c.topP.zero || !c.topK.zero || tokens != 0 || ImageModel(c.model)
  }

  /** The second `generationConfig`: only the parameters that are not
      zero. */
  function SecondConfig(c: Config, tokens: int): seq<Member>
  {
    (if !c.temperature.zero then [Member(TemperatureKey, FloatLeaf(c.temperature))] else [])
    + (if !c.topP.zero then [Member(TopPKey, FloatLeaf(c.topP))] else [])
    + (if !c.topK.zero then [Member(TopKKey, FloatLeaf(c.topK))] else [])
    + (if tokens != 0 then [Member(TokensKey, Leaf(Int(tokens)))] else [])
    + (if ImageModel(c.model) then [Member(ModalitiesKey, Modalities)] else [])
  }

  /** `{"parts":[{"text":…}]}` with the escaped text. */
  function Parts(text: CStr): seq<Member>
  {
    [Member("parts", Array([Object([Member("text", StrLeaf(PromptEscape(text)))])]))]
  }

  function Contents(question: CStr): Json
  {
    Array([Object([Member("role", StrLeaf("user"))] + Parts(question))])
  }

  /** The members of the request body, in the order the function writes
      them. */
  function Body(question: CStr, c: Config, cap: int): seq<Member>
  {
    var tokens := TokenLimit(c.maxTokens, cap);
    (if c.googleSearch || c.codeExecution then [Member(ToolsKey, Array(Tools(c)))] else [])
    + [Member(ConfigKey, Object(FirstConfig(c, tokens))),
       Member(InstructionKey, Object(Parts(c.systemInstruction)))]
    + (if SecondWanted(c, tokens) then [Member(ConfigKey, Object(SecondConfig(c, tokens)))] else [])
    + (if |c.systemInstruction| > 0 then [Member(InstructionKey, Object(Parts(c.systemInstruction)))] else [])
    + [Member(ContentsKey, Contents(question))]
  }

  function Payload(question: CStr, c: Config, cap: int): Json
  {
    Object(Body(question, c, cap))
  }

  /** What ends up in the `PAYLOAD_BUFFER_SIZE` buffer `buf`: the builder
      in compact mode, fed the calls of the payload. */
  function PayloadText(buf: seq<char>, question: CStr, c: Config, cap: int): seq<char>
    requires |buf| >= 1
  {
    var b := JsonBuilder.Init(buf, false);
    JsonBuilder.Text(BuilderRender.Run(b, BuilderRender.Events(Payload(question, c, cap))))
  }

  /** With room for it, the buffer holds exactly the compact text of the
      payload tree. */
  lemma PayloadFits(buf: seq<char>, question: CStr, c: Config, cap: int)
    requires |buf| >= 1 && |Render(Payload(question, c, cap))| <= |buf| - 1
    ensures PayloadText(buf, question, c, cap) == Render(Payload(question, c, cap))
  {
    var b := JsonBuilder.Init(buf, false);
    BuilderRender.CompactSeparator(b);
    BuilderRender.RenderCompact(b, Payload(question, c, cap));
  }

  // ---------------------------------------------------------------------
  // The shape of the payload

  function Keys(ms: seq<Member>): (r: seq<seq<char>>)
    ensures |r| == |ms|
    ensures forall i :: 0 <= i < |ms| ==> r[i] == ms[i].key
  {
    if |ms| == 0 then [] else [ms[0].key] + Keys(ms[1..])
  }

  lemma KeysAppend(a: seq<Member>, b: seq<Member>)
    ensures Keys(a + b) == Keys(a) + Keys(b)
  {
  }

  /** The value of the first member named `k`. */
  function Lookup(ms: seq<Member>, k: seq<char>): (r: Option<Json>)
    ensures r.None? <==> k !in Keys(ms)
  {
    if |ms| == 0 then None
    else if ms[0].key == k then Some(ms[0].value)
    else
      assert Keys(ms) == [ms[0].key] + Keys(ms[1..]);
      Lookup(ms[1..], k)
  }

  /** `[k]` when `cond` holds, nothing otherwise: a key the payload
      writes only under a condition. */
  function Present(cond: bool, k: seq<char>): (r: seq<seq<char>>)
    ensures k in r <==> cond
    ensures forall x :: x in r ==> x == k
  {
    if cond then [k] else []
  }

  lemma PresentCount(cond: bool, k: seq<char>, x: seq<char>)
    ensures multiset(Present(cond, k))[x] == if cond && x == k then 1 else 0
  {
  }

  lemma KeysOptional(cond: bool, m: Member)
    ensures Keys(if cond then [m] else []) == Present(cond, m.key)
  {
  }

  /** The top-level key names for the three optional segments: a `tools`
      entry, the second `generationConfig`, the second `systemInstruction`. */
  function KeyList(tools: bool, second: bool, instruction: bool): seq<seq<char>>
  {
    Present(tools, ToolsKey)
    + [ConfigKey, InstructionKey]
    + Present(second, ConfigKey)
    + Present(instruction, InstructionKey)
    + [ContentsKey]
  }

  lemma BodyKeyList(question: CStr, c: Config, cap: int)
    ensures Keys(Body(question, c, cap))
         == KeyList(c.googleSearch || c.codeExecution,
                    SecondWanted(c, TokenLimit(c.maxTokens, cap)),
                    |c.systemInstruction| > 0)
  {
    var tokens := TokenLimit(c.maxTokens, cap);
    var t: seq<Member> := if c.googleSearch || c.codeExecution then [Member(ToolsKey, Array(Tools(c)))] else [];
    var f: seq<Member> := [Member(ConfigKey, Object(FirstConfig(c, tokens))),
                           Member(InstructionKey, Object(Parts(c.systemInstruction)))];
    var g: seq<Member> := if SecondWanted(c, tokens) then [Member(ConfigKey, Object(SecondConfig(c, tokens)))] else [];
    var h: seq<Member> := if |c.systemInstruction| > 0 then [Member(InstructionKey, Object(Parts(c.systemInstruction)))] else [];
    var e: seq<Member> := [Member(ContentsKey, Contents(question))];
    assert Body(question, c, cap) == t + f + g + h + e;
    hide Body, FirstConfig, SecondConfig, SecondWanted, Tools, Parts, Contents;
    KeysAppend(t + f + g + h, e);
    KeysAppend(t + f + g, h);
    KeysAppend(t + f, g);
    KeysAppend(t, f);
    KeysOptional(c.googleSearch || c.codeExecution, Member(ToolsKey, Array(Tools(c))));
    KeysOptional(SecondWanted(c, tokens), Member(ConfigKey, Object(SecondConfig(c, tokens))));
    KeysOptional(|c.systemInstruction| > 0, Member(InstructionKey, Object(Parts(c.systemInstruction))));
    KeysPair(f[0], f[1]);
    KeysPair(e[0], e[0]);
    assert e == [e[0]];
  }

  lemma KeysPair(m: Member, n: Member)
    ensures Keys([m, n]) == [m.key, n.key]
    ensures Keys([m]) == [m.key]
  {
  }

  lemma KeyListFacts(tools: bool, second: bool, instruction: bool)
    ensures var ks := KeyList(tools, second, instruction);
      && (ToolsKey in ks <==> tools)
      && ks[|ks| - 1] == ContentsKey
      && multiset(ks)[ContentsKey] == 1
      && multiset(ks)[ConfigKey] == (if second then 2 else 1)
      && multiset(ks)[InstructionKey] == (if instruction then 2 else 1)
  {
    KeyNamesDiffer();
    OptionalKeys(tools, second, instruction, ToolsKey, ConfigKey, InstructionKey, ContentsKey);
  }

  /** `KeyList` for any four distinct names. */
  lemma OptionalKeys(tools: bool, second: bool, instruction: bool, tk: seq<char>, ck: seq<char>, ik: seq<char>, nk: seq<char>)
    requires tk != ck && tk != ik && tk != nk && ck != ik && ck != nk && ik != nk
    ensures var ks := Present(tools, tk) + [ck, ik] + Present(second, ck) + Present(instruction, ik) + [nk];
      && (tk in ks <==> tools)
      && ks[|ks| - 1] == nk
      && multiset(ks)[nk] == 1
      && multiset(ks)[ck] == (if second then 2 else 1)
      && multiset(ks)[ik] == (if instruction then 2 else 1)
  {
    var t := Present(tools, tk);
    var g := Present(second, ck);
    var h := Present(instruction, ik);
    var ks := t + [ck, ik] + g + h + [nk];
    assert multiset(ks) == multiset(t) + multiset{ck, ik} + multiset(g) + multiset(h) + multiset{nk};
    PresentCount(tools, tk, nk);
    PresentCount(tools, tk, ck);
    PresentCount(tools, tk, ik);
    PresentCount(second, ck, nk);
    PresentCount(second, ck, ck);
    PresentCount(second, ck, ik);
    PresentCount(instruction, ik, nk);
    PresentCount(instruction, ik, ck);
    PresentCount(instruction, ik, ik);
  }

  /** The top-level keys: `tools` exactly when a tool is enabled,
      `generationConfig` and `systemInstruction` once more under the
      source's conditions, `contents` once and last. */
  lemma BodyKeys(question: CStr, c: Config, cap: int)
    ensures var ks := Keys(Body(question, c, cap));
      var tokens := TokenLimit(c.maxTokens, cap);
      && (ToolsKey in ks <==> c.googleSearch || c.codeExecution)
      && ks[|ks| - 1] == ContentsKey
      && multiset(ks)[ContentsKey] == 1
      && multiset(ks)[ConfigKey] == (if SecondWanted(c, tokens) then 2 else 1)
      && multiset(ks)[InstructionKey] == (if |c.systemInstruction| > 0 then 2 else 1)
  {
    BodyKeyList(question, c, cap);
    KeyListFacts(c.googleSearch || c.codeExecution,
                 SecondWanted(c, TokenLimit(c.maxTokens, cap)),
                 |c.systemInstruction| > 0);
  }

  /** The tools array lists Google search before code execution, each only
      when enabled. */
  lemma ToolsListed(c: Config)
    ensures |Tools(c)| == (if c.googleSearch then 1 else 0) + (if c.codeExecution then 1 else 0)
    ensures c.googleSearch ==> Tools(c)[0] == Object([Member("googleSearch", Object([]))])
    ensures c.codeExecution ==> Tools(c)[|Tools(c)| - 1] == Object([Member("codeExecution", Object([]))])
  {
  }

  /** Looking past a first member with another name. */
  lemma LookupSkip(m: Member, rest: seq<Member>, k: seq<char>)
    requires m.key != k
    ensures Lookup([m] + rest, k) == Lookup(rest, k)
  {
    assert ([m] + rest)[1..] == rest;
  }

  /** The key names of the first configuration, in order. */
  lemma FirstKeyList(c: Config, tokens: int)
    ensures Keys(FirstConfig(c, tokens))
         == [TemperatureKey, TopPKey, TopKKey, TokensKey]
            + Present(ImageModel(c.model), ModalitiesKey) + [MimeTypeKey]
  {
    var a: seq<Member> := [Member(TemperatureKey, FloatLeaf(c.temperature)), Member(TopPKey, FloatLeaf(c.topP)),
                           Member(TopKKey, FloatLeaf(c.topK)), Member(TokensKey, Leaf(Int(tokens)))];
    var m: seq<Member> := if ImageModel(c.model) then [Member(ModalitiesKey, Modalities)] else [];
    var z: seq<Member> := [Member(MimeTypeKey, StrLeaf("text/plain"))];
    assert FirstConfig(c, tokens) == a + m + z;
    hide FirstConfig, ImageModel, FloatLeaf;
    KeysAppend(a + m, z);
    KeysAppend(a, m);
    KeysOptional(ImageModel(c.model), Member(ModalitiesKey, Modalities));
    KeysPair(z[0], z[0]);
    assert z == [z[0]];
    KeysPair(a[0], a[1]);
    KeysPair(a[2], a[3]);
    KeysAppend([a[0], a[1]], [a[2], a[3]]);
    assert a == [a[0], a[1]] + [a[2], a[3]];
  }

  /** The token limit is the fourth member of the first configuration. */
  lemma FirstConfigTokens(c: Config, tokens: int)
    ensures Lookup(FirstConfig(c, tokens), TokensKey) == Some(Leaf(Int(tokens)))
  {
    var a: seq<Member> := [Member(TemperatureKey, FloatLeaf(c.temperature)), Member(TopPKey, FloatLeaf(c.topP)),
                           Member(TopKKey, FloatLeaf(c.topK))];
    var m3 := Member(TokensKey, Leaf(Int(tokens)));
    var rest := (if ImageModel(c.model) then [Member(ModalitiesKey, Modalities)] else [])
                + [Member(MimeTypeKey, StrLeaf("text/plain"))];
    assert FirstConfig(c, tokens) == a + ([m3] + rest);
    hide *;
    KeyNamesDiffer();
    assert Keys(a) == [TemperatureKey, TopPKey, TopKKey];
    LookupAppend(a, [m3] + rest, TokensKey);
  }

  /** The mime type is the last member of the first configuration. */
  lemma FirstConfigMime(c: Config, tokens: int)
    ensures Lookup(FirstConfig(c, tokens), MimeTypeKey) == Some(StrLeaf("text/plain"))
  {
    var front := FirstConfig(c, tokens)[..|FirstConfig(c, tokens)| - 1];
    var z := [Member(MimeTypeKey, StrLeaf("text/plain"))];
    assert FirstConfig(c, tokens) == front + z;
    FirstKeyList(c, tokens);
    KeysAppend(front, z);
    hide *;
    KeyNamesDiffer();
    assert MimeTypeKey !in Keys(front);
    LookupAppend(front, z, MimeTypeKey);
  }

  /** The first configuration always carries the token limit, which never
      exceeds either `maxTokens` or the cap, and asks for images exactly
      for image generation models. */
  lemma FirstConfigShape(c: Config, cap: int)
    ensures var tokens := TokenLimit(c.maxTokens, cap);
      var ms := FirstConfig(c, tokens);
      && Lookup(ms, TokensKey) == Some(Leaf(Int(tokens)))
      && tokens <= c.maxTokens && tokens <= cap
      && (ModalitiesKey in Keys(ms) <==> ImageModel(c.model))
      && Lookup(ms, MimeTypeKey) == Some(StrLeaf("text/plain"))
  {
    var tokens := TokenLimit(c.maxTokens, cap);
    FirstConfigTokens(c, tokens);
    FirstConfigMime(c, tokens);
    FirstKeyList(c, tokens);
    hide *;
    KeyNamesDiffer();
    ModalitiesListed(ImageModel(c.model));
  }

  lemma ModalitiesListed(i: bool)
    requires |TemperatureKey| == 11 && |TopPKey| == 4 && |TopKKey| == 4 && |TokensKey| == 15
    requires |ModalitiesKey| == 18 && |MimeTypeKey| == 16
    ensures var ks := [TemperatureKey, TopPKey, TopKKey, TokensKey] + Present(i, ModalitiesKey) + [MimeTypeKey];
      ModalitiesKey in ks <==> i
  {
  }

  lemma {:induction false} LookupAppend(a: seq<Member>, b: seq<Member>, k: seq<char>)
    ensures Lookup(a + b, k) == if k in Keys(a) then Lookup(a, k) else Lookup(b, k)
    decreases |a|
  {
    if |a| == 0 {
      assert a + b == b;
    } else {
      assert (a + b)[1..] == a[1..] + b;
      assert Keys(a) == [a[0].key] + Keys(a[1..]);
      LookupAppend(a[1..], b, k);
    }
  }

  lemma SecondKeyList(c: Config, tokens: int)
    ensures Keys(SecondConfig(c, tokens))
         == Present(!c.temperature.zero, TemperatureKey) + Present(!c.topP.zero, TopPKey)
            + Present(!c.topK.zero, TopKKey) + Present(tokens != 0, TokensKey)
            + Present(ImageModel(c.model), ModalitiesKey)
  {
    var a: seq<Member> := if !c.temperature.zero then [Member(TemperatureKey, FloatLeaf(c.temperature))] else [];
    var b: seq<Member> := if !c.topP.zero then [Member(TopPKey, FloatLeaf(c.topP))] else [];
    var d: seq<Member> := if !c.topK.zero then [Member(TopKKey, FloatLeaf(c.topK))] else [];
    var e: seq<Member> := if tokens != 0 then [Member(TokensKey, Leaf(Int(tokens)))] else [];
    var f: seq<Member> := if ImageModel(c.model) then [Member(ModalitiesKey, Modalities)] else [];
    assert SecondConfig(c, tokens) == a + b + d + e + f;
    hide SecondConfig, ImageModel, FloatLeaf;
    KeysAppend(a + b + d + e, f);
    KeysAppend(a + b + d, e);
    KeysAppend(a + b, d);
    KeysAppend(a, b);
    KeysOptional(!c.temperature.zero, Member(TemperatureKey, FloatLeaf(c.temperature)));
    KeysOptional(!c.topP.zero, Member(TopPKey, FloatLeaf(c.topP)));
    KeysOptional(!c.topK.zero, Member(TopKKey, FloatLeaf(c.topK)));
    KeysOptional(tokens != 0, Member(TokensKey, Leaf(Int(tokens))));
    KeysOptional(ImageModel(c.model), Member(ModalitiesKey, Modalities));
  }

  /** The second configuration names a parameter exactly when it is not
      zero. */
  lemma SecondConfigShape(c: Config, tokens: int)
    ensures var ks := Keys(SecondConfig(c, tokens));
      && (TemperatureKey in ks <==> !c.temperature.zero)
      && (TopPKey in ks <==> !c.topP.zero)
      && (TopKKey in ks <==> !c.topK.zero)
      && (TokensKey in ks <==> tokens != 0)
      && (ModalitiesKey in ks <==> ImageModel(c.model))
  {
    SecondKeyList(c, tokens);
    hide *;
    KeyNamesDiffer();
    FiveKeys(!c.temperature.zero, !c.topP.zero, !c.topK.zero, tokens != 0, ImageModel(c.model));
  }

  lemma FiveKeys(t: bool, p: bool, k: bool, n: bool, i: bool)
    requires |TemperatureKey| == 11 && |TopPKey| == 4 && |TopKKey| == 4 && |TokensKey| == 15
    requires |ModalitiesKey| == 18 && TopPKey != TopKKey
    ensures var ks := Present(t, TemperatureKey) + Present(p, TopPKey) + Present(k, TopKKey)
                      + Present(n, TokensKey) + Present(i, ModalitiesKey);
      && (TemperatureKey in ks <==> t) && (TopPKey in ks <==> p) && (TopKKey in ks <==> k)
      && (TokensKey in ks <==> n) && (ModalitiesKey in ks <==> i)
  {
  }

  /** The question is the text of the only part of the only content, and
      reads back from it. */
  lemma QuestionCarried(question: CStr, c: Config, cap: int)
    ensures Lookup(Body(question, c, cap), ContentsKey) == Some(Contents(question))
  {
    var ms := Body(question, c, cap);
    var e: seq<Member> := [Member(ContentsKey, Contents(question))];
    var front := ms[..|ms| - 1];
    assert ms == front + e;
    BodyKeys(question, c, cap);
    assert ContentsKey !in Keys(front) by {
      KeysAppend(front, e);
      assert multiset(Keys(ms)) == multiset(Keys(front)) + multiset{ContentsKey};
    }
    LookupAppend(front, e, ContentsKey);
  }

  // ---------------------------------------------------------------------
  // The question in the payload text

  /** A prompt with no special character counted has none. */
  lemma {:induction false} NoSpecials(s: seq<char>)
    requires SpecialCount(s) == 0
    ensures forall i :: 0 <= i < |s| ==> !PromptSpecial(s[i])
    decreases |s|
  {
    if |s| > 0 {
      NoSpecials(s[1..]);
      assert forall i :: 1 <= i < |s| ==> s[i] == s[1..][i - 1];
    }
  }

  /** `_escape` changes a prompt exactly when it holds a special
      character. */
  lemma PromptEscapeChanges(s: seq<char>)
    ensures PromptEscape(s) == s <==> SpecialCount(s) == 0
  {
    if SpecialCount(s) == 0 {
      NoSpecials(s);
      PromptEscapePlain(s);
    }
  }

  /** `t` is the end of `s`. */
  predicate EndsWith(s: seq<char>, t: seq<char>)
  {
    |t| <= |s| && s[|s| - |t|..] == t
  }

  /** What the payload text ends with after the question's string: the
      closing braces and brackets of the part, the parts array, the
      content, the contents array and the body. */
  const QuestionClose: seq<char> := "}]}]}"

  /** For every question whose payload fits: the payload ends with the
      `contents` member, and within it with the question escaped twice,
      once by `_escape` and once by the builder; the parser's string
      branch reads that string back only once-escaped, which is the
      question itself exactly when the question has no special
      character. */
  lemma QuestionTwiceEscaped(buf: seq<char>, question: CStr, c: Config, cap: int)
    requires |buf| >= 1 && |Render(Payload(question, c, cap))| <= |buf| - 1
    ensures var s := PayloadText(buf, question, c, cap);
      var e := Escape(PromptEscape(question));
      && EndsWith(s, MemberText(Member(ContentsKey, Contents(question))) + "}")
      && EndsWith(s, Quote(e) + QuestionClose)
      && StreamParser.StringValue(s, |s| - |e| - 6) == StreamParser.Done(PromptEscape(question), |s| - 5)
    ensures PromptEscape(question) == question <==> SpecialCount(question) == 0
  {
    hide *;
    var s := PayloadText(buf, question, c, cap);
    var e := Escape(PromptEscape(question));
    var m := MemberText(Member(ContentsKey, Contents(question))) + "}";
    var close := QuestionClose;
    CloseLength();
    var a := PayloadEnds(buf, question, c, cap);
    ContentsEnd(question);
    EndsWithSplit(m, Quote(e) + close);
    var x := m[..|m| - |Quote(e) + close|];
    EndsWithJoin(a, m);
    AppendAssoc(a, x, Quote(e) + close);
    QuotedTail(s, a + x, e, close, PromptEscape(question));
    PromptEscapeChanges(question);
  }

  lemma CloseLength()
    ensures |QuestionClose| == 5
  {
  }

  lemma AppendAssoc(a: seq<char>, x: seq<char>, y: seq<char>)
    ensures a + (x + y) == (a + x) + y
  {
  }

  lemma EndsWithSplit(s: seq<char>, t: seq<char>)
    requires EndsWith(s, t)
    ensures s == s[..|s| - |t|] + t
  {
  }

  lemma EndsWithJoin(a: seq<char>, t: seq<char>)
    ensures EndsWith(a + t, t)
  {
    assert (a + t)[|a|..] == t;
  }

  /** A text that ends with a quoted escaped string and `close`: it ends
      with both, and the string branch entered after the opening quote
      reads the string back. */
  lemma QuotedTail(s: seq<char>, x: seq<char>, e: seq<char>, close: seq<char>, t: seq<char>)
    requires e == Escape(t) && s == x + (Quote(e) + close) && |close| == 5
    ensures EndsWith(s, Quote(e) + close)
    ensures StreamParser.StringValue(s, |s| - |e| - 6) == StreamParser.Done(t, |s| - 5)
  {
    var body := e + "\"";
    var dq: seq<char> := "\"";
    hide *;
    QuoteParts(e, dq, body);
    EndsWithJoin(x, Quote(e) + close);
    StreamParser.HoldsSlice(s, |x| + 1, body);
    StreamSearch.StringValueEscaped(s, |x| + 1, t);
  }

  lemma QuoteParts(e: seq<char>, dq: seq<char>, body: seq<char>)
    requires dq == "\"" && body == e + "\""
    ensures Quote(e) == dq + body && |dq| == 1
  {
  }

  /** The payload text ends with the `contents` member and the closing
      brace: `contents` is the last member written. */
  lemma PayloadEnds(buf: seq<char>, question: CStr, c: Config, cap: int) returns (a: seq<char>)
    requires |buf| >= 1 && |Render(Payload(question, c, cap))| <= |buf| - 1
    ensures PayloadText(buf, question, c, cap) == a + (MemberText(Member(ContentsKey, Contents(question))) + "}")
  {
    var ms := Body(question, c, cap);
    var cm := Member(ContentsKey, Contents(question));
    hide *;
    PayloadFits(buf, question, c, cap);
    PayloadIsBody(question, c, cap);
    BodyLast(question, c, cap);
    var front := ms[..|ms| - 1];
    assert ms == front + [cm];
    BuilderRender.ObjectText(ms);
    RenderMembersSnoc(front, cm, true);
    a := "{" + RenderMembers(front, true) + ",";
  }

  lemma PayloadIsBody(question: CStr, c: Config, cap: int)
    ensures Payload(question, c, cap) == Object(Body(question, c, cap))
  {
  }

  /** The body has at least two members and ends with `contents`. */
  lemma BodyLast(question: CStr, c: Config, cap: int)
    ensures var ms := Body(question, c, cap);
      |ms| >= 2 && ms[|ms| - 1] == Member(ContentsKey, Contents(question))
  {
  }

  /** A member added at the end is written after a comma. */
  lemma {:induction false} RenderMembersSnoc(ms: seq<Member>, m: Member, first: bool)
    requires |ms| > 0
    ensures RenderMembers(ms + [m], first) == RenderMembers(ms, first) + "," + MemberText(m)
    decreases |ms|
  {
    hide *;
    var all := ms + [m];
    assert all[0] == ms[0];
    RenderMembersCons(all, first);
    RenderMembersCons(ms, first);
    if |ms| == 1 {
      assert all[1..] == [m] && ms[1..] == [] && [m][1..] == [];
      RenderMembersCons([m], false);
      RenderMembersNone(false);
    } else {
      assert all[1..] == ms[1..] + [m];
      RenderMembersSnoc(ms[1..], m, false);
    }
  }

  lemma RenderMembersCons(ms: seq<Member>, first: bool)
    requires |ms| > 0
    ensures RenderMembers(ms, first)
         == (if first then "" else ",") + MemberText(ms[0]) + RenderMembers(ms[1..], false)
  {
    hide MemberText;
  }

  lemma RenderMembersNone(first: bool)
    ensures RenderMembers([], first) == []
  {
  }

  /** The three members on the way from `contents` down to the question:
      the content's role and parts, and the one part's text. */
  lemma ContentsShape(question: CStr) returns (rm: Member, pm: Member, tm: Member)
    ensures Contents(question) == Array([Object([rm, pm])])
    ensures pm.value == Array([Object([tm])])
    ensures tm.value == Leaf(Str(PromptEscape(question)))
  {
    tm := Member("text", StrLeaf(PromptEscape(question)));
    pm := Member("parts", Array([Object([tm])]));
    rm := Member("role", StrLeaf("user"));
    assert Parts(question) == [pm];
    assert [rm] + [pm] == [rm, pm];
  }

  /** The `contents` member and the body's closing brace end with the
      question's string and `QuestionClose`. */
  lemma ContentsEnd(question: CStr)
    ensures EndsWith(MemberText(Member(ContentsKey, Contents(question))) + "}",
                     Quote(Escape(PromptEscape(question))) + QuestionClose)
  {
    var q := Quote(Escape(PromptEscape(question)));
    var rm, pm, tm := ContentsShape(question);
    var cm := Member(ContentsKey, Contents(question));
    var t1 := q + "}";
    var t2 := t1 + "]";
    var t3 := t2 + "}";
    var t4 := t3 + "]";
    var t5 := t4 + "}";
    hide *;
    CloseText(q, t1, t2, t3, t4, t5);
    LeafEnd(tm, PromptEscape(question));
    ObjectOneEnd(tm, q);
    ArrayOneEnd(Object([tm]), t1);
    MemberEnd(pm, t2);
    ObjectTwoEnd(rm, pm, t2);
    ArrayOneEnd(Object([rm, pm]), t3);
    MemberEnd(cm, t4);
    BraceEnd(MemberText(cm), t4);
  }

  lemma CloseText(q: seq<char>, t1: seq<char>, t2: seq<char>, t3: seq<char>, t4: seq<char>, t5: seq<char>)
    requires t1 == q + "}" && t2 == t1 + "]" && t3 == t2 + "}" && t4 == t3 + "]" && t5 == t4 + "}"
    ensures t5 == q + QuestionClose
  {
  }

  lemma LeafEnd(m: Member, x: CStr)
    requires m.value == Leaf(Str(x))
    ensures EndsWith(MemberText(m), Quote(Escape(x)))
  {
    EndsWithJoin(Quote(Escape(m.key)) + ":", Quote(Escape(x)));
  }

  /** A member's text ends as its value's rendering does. */
  lemma MemberEnd(m: Member, t: seq<char>)
    requires EndsWith(Render(m.value), t)
    ensures EndsWith(MemberText(m), t)
  {
    var head := Quote(Escape(m.key)) + ":";
    var v := Render(m.value);
    assert MemberText(m) == head + v;
    hide *;
    PrefixEnd(head, v, t);
  }

  lemma PrefixEnd(head: seq<char>, v: seq<char>, t: seq<char>)
    requires EndsWith(v, t)
    ensures EndsWith(head + v, t)
  {
    EndsWithSplit(v, t);
    assert head + v == (head + v[..|v| - |t|]) + t;
    EndsWithJoin(head + v[..|v| - |t|], t);
  }

  /** Wrapping keeps the end, followed by the closing piece. */
  lemma WrapEnd(x: seq<char>, open: seq<char>, close: seq<char>, t: seq<char>)
    requires EndsWith(x, t)
    ensures EndsWith(open + x + close, t + close)
  {
    EndsWithSplit(x, t);
    var y := x[..|x| - |t|];
    assert open + x + close == (open + y) + (t + close);
    EndsWithJoin(open + y, t + close);
  }

  lemma BraceEnd(x: seq<char>, t: seq<char>)
    requires EndsWith(x, t)
    ensures EndsWith(x + "}", t + "}")
  {
    WrapEnd(x, [], "}", t);
    assert [] + x == x;
  }

  lemma ObjectOneEnd(m: Member, t: seq<char>)
    requires EndsWith(MemberText(m), t)
    ensures EndsWith(Render(Object([m])), t + "}")
  {
    assert [m][1..] == [];
    assert RenderMembers([m], true) == MemberText(m);
    hide *;
    BuilderRender.ObjectText([m]);
    WrapEnd(MemberText(m), "{", "}", t);
  }

  lemma Regroup(t1: seq<char>, t2: seq<char>)
    ensures "{" + (t1 + "," + t2) + "}" == ("{" + t1 + ",") + t2 + "}"
  {
  }

  lemma ArrayOneEnd(j: Json, t: seq<char>)
    requires EndsWith(Render(j), t)
    ensures EndsWith(Render(Array([j])), t + "]")
  {
    assert [j][1..] == [];
    assert RenderItems([j], true) == Render(j);
    assert Render(Array([j])) == "[" + Render(j) + "]";
    hide *;
    WrapEnd(Render(j), "[", "]", t);
  }

  lemma ObjectTwoEnd(m1: Member, m2: Member, t: seq<char>)
    requires EndsWith(MemberText(m2), t)
    ensures EndsWith(Render(Object([m1, m2])), t + "}")
  {
    var t1, t2 := MemberText(m1), MemberText(m2);
    hide *;
    BuilderRender.ObjectText([m1, m2]);
    BuilderRender.TwoMemberText(m1, m2);
    Regroup(t1, t2);
    WrapEnd(t2, "{" + t1 + ",", "}", t);
  }
}