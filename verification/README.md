# Gemini_AI core in Dafny

A model of the data-handling core of the Gemini_AI library for ESP8266/ESP32
boards, which talks to Google's Gemini service over HTTPS:

- **JSON writing.** `ESP8266StaticJsonBuilder` writes JSON into a fixed
  buffer. The model (`JsonBuilder`, `BuilderRender`) covers its state, every
  primitive, the escape rules, the depth limit and truncation, and it proves
  what a sequence of builder calls writes.
- **JSON reading.** `ESP8266StreamJsonParser` reads a JSON stream
  character by character. The model (`StreamParser`, `StreamSearch`) covers
  `find`, `getValueStream` and the private skip and search routines. It
  proves that on a document the builder wrote in compact mode, `find`
  lands on the first member with the key in depth-first order. This holds
  when the keys need no escaping, no leaf is a raw `value(char)`, and every
  float's text looks like a number.
- **The older client's text handling** (`LegacyText`): `_decodeUnicode`
  and `_extractContent`, which pick the answer out of a response line by
  line.
- **The command line's settings image** (`Eeprom`): `saveToEEPROM`,
  `loadFromEEPROM` and `_update`.
- **The newer client's request side** (`GeminiClient`): `_escape` and
  `_buildGeminiPayload`.

Shared pieces live in `Chars` (C strings, hex digits, UTF-16 surrogates,
UTF-8) and `Json` (the value tree, its compact text, the builder's escape
and decimal numbers).

Representation choices:

- **Streams and buffers.** A stream is a sequence of characters and a
  cursor. Reading past the end yields no character and does not move,
  which is where the source's loops spin. A builder's buffer is a sequence
  of characters of the buffer's capacity, whose written text is the prefix
  up to the cursor.
- **Searches.** The recursive searches take a fuel argument. Running out
  of fuel is a result of its own (`OutOfFuel`), and `FindKeyFuel` shows
  that extra fuel never changes an answer. A string value whose closing
  quote never arrives is the outcome `Blocked`.
- **Numbers.** Floating point values are carried as the text the builder
  would print, plus a flag saying whether they are zero. EEPROM floats are
  their 32-bit patterns. `String::toInt` and `String::toFloat` are a
  parameter (`Eeprom.Conv`).

Two behaviours of the code worth noting:

- A string value cut short by a full buffer is closed with a quote when
  the escape loop leaves a byte for it, so truncated output is not always
  a prefix of the full output. `JsonBuilder.TruncatedStringIsClosed` shows
  this. When the loop uses up the room, the closing quote is dropped. With
  three bytes left, a string starting with a quote comes out as `"\"`, and
  the only quote after the opening one is escaped.
  `JsonBuilder.TruncatedStringUnclosed` shows this.
- `beginObject`/`beginArray` at the depth limit write nothing at all, not
  even the delimiter. See `JsonBuilder.Begin`.

## Model

| member | source | states |
|---|---|---|
| Chars.UntilNul | src/ESP8266StreamJsonParser.hpp:269 | what a C string comparison sees: the prefix before the first NUL, which is followed by NUL when shorter than the text |
| Chars.Hex4 | src/ESP8266StreamJsonParser.hpp:90-93 | four hex digits of a code unit that read back to the same number |
| Chars.SurrogatesRoundTrip | src/ESP8266StreamJsonParser.hpp:107 | combining a high and a low surrogate and splitting the code point again are inverse (section 2 of RFC 2781) |
| Chars.CombineSurrogates | src/Gemini_AI.cpp:556-558 | a surrogate pair always denotes a supplementary code point, 0x10000 to 0x10FFFF |
| Chars.Utf8Bmp | src/ESP8266StreamJsonParser.hpp:116-125 | one, two or three bytes by the code unit's range |
| Chars.Utf8BmpRoundTrip | src/ESP8266StreamJsonParser.hpp:116-125 | a non-surrogate code unit becomes well-formed UTF-8 that decodes back to it |
| Chars.Utf8LoneSurrogateIllFormed | src/ESP8266StreamJsonParser.hpp:116-125 | a lone surrogate is written as three bytes that RFC 3629 forbids |
| Chars.Utf8SupplementaryRoundTrip | src/ESP8266StreamJsonParser.hpp:107-111 | a combined pair becomes well-formed four-byte UTF-8 that decodes back to the code point |
| Json.EscapeChar | src/ESP8266StaticJsonBuilder.hpp:90-97 | quote, backslash, line feed, tab and carriage return become a backslash and a character; every other character, other control characters included, is copied; no NUL is introduced |
| Json.EscapeAppend | src/ESP8266StaticJsonBuilder.hpp:88-98 | escaping works character by character: escaping a concatenation concatenates the escapes |
| Json.EscapeIdentity | src/ESP8266StaticJsonBuilder.hpp:90-97 | text with nothing to escape is written unchanged |
| Json.Digits | src/ESP8266StaticJsonBuilder.hpp:105-109 | decimal digits without a leading zero whose value is the number |
| Json.DecimalRoundTrip | src/ESP8266StaticJsonBuilder.hpp:105-109 | the `%ld` text of an integer reads back to that integer |
| JsonBuilder.Init | src/ESP8266StaticJsonBuilder.hpp:125-131 | a fresh builder is empty and terminated, at depth 0, with every level empty and no key pending, and has capacity minus one bytes of room |
| JsonBuilder.SetPretty | src/ESP8266StaticJsonBuilder.hpp:133 | switching the mode keeps the text and the depth |
| JsonBuilder.Length | src/ESP8266StaticJsonBuilder.hpp:232-233 | the length is that of the written text, always below the capacity |
| JsonBuilder.WriteChar | src/ESP8266StaticJsonBuilder.hpp:49-53 | a character is added when room is left, and nothing else changes |
| JsonBuilder.WriteLiteral | src/ESP8266StaticJsonBuilder.hpp:55-61 | the literal is appended, cut to the room left, and the buffer stays terminated |
| JsonBuilder.WriteLiteralAsWritten | src/ESP8266StaticJsonBuilder.hpp:55-61 | the same text as `WriteLiteral`, but a terminator only when the literal fit |
| JsonBuilder.LiteralLeavesBufferUnterminated | src/ESP8266StaticJsonBuilder.hpp:55-61 | with a three-byte buffer, `true` leaves no NUL anywhere in the buffer, while the corrected writer ends at "tr" |
| JsonBuilder.Chain | src/ESP8266StaticJsonBuilder.hpp:49-61 | two writes in a row append the concatenation, cut to the room the first one started with |
| JsonBuilder.IndentLoop | src/ESP8266StaticJsonBuilder.hpp:63-68 | two spaces per open level, cut to the room left |
| JsonBuilder.BreakLine | src/ESP8266StaticJsonBuilder.hpp:63-72 | in pretty mode a line feed and the indentation, in compact mode nothing |
| JsonBuilder.WriteSeparator | src/ESP8266StaticJsonBuilder.hpp:74-83 | right after a key nothing is written and only the pending key is cleared, otherwise the level stops being empty and a comma goes before every element but the first |
| JsonBuilder.StringFit | src/ESP8266StaticJsonBuilder.hpp:88-89 | every character is copied while at least two bytes are left before it, copying stops at the first point with fewer than two, and the whole string is copied when there is room for it and its quote |
| JsonBuilder.SerializeString | src/ESP8266StaticJsonBuilder.hpp:85-101 | with room, exactly the quoted escaped string; otherwise the quoted escape of the prefix that fits |
| JsonBuilder.TruncatedStringIsClosed | src/ESP8266StaticJsonBuilder.hpp:85-101 | with four bytes left, `"abc"` comes out as `"ab"`, which is closed and not a prefix of the full text |
| JsonBuilder.TruncatedStringUnclosed | src/ESP8266StaticJsonBuilder.hpp:85-101 | with three bytes left, a string starting with a quote comes out as `"\"`, with no closing quote; with one byte left, only the opening quote is written |
| JsonBuilder.SerializeScalar | src/ESP8266StaticJsonBuilder.hpp:103-119 | every scalar is written as its JSON text, in full when there is room; when there is not, a string is its fitting prefix quoted and any other scalar is its text cut to the room left |
| JsonBuilder.Value | src/ESP8266StaticJsonBuilder.hpp:192-203 | the separator and the scalar's text, and with too little room exactly that text cut to the room, with a string's prefix still quoted; afterwards the current level is not empty and has no key pending, and every other level's flags and container kind are unchanged |
| JsonBuilder.Key | src/ESP8266StaticJsonBuilder.hpp:183-190 | the separator, the quoted key, the colon and in pretty mode a space, and with too little room exactly that text cut to the room, with the key's prefix still quoted; the current level is no longer empty and has a key pending, so the next value gets no comma, and every other level's flags and container kind are unchanged |
| JsonBuilder.Begin | src/ESP8266StaticJsonBuilder.hpp:135-159 | at the depth limit nothing changes; below it the separator, the delimiter and in pretty mode a line break are written, cut to the room left, and a new empty level of the right kind starts (one deeper only in pretty mode); the separator's flag changes at the old level are kept and no other level changes |
| JsonBuilder.End | src/ESP8266StaticJsonBuilder.hpp:161-181 | the closing delimiter, after a line break in pretty mode unless the level is empty, is written cut to the room left, and the enclosing level is no longer empty; no other flag or container kind changes |
| BuilderRender.CompactSeparator | src/ESP8266StaticJsonBuilder.hpp:74-83 | in compact mode the separator is a comma unless a key was just written or the level is empty |
| BuilderRender.RenderCompact | src/ESP8266StaticJsonBuilder.hpp:135-203 | the builder calls for a value tree write exactly the tree's compact JSON text when the room suffices |
| BuilderRender.BuildDocument | src/ESP8266StaticJsonBuilder.hpp:125-203 | a fresh compact builder with room for the document ends holding exactly its compact text |
| BuilderRender.ValueArray | src/ESP8266StaticJsonBuilder.hpp:223-230 | the array overload writes the compact text of the array of its elements |
| BuilderRender.NestedExample | src/ESP8266StaticJsonBuilder.hpp:135-190 | in compact mode, where every level shares slot 0, `{"a":{"b":1},"c":2}` is written with its commas and colons in place |
| BuilderRender.ValueArrayExample | src/ESP8266StaticJsonBuilder.hpp:223-230 | `{1, 2, 3}` is written as `[1,2,3]` |
| StreamParser.SkipWsSpan | src/ESP8266StreamJsonParser.hpp:172-181 | whitespace skipping stops at the first non-space character |
| StreamParser.SkipStringBody | src/ESP8266StreamJsonParser.hpp:183-190 | skipping a string stops right after a quote or at the end of the stream |
| StreamParser.SkipLiteral | src/ESP8266StreamJsonParser.hpp:201-209 | a literal or number runs up to the first stop character |
| StreamParser.ParseStringSpan | src/ESP8266StreamJsonParser.hpp:235-246 | a key is the text up to the first quote, with no escape processing, and the quote is consumed |
| StreamParser.SkipToContainer | src/ESP8266StreamJsonParser.hpp:52-56 | `find` discards exactly the characters before the first `{` or `[` |
| StreamParser.Find | src/ESP8266StreamJsonParser.hpp:49-62 | with no `{` or `[` left, the key is reported missing at the end of the stream |
| StreamParser.FindKey | src/ESP8266StreamJsonParser.hpp:248-303 | a hit is just after a colon and never before the starting point |
| StreamParser.FindKeyFuel | src/ESP8266StreamJsonParser.hpp:248-303 | more fuel never changes an answer the search has given |
| StreamParser.OpenArrayAtEndDiverges | src/ESP8266StreamJsonParser.hpp:284-299 | an array still open at the end of the stream is never left |
| StreamParser.TruncatedArrayDiverges | src/ESP8266StreamJsonParser.hpp:282-299 | the truncated document `[1` makes the search run forever |
| StreamParser.SkipObjectDesync | src/ESP8266StreamJsonParser.hpp:213-222 | the quote after an empty string key makes `_skipObject` read past the object's end |
| StreamParser.UnicodeSingle | src/ESP8266StreamJsonParser.hpp:85-93 | a `\u` escape of a code unit that is not a high surrogate gives its UTF-8 bytes and consumes four hex digits |
| StreamParser.UnicodePair | src/ESP8266StreamJsonParser.hpp:94-113 | a high and a low surrogate escape together give the four UTF-8 bytes of the combined code point |
| StreamParser.LoneSurrogateLosesEscape | src/ESP8266StreamJsonParser.hpp:94-115 | after a lone high surrogate, the backslash of a following `\n` is consumed and only the `n` remains |
| StreamParser.LoneSurrogateDropsNext | src/ESP8266StreamJsonParser.hpp:96-115 | after a lone high surrogate, a following `\u` escape that is not a low surrogate is lost |
| StreamParser.NumberValue | src/ESP8266StreamJsonParser.hpp:134-142 | a number is copied up to the first character that cannot be part of one |
| StreamParser.RawContainer | src/ESP8266StreamJsonParser.hpp:143-151 | a container is copied verbatim; copying stops at the first point where the bracket count falls to zero, and never stops while it stays positive |
| StreamParser.StringValue | src/ESP8266StreamJsonParser.hpp:67-133 | a string value ends just after a closing quote |
| StreamSearch.StringValueEscaped | src/ESP8266StreamJsonParser.hpp:67-133 | the string branch gives back exactly the text the builder escaped |
| StreamSearch.EscapedCharInverts | src/ESP8266StreamJsonParser.hpp:75-84 | every two-character escape the builder writes is read back as the character that was escaped |
| StreamSearch.GetStringValue | src/ESP8266StreamJsonParser.hpp:64-133 | streaming a string value the builder wrote gives back its text |
| StreamSearch.GetIntValue | src/ESP8266StreamJsonParser.hpp:134-142 | an integer the builder wrote streams back as its decimal text, which reads back to the integer |
| StreamSearch.GetLiteralValue | src/ESP8266StreamJsonParser.hpp:152-154 | `true`, `false` and `null` stream no characters and are passed over |
| StreamSearch.SkipLeaf | src/ESP8266StreamJsonParser.hpp:192-211 | `_skipValue` passes over a scalar's text exactly |
| StreamSearch.SkipValueAtDelimiter | src/ESP8266StreamJsonParser.hpp:192-211 | `_skipValue` leaves a comma or closing delimiter in place |
| StreamSearch.SearchValue | src/ESP8266StreamJsonParser.hpp:248-303 | on a value the builder wrote, the search finds the first member named by the key in depth-first order, or misses just past the value |
| StreamSearch.SearchItems | src/ESP8266StreamJsonParser.hpp:282-299 | the array loop over written elements agrees with the depth-first reference search |
| StreamSearch.SearchMembers | src/ESP8266StreamJsonParser.hpp:251-281 | the object loop over written members agrees with the depth-first reference search |
| StreamSearch.MatchText | src/ESP8266StreamJsonParser.hpp:248-303 | the position the search reports is where the matched value's text starts |
| StreamSearch.MatchHasKey | src/ESP8266StreamJsonParser.hpp:248-303 | the search finds something exactly when some member at some depth has the key |
| StreamSearch.FindRendered | src/ESP8266StreamJsonParser.hpp:49-62 | `find` on a stream holding a written document after bracket-free text agrees with the reference search |
| StreamSearch.FindThenString | src/ESP8266StreamJsonParser.hpp:49-155 | `find` followed by `getValueStream` gives back the first string member with the key |
| LegacyText.UnicodeAt | src/Gemini_AI.cpp:544-581 | an escape is six characters giving one to three bytes, or twelve giving four |
| LegacyText.DecodeNoBackslash | src/Gemini_AI.cpp:540-587 | text without backslashes comes out unchanged |
| LegacyText.DecodeText | src/Gemini_AI.cpp:540-587 | any text built from characters, `\u` code units and surrogate pairs decodes to its bytes |
| LegacyText.LoneHighSurrogate | src/Gemini_AI.cpp:548-581 | a high surrogate with no low one after it becomes three bytes on its own, and the rest is decoded as usual |
| LegacyText.ReplaceAbsent | src/Gemini_AI.cpp:531-535 | a replacement whose pattern does not occur changes nothing |
| LegacyText.BackslashNBecomesNewline | src/Gemini_AI.cpp:531-535 | the replacement chain turns an escaped backslash followed by `n` into a backslash and a line feed, while the one-pass reading gives a backslash and `n` |
| LegacyText.UnescapeText | src/Gemini_AI.cpp:530-536 | the one-pass unescape reads back the bytes of any string text, two-character escapes included |
| LegacyText.IndexOf | src/Gemini_AI.cpp:509 | a hit is an occurrence of the pattern at or after the starting index |
| LegacyText.IndexOfFirst | src/Gemini_AI.cpp:509-514 | the hit is the first occurrence, and a miss means there is none |
| LegacyText.ScanCloses | src/Gemini_AI.cpp:517-529 | the content scan stops at the first quote preceded by an even run of backslashes |
| LegacyText.NoLineExactly | src/Gemini_AI.cpp:509-510 | the "no content line" answer is given exactly when `"text":` occurs nowhere |
| LegacyText.NoQuoteExactly | src/Gemini_AI.cpp:511-515 | the "no quote" answer is given exactly when no quote follows the colon on that line |
| LegacyText.ContentSpan | src/Gemini_AI.cpp:509-530 | the content starts after the first quote following the colon and ends at the first closing quote or the end of the line |
| LegacyText.ContentOnOneLine | src/Gemini_AI.cpp:511-513 | the content never contains a line feed |
| LegacyText.ExtractRoundTrip | src/Gemini_AI.cpp:508-538 | a response whose first `"text":` line carries a string gives back exactly that string's bytes |
| Eeprom.Le4RoundTrip | src/Gemini_AI.cpp:297-300 | a 32-bit field stored least significant byte first reads back unchanged |
| Eeprom.Int32RoundTrip | src/Gemini_AI.cpp:297 | a signed 32-bit token limit survives its two's complement bytes |
| Eeprom.WriteStr | src/Gemini_AI.cpp:288-291 | writing a string keeps the area's size and moves the address forward |
| Eeprom.Save | src/Gemini_AI.cpp:284-307 | a save keeps the area's size |
| Eeprom.SaveLayout | src/Gemini_AI.cpp:284-303 | the magic byte, the five strings with their NULs and the fixed-size fields lie from address 0, and everything after them is untouched |
| Eeprom.SaveMarks | src/Gemini_AI.cpp:286 | a save always leaves the magic byte |
| Eeprom.NoMagicNoChange | src/Gemini_AI.cpp:311 | without the magic byte a load changes nothing, in the corrected and the as-written version |
| Eeprom.ReadStr | src/Gemini_AI.cpp:313-321 | reading a string never moves the address backwards |
| Eeprom.SaveLoadStrings | src/Gemini_AI.cpp:284-326 | the five strings come back whenever they and their NULs fit the area, even when the fixed-size fields after them do not |
| Eeprom.TailRoundTrip | src/Gemini_AI.cpp:327-333 | the fixed-size fields read back the values saved |
| Eeprom.SaveLoadRoundTrip | src/Gemini_AI.cpp:284-335 | a save followed by the corrected load gives back every setting, whatever the area and the settings held before, when the image fits |
| Eeprom.UpdateUnknown | src/Gemini_AI.cpp:416-418 | an unknown field name changes nothing |
| Eeprom.UpdateString | src/Gemini_AI.cpp:375-394 | a string field's name, with or without a leading underscore, sets that field and nothing else |
| Eeprom.UpdateSwitches | src/Gemini_AI.cpp:407-415 | a switch is on exactly when the value is "enable", and nothing else changes |
| Eeprom.UpdateCaseSensitive | src/Gemini_AI.cpp:401-406 | only `TopP`/`TopK` set the sampling fields; the request body's spelling `topP`/`topK` is rejected |
| Eeprom.LoadAsWrittenKeepsStrings | src/Gemini_AI.cpp:322-326 | the load as written keeps all five current strings whenever none of them is a field name |
| Eeprom.LoadAsWrittenLosesSsid | src/Gemini_AI.cpp:322-326 | a network name saved as "office" is not restored over a current "home" as written, and is by the corrected load |
| Eeprom.LoadByNameIsLoad | src/Gemini_AI.cpp:309-335 | passing each field's name to `_update`, with its save set aside, gives the corrected load |
| GeminiClient.PromptEscape | src/Gemini_AI.hpp:52-71 | the result grows by one per special character and holds no raw control character |
| GeminiClient.PromptRoundTrip | src/Gemini_AI.hpp:52-71 | the escaped prompt reads back to the prompt |
| GeminiClient.PromptEscapePlain | src/Gemini_AI.hpp:58-68 | a prompt without special characters is passed unchanged |
| GeminiClient.LineFeedTwiceEscaped | src/Gemini_AI.hpp:173-176 | a line feed in the question is escaped twice and reaches the payload as a backslash and `n` |
| GeminiClient.TokenLimit | src/Gemini_AI.hpp:74 | the token limit is the smaller of the setting and the cap |
| GeminiClient.ImageModelExactly | src/Gemini_AI.hpp:107 | a model counts as an image model exactly when its name contains "image-generation" |
| GeminiClient.PayloadFits | src/Gemini_AI.hpp:73-185 | with room, the buffer holds exactly the compact text of the payload tree |
| GeminiClient.BodyKeys | src/Gemini_AI.hpp:77-181 | `tools` appears exactly when a tool is on; `generationConfig` and `systemInstruction` appear once, or twice under the source's conditions; `contents` appears once and last |
| GeminiClient.ToolsListed | src/Gemini_AI.hpp:78-96 | Google search comes before code execution, each only when enabled |
| GeminiClient.FirstConfigShape | src/Gemini_AI.hpp:97-116 | the first configuration always has the token limit and the mime type, and asks for images exactly for image models |
| GeminiClient.SecondConfigShape | src/Gemini_AI.hpp:127-154 | the second configuration names a sampling parameter or the token limit exactly when it is not zero |
| GeminiClient.QuestionCarried | src/Gemini_AI.hpp:167-180 | the question, after `_escape`, is the text of the only part of the only content |
| GeminiClient.PromptEscapeChanges | src/Gemini_AI.hpp:52-71 | `_escape` changes a prompt exactly when it holds a special character |
| GeminiClient.QuestionTwiceEscaped | src/Gemini_AI.hpp:167-181 | for every question whose payload fits, the payload ends with the `contents` member, whose string is the question escaped by `_escape` and again by the builder; the string branch of `getValueStream` reads back the once-escaped question, which is the question exactly when it has no special character |

## Left out

- Network, WiFi, HTTP, TLS, the speech output, `Serial` and `delay` are left out. The stream's waiting is reduced to reading a sequence, and a wait that would never end is the outcome `Blocked`.
- The `_Commands` command line dispatcher is left out. It is input handling around `_update` and the save/load pair, which are modelled.
- Floating point formatting is not modelled. A float is the text the builder would print plus a zero flag, and in the settings image it is a 32-bit pattern.
- `String::toInt` and `String::toFloat` are not modelled. They are the parameter `Eeprom.Conv`.
- The `long long` overload of `value` is written like the `long` one. The 32-bit `long` range is not enforced, since the model's integers are unbounded.
- StreamParser.FindKey: the search takes fuel. Running out is a separate result, so a search that never ends (see `OpenArrayAtEndDiverges`) is told apart from a miss rather than modelled as a hang.
- LegacyText.DecodeUnicode: only escapes whose four characters are hex digits or contain a non-hex character are modelled. The quirks of `strtol` (leading blanks, a sign, a `0x` prefix) are left out.
- A NUL byte inside a string read from a stream is not modelled: texts are C strings.
- Eeprom.Load: a switch byte other than 0 or 1, which a save never writes, is read as on. C++ leaves reading such a byte into a `bool` undefined.
- Eeprom.LoadAsWritten: each accepted `_update` also saves the settings and prints, and the save rewrites bytes the load has not read yet. The model leaves this out. It only happens when a current string value is itself a field name, which `Eeprom.LoadAsWrittenKeepsStrings` excludes and `Eeprom.LoadAsWrittenLosesSsid` does not meet.
- Eeprom.LoadByName: the save made by each accepted `_update` is left out. With it, the save after the first field would overwrite the strings not yet read with the current ones. So keying `_update` by name is not a repair on its own, and the intended load assigns the fields directly, as `Eeprom.Load` does.
- GeminiClient.PayloadFits: only the case where the payload fits the buffer is stated. For a payload cut short, the model states nothing about the text as a whole. Each builder call's contract gives what that call writes on its own.
- Eeprom.Save: its own contract states only that the area keeps its size. The layout is stated by `Eeprom.SaveLayout` and the round trip by `Eeprom.SaveLoadRoundTrip`.
- Eeprom.WriteStr: its own contract states only the size and the forward move. What it writes is stated through `Eeprom.SaveLayout`.
- Eeprom.ReadStr: its own contract states only that the address does not move back. What it reads is stated through `Eeprom.SaveLoadRoundTrip`.
- StreamParser.StringValue: its own contract states only where the string ends. What it emits is stated by `StreamSearch.StringValueEscaped` and the `\u` lemmas.
- A null `systemInstruction` is not modelled. The instruction is a possibly empty string.
- JsonBuilder.Value, JsonBuilder.Begin, JsonBuilder.End, JsonBuilder.SerializeScalar, JsonBuilder.IndentLoop and BuilderRender.Run are built on the corrected `WriteLiteral`. After a literal cut short, their promise of a NUL at the cursor does not hold of the code as written (see Findings).
- StreamParser.StringValue / UnicodeEscape: a `\u` not followed by four hex digits ends the read with `BadHex`. This includes a stream that ends inside the escape. The code instead passes on whatever `strtol` makes of the characters it read, NULs included, and carries on.
- StreamSearch.FindRendered and StreamSearch.SearchValue: the claim that `find` lands on the first member with the key is proved only for compact text. It is not proved for pretty-printed text, for a response laid out with other whitespace, for keys that need escaping, for raw `value(char)` leaves, or for floats whose text does not look like a number.

## Findings

| source | as written | input that shows it | evidently intended | confidence | as-written member | corrected member |
|---|---|---|---|---|---|---|
| src/ESP8266StaticJsonBuilder.hpp:55-61 | `writeLiteral` returns as soon as only one byte is left, before storing the terminator | a three-byte buffer whose last byte is not NUL, then the literal `true` | the terminator is stored on every exit, as `writeChar` does | high, not executed | JsonBuilder.WriteLiteralAsWritten, JsonBuilder.LiteralLeavesBufferUnterminated | JsonBuilder.WriteLiteral |
| src/Gemini_AI.cpp:322-326 | `loadFromEEPROM` passes each field's current value to `_update` as the key, so the saved strings are read and dropped | settings saved with network name "office", loaded while the current name is "home" | each saved string is restored into its own field | high, not executed | Eeprom.LoadAsWritten, Eeprom.LoadAsWrittenLosesSsid | Eeprom.Load, Eeprom.SaveLoadRoundTrip, Eeprom.LoadByNameIsLoad |
| src/Gemini_AI.cpp:531-535 | `_extractContent` replaces `\n`, `\r` and `\t` before `\\`, so the second half of an escaped backslash starts a new escape | the content `\\n` (an escaped backslash, then the letter n) | every escape read once from left to right, giving a backslash and `n` | high, not executed | LegacyText.UnescapeAsWritten, LegacyText.BackslashNBecomesNewline | LegacyText.Unescape, LegacyText.UnescapeText, LegacyText.ExtractRoundTrip |
