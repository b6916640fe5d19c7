# easychars in Dafny

A verified model of the core of easychars, a Go package that guesses the
character set of a byte buffer and converts it to UTF-8. The model covers
three layers:

- **Multi-byte validators** (`multi_byte.dfy`, module `MultiByte`): the
  `nByte` state machines of `isValidGBK`, `isValidGB18030` and `isValidBig5`.
  Each is a method with the source's loop. It is proved to accept exactly
  the inputs that split into well-formed characters of a recursive grammar
  (`GbkText`, `Gb18030Text`, `Big5Text`). Lemmas about those grammars give
  closure under concatenation, the rejection cases, and the inclusions
  Big5 ⊆ GBK ⊆ GB18030 (as the source's byte ranges define them).
- **UTF-16 validators and the UTF-8 encoder** (`unicode.dfy`, module
  `Unicode`): `isValidUTF16BE`/`LE` share one scan, proved equal to a
  grammar of code units. It covers the byte-order-mark fast path (section 3.2
  of RFC 2781) and the surrogate-pair rule exactly as the code writes it.
  `unicodeRuneToUtf8` keeps its bit-by-bit loops and is proved equal to the
  bit patterns of section 3 of RFC 3629. Unlike that section, it also
  encodes the surrogates U+D800 to U+DFFF, as the Go code does. A decoder and a round-trip proof in both
  directions are its partners.
- **Charset names, conversion and detection** (`charset.dfy`, module
  `Charset`): label normalisation and alias rewriting, the registry lookup
  order, the error mapping of the name lookup, the error paths of the
  conversion helpers, and the detection pipeline. The pipeline builds one
  `Result` object per detector candidate, and the top candidate's
  confidence may be overwritten in place. The statistical detector, the
  WHATWG and IANA registries and the streaming transcoder are not modelled.
  They are the function fields of a `Library` value, so every property
  holds for any answers they give.

`base.dfy` (module `Base`) holds the shared vocabulary: Go's `byte`,
`Option`, a value-or-error `Outcome`, and the two byte orders.

## Model

| member | source | states |
|---|---|---|
| MultiByte.IsValidGbk | multi_byte.go:4-25 | returns true exactly when the input splits into GBK characters: an ASCII byte, or a lead byte in [0x81,0xFE] followed by a trail byte in [0x40,0xFE] other than 0x7F |
| MultiByte.GbkTextHead | multi_byte.go:9-21 | the first byte alone decides whether the first GBK character takes one or two bytes |
| MultiByte.GbkConcat | multi_byte.go:5-24 | after an accepted prefix the whole input is accepted exactly when the rest is, so GBK texts are closed under concatenation |
| MultiByte.GbkRejections | multi_byte.go:12-24 | after any accepted prefix, a byte 0x80 or 0xFF in state 1, a lead byte at the end, or a lead byte followed by a bad trail byte rejects the input |
| MultiByte.GbkExamples | multi_byte.go:9-21 | [0x7F] and [0x81,0x40] and "你好" in GBK are accepted; [0x80] and [0x81,0x7F] are rejected |
| MultiByte.IsValidGb18030 | multi_byte.go:28-69 | returns true exactly when the input splits into GB18030 characters: ASCII, a GBK pair, or lead-digit-lead-digit |
| MultiByte.Gb18030TextHead | multi_byte.go:32-65 | the first two bytes decide the length of the first GB18030 character |
| MultiByte.Gb18030Concat | multi_byte.go:29-68 | after an accepted prefix the whole input is accepted exactly when the rest is; closure under concatenation |
| MultiByte.Gb18030Rejections | multi_byte.go:36-68 | after any accepted prefix: a bad first byte, an input ending in state 2, 3 or 4, or a second byte that is neither trail nor digit rejects |
| MultiByte.Gb18030FourByte | multi_byte.go:46-65 | after a lead byte and a digit, four bytes are accepted exactly when the third is in [0x81,0xFE] and the fourth in [0x30,0x39] |
| MultiByte.GbkWithinGb18030 | multi_byte.go:41-45 | every input isValidGBK accepts is accepted by isValidGB18030 |
| MultiByte.IsValidBig5 | multi_byte.go:72-93 | returns true exactly when the input splits into Big5 characters: ASCII, or a lead byte followed by a trail in [0x40,0x7E] or [0xA1,0xFE] |
| MultiByte.Big5TextHead | multi_byte.go:76-89 | the first byte alone decides whether the first Big5 character takes one or two bytes |
| MultiByte.Big5Concat | multi_byte.go:73-92 | after an accepted prefix the whole input is accepted exactly when the rest is; closure under concatenation |
| MultiByte.Big5Rejections | multi_byte.go:80-92 | after any accepted prefix: a bad first byte, a dangling lead byte, or a bad trail byte rejects |
| MultiByte.Big5WithinGbk | multi_byte.go:85-89 | every input isValidBig5 accepts is accepted by isValidGBK |
| MultiByte.AsciiAccepted | multi_byte.go:5-11 | the empty input and every all-ASCII input pass all three validators |
| Unicode.CodeUnit | unicode.go:48 | the unit assembled from two bytes is below 0x10000, with the first byte as high half in big endian and the second in little endian |
| Unicode.ValidateUtf16 | unicode.go:46-61 | the is_surrogate_pairs scan returns true exactly for non-empty even-length inputs that start with the byte-order mark or split into units below 0xD800 and (unit ≥ 0xD800, low surrogate) pairs |
| Unicode.IsValidUtf16BE | unicode.go:26-62 | the big-endian validator accepts exactly `Utf16Valid(content, BigEndian)` |
| Unicode.IsValidUtf16LE | unicode.go:67-104 | the little-endian validator accepts exactly `Utf16Valid(content, LittleEndian)` |
| Unicode.IsValidUtf16 | unicode.go:18-23 | reports both byte orders, each computed on its own, and their disjunction |
| Unicode.Utf16RejectsEmptyAndOdd | unicode.go:27-32 | empty and odd-length inputs are rejected in both byte orders |
| Unicode.Utf16BomAccepted | unicode.go:34-37 | an even-length input starting FE FF is valid big endian, one starting FF FE valid little endian, whatever follows, and isValidUTF16 reports true for either |
| Unicode.PairedUnitsHead | unicode.go:49-59 | the first unit alone decides whether the scan consumes one unit or a pair |
| Unicode.PairedUnitsConcat | unicode.go:46-61 | after an accepted prefix the BOM-less scan accepts the whole exactly when it accepts the rest |
| Unicode.BelowD800Accepted | unicode.go:55-59 | inputs made only of units below 0xD800 are accepted |
| Unicode.DanglingOpenerRejected | unicode.go:50-61 | a unit in [0xD800,0xFFFF] that is last, or is not followed at once by a unit in [0xDC00,0xDFFF], rejects the input |
| Unicode.OpenerRangeExamples | unicode.go:56 | U+E000 followed by "A" is rejected in big endian, while two lone low surrogates are accepted |
| Unicode.PairedUnitsSwap | unicode.go:88-103 | the little-endian scan on an input is the big-endian scan on that input with each byte pair swapped |
| Unicode.Utf16LeIsSwappedBe | unicode.go:76 | isValidUTF16LE(s) equals isValidUTF16BE of s with each byte pair swapped |
| Unicode.Utf16BeIsSwappedLe | unicode.go:34 | isValidUTF16BE(s) equals isValidUTF16LE of s with each byte pair swapped |
| Unicode.LowBitsIsMod | unicode.go:114-120 | OR-ing bit j of x into an accumulator for every j below k collects x mod 2^k |
| Unicode.UnicodeRuneToUtf8 | unicode.go:107-166 | the output follows the RFC 3629 bit patterns, surrogates included, and is empty above 0x10FFFF |
| Unicode.EncodeTwoBytes | unicode.go:111-123 | the 11-step loop builds 110xxxxx 10xxxxxx from u div 64 and u mod 64 |
| Unicode.EncodeThreeBytes | unicode.go:124-140 | the 16-step loop builds the three-byte RFC 3629 bit pattern, surrogates included |
| Unicode.EncodeFourBytes | unicode.go:141-161 | the 21-step loop builds the four-byte RFC 3629 bit pattern |
| Unicode.Utf8EncodeLength | unicode.go:108-165 | the output has 1, 2, 3 or 4 bytes by range of u, and none above 0x10FFFF |
| Unicode.Utf8EncodeShape | unicode.go:112-160 | the lead byte has the length pattern and the high bits of u; every other byte is a continuation byte, the last carrying u mod 64 |
| Unicode.Utf8RoundTrip | unicode.go:111-161 | decoding the output gives u back for every u up to 0x10FFFF, surrogates included |
| Unicode.Utf8DecodeEncode | unicode.go:111-161 | every byte sequence the decoder accepts is the encoder's output for the decoded value |
| Charset.TrimSpaceRemovesOnlySpace | charset.go:152 | trimming keeps an infix of the name and removes only white space around it |
| Charset.NormalizeIdempotent | charset.go:152-153 | trimming and lower-casing a label twice is the same as once |
| Charset.Contains | charset.go:209 | true exactly when the substring occurs at some position |
| Charset.GetEncodingFromCharsetName | charset.go:151-176 | the only error it returns is InvalidName |
| Charset.GetEncodingNormalizes | charset.go:152-154 | resolution depends only on the trimmed, lower-cased label |
| Charset.Gb18030AliasesAgree | charset.go:156-157 | "gb-18030", "gb_18030" and "gb 18030" resolve exactly as "gb18030" does, whatever the registries hold |
| Charset.Utf32LabelsIgnoreRegistries | charset.go:161-165 | each of the nine little-endian and nine big-endian UTF-32 spellings resolves to UTF-32 of that byte order, without consulting a registry |
| Charset.LabelSpellingExample | charset.go:152-165 | " UTF32_LE\t" and "\nUtf-32-BE " resolve to the UTF-32 encodings |
| Charset.RegistryOrder | charset.go:168-171 | any other label takes the WHATWG registry's answer when it has one, and the IANA registry's only otherwise |
| Charset.GetEncodingFailsIffUnknown | charset.go:168-175 | resolution fails exactly when the label is not a UTF-32 spelling and both registries miss it |
| Charset.GetDecoderFromCharsetName | charset.go:185-192 | succeeds exactly when the encoding lookup does, with that encoding's decoder, and otherwise fails with InvalidName |
| Charset.ResolvedDecoderIsNotNop | charset.go:190 | a resolved label never yields the do-nothing decoder |
| Charset.GetCharsetNameFromEncoding | charset.go:201-216 | the IANA name when IANA succeeds, else the WHATWG name; an error exactly when both fail, Unsupported if the WHATWG message contains "not supported" and Unknown otherwise |
| Charset.ToUtf8WithDecoder | charset.go:112-121 | a failed read gives empty output and WrongDecoder; a successful one gives the decoded bytes and no error |
| Charset.NopDecoderKeepsContent | charset.go:112-121 | when the transcoder passes bytes through the do-nothing decoder, conversion with it returns the content unchanged |
| Charset.ToUtf8WithEncoding | charset.go:107-109 | with the encoding's decoder, a failed read gives empty output and WrongDecoder, a successful one the decoded bytes and no error |
| Charset.ToUtf8WithCharsetName | charset.go:134-140 | an unresolvable name returns the original content with InvalidName; otherwise the conversion with the resolved encoding |
| Charset.Utf32LabelConversion | charset.go:161-162 | converting with a little-endian UTF-32 label uses the UTF-32LE decoder, whatever the registries hold |
| Charset.Result.constructor | charset.go:49-55 | a new Result copies the candidate's charset, language and confidence, with the do-nothing decoder and not convertible |
| Charset.EnrichedIsValid | charset.go:53-60 | an enriched Result is convertible exactly when its decoder is not the do-nothing one |
| Charset.NewResult | charset.go:49-60 | the Result built for one candidate carries the candidate and its label's decoder, or Nop and not convertible |
| Charset.DetectAll | charset.go:46-64 | one fresh, distinct Result per detector candidate, in the detector's order, each enriched; the detector's error is passed on |
| Charset.DetectEncoding | charset.go:67-72 | always reports no error; a null result when detection failed, otherwise the enriched first candidate |
| Charset.DetectAndConvertToUtf8 | charset.go:75-104 | content unchanged when the top Result is not convertible or its lower-cased label is "", "unknown", "utf-8" or "utf8"; confidence becomes 20 exactly for a convertible GB-family label on content that is not valid GBK; otherwise the output and error of converting with the Result's decoder |

## Behaviour that follows the code rather than its comments

- `isValidUTF16BE` and `isValidUTF16LE` (unicode.go:56, 98) treat every unit
  in [0xD800, 0xFFFF] as one that must be followed by a low surrogate. Their
  own comments say 0xD800–0xDBFF. The model follows the code, so a lone low
  surrogate or any unit from 0xE000 up must be followed by a unit in
  [0xDC00, 0xDFFF]. `Unicode.OpenerRangeExamples` exhibits both effects.
- The little-endian scan's comment says it assumes big endian. The code
  assembles little-endian units, and so does the model.
- `DetectAndConvertToUtf8` tests `Convertible` before it looks at the label
  (charset.go:82-84). A GB-family label that does not resolve therefore
  never has its confidence cut, and an unresolvable "utf-8" label returns
  early through the same test.
- `DetectEncoding` declares a second `err` inside its `if`
  (charset.go:68), so a detector error never reaches its caller: the result
  is null and the error is nil.
- `ToUtf8WithDecoder` returns no bytes on a failed read (charset.go:118).
  So `DetectAndConvertToUtf8` returns empty content with WrongDecoder, even
  though it first sets the output to the input.

## Left out

- IsValidUTF8 (unicode.go:8-10) is a one-line wrapper over Go's own UTF-8 check and is not modelled.
- The statistical detector, `htmlindex`, `ianaindex`, `transform.NewReader` and `io.ReadAll` are foreign libraries, with no behaviour assumed. They enter as the function fields of `Charset.Library`: `detect`, `htmlGet`, `ianaEncoding`, `ianaName`, `htmlName`, and `transcode`, which stands for reading through `transform.NewReader` with `io.ReadAll`.
- The UTF-32 encodings of `utf32` are the constructor `Utf32(order)` of `Charset.Encoding`; what their decoders produce is left to `transcode`.
- Encodings handed out by the registries are opaque (`Registered(id)`). What their decoders produce is the `transcode` function's business.
- The single-byte codepage decoders and their character tables are not part of this model.
- charset_test.go reads fixture files from disk; it is I/O and not modelled.
- `strings.ToLower` and `strings.TrimSpace` are modelled on ASCII only: ASCII letters and the six ASCII white-space characters. Non-ASCII case mapping and Unicode spaces such as U+0085 and U+00A0 are not modelled; every label the code compares is ASCII.
- Charset.GetEncodingFromCharsetName: its own contract fixes only the error value. The alias rewriting, the UTF-32 cases and the registry order are stated by the lemmas listed with it. This keeps the solver's work on the label literals out of every caller's proof.
- Unicode.UnicodeRuneToUtf8: takes only non-negative runes. For negative runes Go's `%` and `byte` truncation give results the function was not written for.
- Charset.DetectEncoding: a successful detection with no candidates makes the Go code panic on `res[0]`. The model requires at least one candidate in that case.
- Charset.DetectAndConvertToUtf8: a failed detection makes the Go code dereference a nil Result, and an empty candidate list panics in `DetectEncoding`. The model requires a successful detection with a candidate. Its check of `DetectEncoding`'s error is left out, because that error is always nil.
- Go's distinction between a nil slice and an empty slice is not modelled: both are the empty sequence.
- Concurrency and object identity beyond freshness are not modelled. The Results of one `DetectAll` call are proved fresh and pairwise distinct.
