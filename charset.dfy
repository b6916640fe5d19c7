/**
 * The public face of easychars (charset.go): charset-name resolution, the
 * conversion helpers, and the detection pipeline that enriches each detector
 * candidate with a decoder and arbitrates the top candidate.
 *
 * The libraries the Go code calls (the statistical detector, the WHATWG and
 * IANA registries, the streaming transcoder) are not modelled; they enter as
 * the total functions of a `Library` value, so every property below holds
 * whatever those libraries answer.
 */
module Charset {
  import opened Base
  import MultiByte

  // ---------------------------------------------------------------------
  // Values exchanged with the external libraries
  // ---------------------------------------------------------------------

  /**
   * An `encoding.Encoding`. The UTF-32 encodings (BOM ignored) are built by
   * easychars itself; every other encoding comes from a registry and is
   * opaque here.
   */
  datatype Encoding = Utf32(order: ByteOrder) | Registered(id: nat)

  /** A byte-to-UTF-8 transformer: the do-nothing decoder, or an encoding's decoder. */
  datatype Decoder = Nop | DecoderOf(encoding: Encoding)

  /** The package's four sentinel errors, plus any error produced elsewhere. */
  datatype Error = InvalidName | Unknown | Unsupported | WrongDecoder | External(message: string)

  /** One answer of the detector: charset label, language and confidence (1 to 100). */
  datatype Candidate = Candidate(charset: string, language: string, confidence: int)

  /** What the detector returns: its candidates, best first, and an optional error. */
  datatype Detection = Detection(candidates: seq<Candidate>, err: Option<Error>)

  /** A registry's reverse lookup: a name, and the message of its error if it failed. */
  datatype NameLookup = NameLookup(name: string, err: Option<string>)

  /**
   * The external collaborators, as functions:
   *  - detect: the text detector's DetectAll;
   *  - htmlGet / ianaEncoding: the WHATWG and IANA lookups by label, None when
   *    the lookup errs or yields no encoding;
   *  - ianaName / htmlName: the reverse lookups of an encoding's name;
   *  - transcode: reading the content through the decoder to the end, None
   *    when the read fails.
   */
  datatype Library = Library(
    detect: seq<Byte> -> Detection,
    htmlGet: string -> Option<Encoding>,
    ianaEncoding: string -> Option<Encoding>,
    ianaName: Encoding -> NameLookup,
    htmlName: Encoding -> NameLookup,
    transcode: (Decoder, seq<Byte>) -> Option<seq<Byte>>)

  /** A Go `([]byte, error)` pair from a conversion. */
  datatype Converted = Converted(output: seq<Byte>, err: Option<Error>)

  // ---------------------------------------------------------------------
  // strings.TrimSpace, strings.ToLower and strings.Contains on ASCII
  // ---------------------------------------------------------------------

  /** ASCII white space as Go's strings package sees it: '\t', '\n', '\v', '\f', '\r' and ' '. */
  predicate IsSpace(c: char) {
    ('\t' <= c <= '\r') || c == ' '
  }

  /** `sub` occurs in `s` at position `i`. */
  predicate OccursAt(s: string, sub: string, i: int) {
    0 <= i && i + |sub| <= |s| && s[i..i + |sub|] == sub
  }

  /** The index of the first non-space at or after `i`. */
  function SkipSpaces(s: string, i: nat): (k: nat)
    requires i <= |s|
    ensures i <= k <= |s| && (k == |s| || !IsSpace(s[k]))
    ensures forall j :: i <= j < k ==> IsSpace(s[j])
    decreases |s| - i
  {
    if i < |s| && IsSpace(s[i]) then SkipSpaces(s, i + 1) else i
  }

  /** One past the last non-space below `j`, but not below `lo`. */
  function SkipSpacesBack(s: string, lo: nat, j: nat): (k: nat)
    requires lo <= j <= |s|
    ensures lo <= k <= j && (k == lo || !IsSpace(s[k - 1]))
    ensures forall m :: k <= m < j ==> IsSpace(s[m])
  {
    if lo < j && IsSpace(s[j - 1]) then SkipSpacesBack(s, lo, j - 1) else j
  }

  /** `s` without the white space at either end. */
  function TrimSpace(s: string): (r: string)
    ensures r == [] || (!IsSpace(r[0]) && !IsSpace(r[|r| - 1]))
  {
    var a := SkipSpaces(s, 0);
    s[a..SkipSpacesBack(s, a, |s|)]
  }

  function LowerChar(c: char): char {
    if 'A' <= c <= 'Z' then (c as int + 32) as char else c
  }

  function ToLower(s: string): (r: string)
    ensures |r| == |s|
    ensures forall i :: 0 <= i < |s| ==> r[i] == LowerChar(s[i])
  {
    seq(|s|, i requires 0 <= i < |s| => LowerChar(s[i]))
  }

  /** The form in which GetEncodingFromCharsetName compares a label. */
  function Normalize(name: string): string {
    ToLower(TrimSpace(name))
  }

  function Contains(s: string, sub: string): (r: bool)
    ensures r <==> exists i :: OccursAt(s, sub, i)
    decreases |s|
  {
    if |s| < |sub| then false
    else if s[..|sub|] == sub then assert OccursAt(s, sub, 0); true
    else
      var rest := Contains(s[1..], sub);
      assert rest ==> exists i :: OccursAt(s, sub, i) by {
        if rest {
          var i :| OccursAt(s[1..], sub, i);
          assert s[1..][i..i + |sub|] == s[i + 1..i + 1 + |sub|];
          assert OccursAt(s, sub, i + 1);
        }
      }
      assert (exists i :: OccursAt(s, sub, i)) ==> rest by {
        if i :| OccursAt(s, sub, i) {
          assert i != 0;
          assert s[1..][i - 1..i - 1 + |sub|] == s[i..i + |sub|];
          assert OccursAt(s[1..], sub, i - 1);
        }
      }
      rest
  }

  lemma LowerCharKeepsSpace(c: char)
    ensures IsSpace(LowerChar(c)) == IsSpace(c)
  {
  }

  lemma ToLowerIdempotent(s: string)
    ensures ToLower(ToLower(s)) == ToLower(s)
  {
    assert forall i :: 0 <= i < |s| ==> ToLower(ToLower(s))[i] == ToLower(s)[i];
  }

  /** TrimSpace keeps an infix of its argument and removes only white space around it. */
  lemma TrimSpaceRemovesOnlySpace(s: string)
    ensures exists k :: && OccursAt(s, TrimSpace(s), k)
                        && (forall i :: 0 <= i < k ==> IsSpace(s[i]))
                        && (forall i :: k + |TrimSpace(s)| <= i < |s| ==> IsSpace(s[i]))
  {
    var k := SkipSpaces(s, 0);
    assert OccursAt(s, TrimSpace(s), k);
  }

  /** A string without white space at either end is left alone by TrimSpace. */
  lemma TrimSpaceFixed(s: string)
    requires s == [] || (!IsSpace(s[0]) && !IsSpace(s[|s| - 1]))
    ensures TrimSpace(s) == s
  {
  }

  /** Normalizing a label twice is normalizing it once. */
  lemma {:induction false} NormalizeIdempotent(name: string)
    ensures Normalize(Normalize(name)) == Normalize(name)
  {
    var t := TrimSpace(name);
    var l := ToLower(t);
    if l != [] {
      LowerCharKeepsSpace(t[0]);
      LowerCharKeepsSpace(t[|t| - 1]);
    }
    TrimSpaceFixed(l);
    ToLowerIdempotent(t);
  }

  // ---------------------------------------------------------------------
  // Charset names
  // ---------------------------------------------------------------------

  /** Spellings of GB18030 that the registries do not know, rewritten to "gb18030". */
  const Gb18030Aliases: set<string> := {"gb-18030", "gb_18030", "gb 18030"}

  /** Labels of little-endian UTF-32, which neither registry lists. */
  const Utf32LeLabels: set<string> :=
    {"utf-32-le", "utf_32_le", "utf-32_le", "utf_32-le", "utf32le",
     "utf-32le", "utf32-le", "utf_32le", "utf32_le"}

  /** Labels of big-endian UTF-32, which neither registry lists. */
  const Utf32BeLabels: set<string> :=
    {"utf-32-be", "utf_32_be", "utf-32_be", "utf_32-be", "utf32be",
     "utf-32be", "utf32-be", "utf_32be", "utf32_be"}

  /** Lower-cased detector labels whose content DetectAndConvertToUtf8 returns unconverted. */
  const PassThroughLabels: set<string> := {"", "unknown", "utf-8", "utf8"}

  /** Lower-cased detector labels that trigger the GBK well-formedness check. */
  const GbFamilyLabels: set<string> := {"gb18030", "gb-18030", "gb 18030", "gbk", "gb2312"}

  /** The WHATWG registry first, then the IANA registry. */
  function LookUpRegistries(lib: Library, key: string): Outcome<Encoding, Error> {
    match lib.htmlGet(key)
    case Some(e) => Ok(e)
    case None =>
      match lib.ianaEncoding(key)
      case Some(e) => Ok(e)
      case None => Err(InvalidName)
  }

  /**
   * The encoding a charset label names, case-insensitively and ignoring
   * surrounding white space; InvalidName when neither registry knows it.
   */
  function GetEncodingFromCharsetName(lib: Library, name: string): (r: Outcome<Encoding, Error>)
    ensures r.Err? ==> r.error == InvalidName
  {
    var n := Normalize(name);
    if n in Gb18030Aliases then LookUpRegistries(lib, "gb18030")
    else if n in Utf32LeLabels then Ok(Utf32(LittleEndian))
    else if n in Utf32BeLabels then Ok(Utf32(BigEndian))
    else LookUpRegistries(lib, n)
  }

  /** Resolution only sees the normalized label. */
  lemma GetEncodingNormalizes(lib: Library, name: string)
    ensures GetEncodingFromCharsetName(lib, Normalize(name)) == GetEncodingFromCharsetName(lib, name)
  {
    NormalizeIdempotent(name);
  }

  /** Every spelling of GB18030 resolves as "gb18030" does, whatever the registries hold. */
  lemma Gb18030AliasesAgree(lib: Library, name: string)
    requires Normalize(name) in Gb18030Aliases
    ensures GetEncodingFromCharsetName(lib, name) == GetEncodingFromCharsetName(lib, "gb18030")
  {
    assert TrimSpace("gb18030") == "gb18030";
    assert ToLower("gb18030") == "gb18030";
  }

  /** The UTF-32 labels resolve to the UTF-32 encodings without consulting the registries. */
  lemma Utf32LabelsIgnoreRegistries(lib: Library, name: string)
    ensures Normalize(name) in Utf32LeLabels ==> GetEncodingFromCharsetName(lib, name) == Ok(Utf32(LittleEndian))
    ensures Normalize(name) in Utf32BeLabels ==> GetEncodingFromCharsetName(lib, name) == Ok(Utf32(BigEndian))
  {
  }

  /** Case and surrounding white space do not matter: a padded, upper-case UTF-32 label still resolves. */
  lemma LabelSpellingExample(lib: Library)
    ensures GetEncodingFromCharsetName(lib, " UTF32_LE\t") == Ok(Utf32(LittleEndian))
    ensures GetEncodingFromCharsetName(lib, "\nUtf-32-BE ") == Ok(Utf32(BigEndian))
  {
    assert SkipSpaces(" UTF32_LE\t", 0) == 1;
    assert SkipSpacesBack(" UTF32_LE\t", 1, 10) == 9;
    assert TrimSpace(" UTF32_LE\t") == "UTF32_LE";
    assert Normalize(" UTF32_LE\t") == "utf32_le";
    assert SkipSpaces("\nUtf-32-BE ", 0) == 1;
    assert SkipSpacesBack("\nUtf-32-BE ", 1, 11) == 10;
    assert TrimSpace("\nUtf-32-BE ") == "Utf-32-BE";
    assert Normalize("\nUtf-32-BE ") == "utf-32-be";
  }

  /**
   * Any other label is looked up in the WHATWG registry first; the IANA
   * registry is asked only when WHATWG has no encoding for it.
   */
  lemma RegistryOrder(lib: Library, name: string)
    requires Normalize(name) !in Utf32LeLabels + Utf32BeLabels
    ensures var n := Normalize(name);
            var key := if n in Gb18030Aliases then "gb18030" else n;
            && (lib.htmlGet(key).Some? ==> GetEncodingFromCharsetName(lib, name) == Ok(lib.htmlGet(key).value))
            && (lib.htmlGet(key).None? && lib.ianaEncoding(key).Some? ==>
                  GetEncodingFromCharsetName(lib, name) == Ok(lib.ianaEncoding(key).value))
  {
  }

  /** Resolution fails exactly when both registries miss the (rewritten) label. */
  lemma GetEncodingFailsIffUnknown(lib: Library, name: string)
    ensures GetEncodingFromCharsetName(lib, name).Err? <==>
              var n := Normalize(name);
              var key := if n in Gb18030Aliases then "gb18030" else n;
              && n !in Utf32LeLabels + Utf32BeLabels
              && lib.htmlGet(key).None? && lib.ianaEncoding(key).None?
  {
  }

  /** The decoder of the encoding a label names; the same InvalidName failure otherwise. */
  function GetDecoderFromCharsetName(lib: Library, charsetName: string): (r: Outcome<Decoder, Error>)
    ensures r.Ok? <==> GetEncodingFromCharsetName(lib, charsetName).Ok?
    ensures r.Ok? ==> r.value == DecoderOf(GetEncodingFromCharsetName(lib, charsetName).value)
    ensures r.Err? ==> r.error == InvalidName
  {
    match GetEncodingFromCharsetName(lib, charsetName)
    case Ok(e) => Ok(DecoderOf(e))
    case Err(err) => Err(err)
  }

  /** A label that resolves never yields the do-nothing decoder. */
  lemma ResolvedDecoderIsNotNop(lib: Library, charsetName: string)
    requires GetDecoderFromCharsetName(lib, charsetName).Ok?
    ensures GetDecoderFromCharsetName(lib, charsetName).value != Nop
  {
  }

  /**
   * The canonical name of an encoding: IANA's answer, else WHATWG's; when
   * both fail, Unsupported if WHATWG's message says "not supported", else
   * Unknown (the name is then whatever WHATWG returned).
   */
  function GetCharsetNameFromEncoding(lib: Library, e: Encoding): (r: (string, Option<Error>))
    ensures r.1.Some? <==> lib.ianaName(e).err.Some? && lib.htmlName(e).err.Some?
    ensures lib.ianaName(e).err.None? ==> r.0 == lib.ianaName(e).name
    ensures lib.ianaName(e).err.Some? ==> r.0 == lib.htmlName(e).name
    ensures r.1.Some? ==>
              r.1.value == (if exists i :: OccursAt(lib.htmlName(e).err.value, "not supported", i)
                            then Unsupported else Unknown)
  {
    var iana := lib.ianaName(e);
    if iana.err.None? then (iana.name, None)
    else
      var html := lib.htmlName(e);
      if html.err.None? then (html.name, None)
      else if Contains(html.err.value, "not supported") then (html.name, Some(Unsupported))
      else (html.name, Some(Unknown))
  }

  // ---------------------------------------------------------------------
  // Conversion to UTF-8
  // ---------------------------------------------------------------------

  /**
   * Runs the content through the decoder. A failed read gives no bytes and
   * WrongDecoder, never a partial output.
   */
  function ToUtf8WithDecoder(lib: Library, content: seq<Byte>, d: Decoder): (r: Converted)
    ensures r.err.Some? <==> lib.transcode(d, content).None?
    ensures r.err.Some? ==> r.err.value == WrongDecoder && r.output == []
    ensures r.err.None? ==> r.output == lib.transcode(d, content).value
  {
    match lib.transcode(d, content)
    case None => Converted([], Some(WrongDecoder))
    case Some(decoded) => Converted(decoded, None)
  }

  /** If the transcoder passes bytes through the Nop decoder, converting with it is the identity. */
  lemma NopDecoderKeepsContent(lib: Library, content: seq<Byte>)
    requires lib.transcode(Nop, content) == Some(content)
    ensures ToUtf8WithDecoder(lib, content, Nop) == Converted(content, None)
  {
  }

  /** Converts with the encoding's decoder: its bytes on success, nothing and WrongDecoder on a failed read. */
  function ToUtf8WithEncoding(lib: Library, content: seq<Byte>, e: Encoding): (r: Converted)
    ensures r.err.Some? <==> lib.transcode(DecoderOf(e), content).None?
    ensures r.err.Some? ==> r == Converted([], Some(WrongDecoder))
    ensures r.err.None? ==> r.output == lib.transcode(DecoderOf(e), content).value
  {
    ToUtf8WithDecoder(lib, content, DecoderOf(e))
  }

  /**
   * Converts with the decoder a label names. An unresolvable label returns
   * the content itself together with InvalidName.
   */
  function ToUtf8WithCharsetName(lib: Library, content: seq<Byte>, charsetName: string): (r: Converted)
    ensures GetEncodingFromCharsetName(lib, charsetName).Err? ==> r == Converted(content, Some(InvalidName))
    ensures GetEncodingFromCharsetName(lib, charsetName).Ok? ==>
              r == ToUtf8WithEncoding(lib, content, GetEncodingFromCharsetName(lib, charsetName).value)
  {
    match GetDecoderFromCharsetName(lib, charsetName)
    case Err(err) => Converted(content, Some(err))
    case Ok(d) => ToUtf8WithDecoder(lib, content, d)
  }

  /** A UTF-32 label converts with the matching UTF-32 decoder, whatever the registries hold. */
  lemma Utf32LabelConversion(lib: Library, content: seq<Byte>, charsetName: string)
    requires Normalize(charsetName) in Utf32LeLabels
    ensures ToUtf8WithCharsetName(lib, content, charsetName) ==
            ToUtf8WithDecoder(lib, content, DecoderOf(Utf32(LittleEndian)))
  {
  }

  // ---------------------------------------------------------------------
  // Detection
  // ---------------------------------------------------------------------

  /** A detector candidate together with the decoder its label resolves to. */
  class Result {
    var charset: string
    var language: string
    var confidence: int
    var decoder: Decoder
    var convertible: bool

    /** A candidate's fields, the do-nothing decoder, not convertible. */
    constructor (candidate: Candidate)
      ensures charset == candidate.charset && language == candidate.language
      ensures confidence == candidate.confidence
      ensures decoder == Nop && !convertible
    {
      charset := candidate.charset;
      language := candidate.language;
      confidence := candidate.confidence;
      decoder := Nop;
      convertible := false;
    }

    /** Convertible exactly when a real decoder replaced the do-nothing one. */
    ghost predicate Valid()
      reads this
    {
      convertible <==> decoder != Nop
    }
  }

  /**
   * `r` carries candidate `c` and the outcome of resolving its label: the
   * label's decoder and convertible, or Nop and not convertible.
   */
  ghost predicate Enriched(lib: Library, r: Result, c: Candidate)
    reads r
  {
    Carries(r, c, GetDecoderFromCharsetName(lib, c.charset))
  }

  /** `r` carries candidate `c` and the resolution `resolved` of its label. */
  ghost predicate Carries(r: Result, c: Candidate, resolved: Outcome<Decoder, Error>)
    reads r
  {
    && r.charset == c.charset && r.language == c.language && r.confidence == c.confidence
    && r.convertible == resolved.Ok?
    && r.decoder == (if resolved.Ok? then resolved.value else Nop)
  }

  lemma EnrichedIsValid(lib: Library, r: Result, c: Candidate)
    requires Enriched(lib, r, c)
    ensures r.Valid()
  {
  }

  /** The Result DetectAll builds for one candidate. */
  method NewResult(lib: Library, res: Candidate) returns (result: Result)
    ensures fresh(result) && Enriched(lib, result, res)
  {
    result := new Result(res);
    var charset := res.charset;
    var decoder := GetDecoderFromCharsetName(lib, charset);
    if decoder.Ok? {
      result.decoder := decoder.value;
      result.convertible := true;
    }
  }

  /**
   * One fresh Result per detector candidate, in the detector's order, each
   * enriched with its label's decoder; the detector's error is passed on.
   */
  method DetectAll(lib: Library, content: seq<Byte>) returns (results: seq<Result>, err: Option<Error>)
    ensures err == lib.detect(content).err
    ensures |results| == |lib.detect(content).candidates|
    ensures forall i :: 0 <= i < |results| ==>
              fresh(results[i]) && Enriched(lib, results[i], lib.detect(content).candidates[i])
    ensures forall i, j :: 0 <= i < j < |results| ==> results[i] != results[j]
  {
    var detection := lib.detect(content);
    var ress := detection.candidates;
    err := detection.err;
    results := [];
    ghost var resolved := seq(|ress|, i requires 0 <= i < |ress| => GetDecoderFromCharsetName(lib, ress[i].charset));
    for k := 0 to |ress|
      invariant |results| == k
      invariant forall i :: 0 <= i < k ==> fresh(results[i]) && Carries(results[i], ress[i], resolved[i])
      invariant forall i, j :: 0 <= i < j < k ==> results[i] != results[j]
    {
      var result := NewResult(lib, ress[k]);
      results := results + [result];
    }
  }

  /**
   * The best candidate, enriched. The detector's error is dropped (the Go
   * code shadows it), so the error is always None and a failed detection
   * shows only as a null result. A successful detection must have a
   * candidate: the Go code indexes the first one unguarded.
   */
  method DetectEncoding(lib: Library, content: seq<Byte>) returns (result: Result?, err: Option<Error>)
    requires lib.detect(content).err.None? ==> |lib.detect(content).candidates| > 0
    ensures err.None?
    ensures lib.detect(content).err.Some? ==> result == null
    ensures lib.detect(content).err.None? ==>
              result != null && fresh(result) && Enriched(lib, result, lib.detect(content).candidates[0])
  {
    result := null;
    err := None;
    var res, e := DetectAll(lib, content);
    if e.None? {
      result := res[0];
    }
  }

  /**
   * Detects the charset of `content` and converts it to UTF-8. The content is
   * returned as is when the best label does not resolve or names UTF-8 or
   * nothing; a GB-family label on content that is not well-formed GBK has its
   * confidence cut to 20; otherwise the content goes through the label's decoder.
   */
  method DetectAndConvertToUtf8(lib: Library, content: seq<Byte>)
      returns (convertedContent: seq<Byte>, res: Result?, err: Option<Error>)
    requires lib.detect(content).err.None? && |lib.detect(content).candidates| > 0
    ensures res != null && fresh(res) && res.Valid()
    ensures var top := lib.detect(content).candidates[0];
            var resolved := GetDecoderFromCharsetName(lib, top.charset);
            && res.charset == top.charset && res.language == top.language
            && res.convertible == resolved.Ok?
            && res.decoder == (if resolved.Ok? then resolved.value else Nop)
            && res.confidence ==
               (if resolved.Ok? && ToLower(top.charset) in GbFamilyLabels && !MultiByte.GbkText(content)
                then 20 else top.confidence)
    ensures !res.convertible || ToLower(res.charset) in PassThroughLabels ==>
              convertedContent == content && err.None?
    ensures res.convertible && ToLower(res.charset) !in PassThroughLabels ==>
              Converted(convertedContent, err) == ToUtf8WithDecoder(lib, content, res.decoder)
  {
    convertedContent := content;
    err := None;
    res, err := DetectEncoding(lib, content);
    EnrichedIsValid(lib, res, lib.detect(content).candidates[0]);
    // DetectEncoding never reports an error, so its error check is omitted.
    if !res.convertible {
      return;
    }
    var charsetLower := ToLower(res.charset);
    if charsetLower == "" || charsetLower == "unknown" {
      return;
    } else if charsetLower == "utf-8" || charsetLower == "utf8" {
      return;
    } else if charsetLower in GbFamilyLabels {
      var valid := MultiByte.IsValidGbk(content);
      if !valid {
        res.confidence := 20;
      }
    }
    var converted := ToUtf8WithDecoder(lib, content, res.decoder);
    convertedContent, err := converted.output, converted.err;
  }
}
