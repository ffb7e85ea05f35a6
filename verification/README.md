# live-url-viewer: the validator and the URL helpers in Dafny

This project models two parts of the live URL viewer.

- `uri_validate` and its grammar (uri-validate.js) decide whether a string is a URI-reference in the sense of RFC 3986. When the scheme is one of eight known schemes, the string must also match that scheme's own grammar.
  - Every pattern variable becomes a regular expression value (`Grammar`, over the small regex language of `Regex`). Matching a whole string is language membership.
  - `Validate.UriValidate` is the four-step decision.
- The helpers of the `Url` object (url.js):
  - percent-encoding with the five encode sets (`PercentEncoding`);
  - the byte-wise and the UTF-8 percent decoders (`PercentDecoding`);
  - the path merge `pathConcat` (`PathMerge`);
  - the IPv6 text form `canonicalizeIpv6` (`CanonicalIpv6`);
  - the serializer, the getters, the setters, the constructor and the `href` accessor, over an immutable record of the object's properties (`UrlObject`).

Strings are JavaScript strings: sequences of UTF-16 code units (`Text.Str`, integers below 0x10000). Surrogates are therefore visible just as they are to the source.

The grammar is modelled as written, including its transliteration slips:
- `pct_encoded` is two literal percent signs and two hex digits;
- `some_delims` contains the two-character sequence "*+";
- the `.` of dot-atom-text is any character;
- the class `[!-[^-~]` includes `[`;
- qcontent, FWS and CFWS are empty;
- the RFC 2045 token is `[0-z]+`;
- gopher needs a ":" after the host.

Beside the nine-way IPv6 rule, `Ipv6Forms` gives a structural reading: a `Shape` is either eight pieces, or pieces before and after one "::". `Ipv6Forms.IPv6Shapes` proves the rule matches exactly the spellings of valid shapes. The text that `canonicalizeIpv6` produces is proved to be such a spelling when no dotted quad is given.

The two modules of worked examples (`CanonicalExamples`, `ValidateExamples`) compute concrete inputs through the model.

Some behaviours of the code worth knowing:
- `pathConcat(["a","b"], ["."])` is `[]`. The "." removes "b", and the remaining empty path then removes "a" as well (`PathMerge.DotExample`). The `remove_dot_segments` of section 5.2.4 of RFC 3986 would keep "a".
- `canonicalizeIpv6` writes upper-case hex. It elides the first "0" group, never one at index 0, so `([], ["1"])` gives "0:0:0:0:0:0:0:1" (`CanonicalExamples.LoopbackExample`). Section 4.2 of RFC 5952 would elide the longest run of zeros and write "::1".
- `pct-encoded` asks for "%%" and two hex digits, so "http://x/%41" is rejected (`ValidateExamples.PercentEscapeRejected`). Section 2.1 of RFC 3986 has a single "%".
- Neither decoder is idempotent. `percentDecode` turns "%C3%25%34%31" into "Ã%41", and that into "ÃA" (`PercentDecoding.PercentDecodeNotIdempotent`). `utf8PercentDecode` turns the same input into "%C3%41", and that into "%C3A" (`PercentDecoding.Utf8DecodeNotIdempotent`).

## Model

| member | source | states |
|---|---|---|
| Validate.UriValidate | uri-validate.js:472-482 | acceptance implies the string is a URI-reference, and every URI-reference without ":" is accepted |
| Validate.FragmentTail | uri-validate.js:480 | since the fragment pattern accepts the empty string, the scheme test reduces to: a prefix is in the scheme's grammar and is followed by the end or by "#" |
| Validate.KnownSchemeDecision | uri-validate.js:478-480 | for a URI-reference whose lower-cased scheme is known, the verdict is exactly the scheme grammar's test, followed by end or "#" |
| Validate.UnknownSchemeAccepted | uri-validate.js:479 | a URI-reference whose lower-cased scheme is not in the table is accepted |
| Validate.KnownPrefix | uri-validate.js:461-470 | every string of a known scheme's grammar starts with that scheme's name and ":" |
| Validate.HttpHead | uri-validate.js:223-224 | every http-URI starts with "http:" |
| Validate.HttpsHead | uri-validate.js:229-230 | every https-URI starts with "https:" |
| Validate.WsHead | uri-validate.js:238-239 | every ws-URI starts with "ws:" |
| Validate.WssHead | uri-validate.js:243-244 | every wss-URI starts with "wss:" |
| Validate.MailtoHead | uri-validate.js:332 | every mailto-URI starts with "mailto:" |
| Validate.DataHead | uri-validate.js:402 | every data-URI starts with "data:" |
| Validate.GopherHead | uri-validate.js:409 | every gopher-URI starts with "gopher:" |
| Validate.FileHead | uri-validate.js:458-459 | every file-URI starts with "file:" |
| Validate.Known | uri-validate.js:461-470 | the table has a grammar for exactly the eight names http, https, ws, wss, mailto, data, gopher and file, all lower-case letters |
| Validate.UpperCaseSchemeRejected | uri-validate.js:461-480 | a string whose scheme names a known scheme but has an upper-case letter is rejected, because the grammars spell the scheme in lower case |
| Validate.LowerHasNoUpper | uri-validate.js:478 | the lower-cased scheme holds no upper-case letter |
| Validate.HttpIsReference | uri-validate.js:192-224 | every http-URI is also a URI-reference |
| Validate.HttpAccepted | uri-validate.js:472-482 | every http-URI is accepted by `uri_validate` |
| Validate.NetworkHierPart | uri-validate.js:192-193 | "//" + authority + path-abempty is a hier-part |
| Validate.UriIntro | uri-validate.js:207-211 | scheme ":" hier-part and an optional query and fragment form a URI-reference |
| Validate.HttpSchemeName | uri-validate.js:73 | "http" is a scheme |
| Validate.HttpParts | uri-validate.js:223-224 | an http-URI splits into "http://", an authority, a path-abempty and optional query and fragment |
| Validate.ReferenceIsAscii | uri-validate.js:45-211 | every URI-reference is ASCII, and each "%" in it stands next to another "%" |
| Validate.LonePercentRejected | uri-validate.js:473-474 | a string with a "%" that has no "%" beside it is rejected |
| Validate.SchemeIsAscii | uri-validate.js:478 | every prefix of a URI-reference is ASCII, so lower-casing it only touches A-Z |
| Validate.TameReference | uri-validate.js:45-211 | the URI-reference grammar only produces ASCII, with "%" coming only from "%%" |
| Validate.TameIPv6 | uri-validate.js:105-111 | the IPv6address pattern only produces ASCII without "%" |
| Validate.TameAuthority | uri-validate.js:124-134 | the authority pattern only produces ASCII, with "%" only from "%%" |
| Validate.TameHierPart | uri-validate.js:192-200 | hier-part and relative-part only produce ASCII, with "%" only from "%%" |
| GrammarFacts.DigitUnit | uri-validate.js:45 | DIGIT matches exactly one decimal digit |
| GrammarFacts.HexdigUnit | uri-validate.js:47 | HEXDIG matches exactly one hex digit of either case |
| GrammarFacts.PctEncodedShape | uri-validate.js:51 | pct-encoded matches exactly "%%" and two hex digits |
| GrammarFacts.H16Digits | uri-validate.js:91 | h16 matches exactly 1 to 4 hex digits |
| GrammarFacts.PortDigits | uri-validate.js:131 | port matches exactly the runs of digits, the empty run included, with no bound on the value |
| GrammarFacts.DecOctetAlternatives | uri-validate.js:83-84 | dec-octet is the union of its five alternatives |
| GrammarFacts.DecOctetNumeral | uri-validate.js:83-84 | dec-octet matches exactly the decimal numerals, without leading zeros, of 0 to 255 |
| GrammarFacts.DecOctetSound | uri-validate.js:83-84 | each dec-octet match is the numeral of some value at most 255 |
| GrammarFacts.DecOctetComplete | uri-validate.js:83-84 | the numeral of each value at most 255 is a dec-octet |
| GrammarFacts.TwoDigitsSound | uri-validate.js:83 | "[1-9]DIGIT" matches only numerals of 10 to 99 |
| GrammarFacts.HundredsSound | uri-validate.js:83 | "1DIGIT{2}" matches only numerals of 100 to 199 |
| GrammarFacts.TwoHundredsSound | uri-validate.js:83-84 | "2[0-4]DIGIT" matches only numerals of 200 to 249 |
| GrammarFacts.TwoDigitsComplete | uri-validate.js:83 | every numeral of 10 to 99 matches "[1-9]DIGIT" |
| GrammarFacts.HundredsComplete | uri-validate.js:83 | every numeral of 100 to 199 matches "1DIGIT{2}" |
| GrammarFacts.TwoHundredsComplete | uri-validate.js:83-84 | every numeral of 200 to 249 matches "2[0-4]DIGIT" |
| GrammarFacts.TwoFiftiesComplete | uri-validate.js:84 | every numeral of 250 to 255 matches "25[0-5]" |
| GrammarFacts.DecimalShape | uri-validate.js:83-84 | a numeral is non-empty and all digits; its length is fixed by its magnitude; it starts with "0" only for 0 |
| GrammarFacts.DecimalDigits | uri-validate.js:83-84 | the digits of one-, two- and three-digit numerals |
| GrammarFacts.DecOctetZero | uri-validate.js:83 | "0" is a dec-octet |
| GrammarFacts.DecOctetNoLeadingZero | uri-validate.js:83-84 | "00" is not a dec-octet |
| GrammarFacts.DecOctetNoOverflow | uri-validate.js:83-84 | "256" is not a dec-octet |
| GrammarFacts.OctetValue | uri-validate.js:83-84 | a dec-octet match gives its value, at most 255 |
| GrammarFacts.OctetDot | uri-validate.js:87-88 | a dec-octet, ".", and the rest split into a value at most 255, the dot and the rest |
| GrammarFacts.OctetDotIntro | uri-validate.js:87-88 | the numeral of a value at most 255, ".", and a match of the rest form a match |
| GrammarFacts.IPv4Numerals | uri-validate.js:87-88 | IPv4address matches exactly four numerals of values at most 255 joined by single dots |
| GrammarFacts.IPv4Sound | uri-validate.js:87-88 | each IPv4address is four numerals at most 255 joined by dots |
| GrammarFacts.IPv4Complete | uri-validate.js:87-88 | any four values at most 255, dotted, form an IPv4address |
| Ipv6Forms.IPv6Shapes | uri-validate.js:96-111 | IPv6address matches exactly the spellings of valid shapes: eight pieces with no "::", or at most seven pieces around one "::" (a dotted quad counts as two) |
| Ipv6Forms.IPv6Sound | uri-validate.js:105-111 | each IPv6address match is the spelling of a valid shape |
| Ipv6Forms.IPv6Complete | uri-validate.js:105-111 | the spelling of each valid shape matches IPv6address |
| Ipv6Forms.IPv6Alternatives | uri-validate.js:105-111 | IPv6address is the union of its nine forms |
| Ipv6Forms.IPv6DoubleColon | uri-validate.js:96-111 | an IPv6address has no "::" exactly when it is a full eight-piece form; it has at most one "::" and never ":::" |
| Ipv6Forms.DoubleColonPlace | uri-validate.js:96-111 | in a shape's spelling, "::" occurs exactly once for an elided shape, right after the leading pieces, and never for a full one |
| Ipv6Forms.PiecesShape | uri-validate.js:91-94 | the pieces after "::" never spell "::" and do not start or end with ":" |
| Ipv6Forms.ColonsShape | uri-validate.js:105-111 | h16 pieces joined by ":" hold no "::" and have clean ends |
| Ipv6Forms.TerminatedShape | uri-validate.js:105-108 | h16 pieces each followed by ":" hold no "::" and do not start with ":" |
| Ipv6Forms.QuadColonFree | uri-validate.js:87-88 | a dotted quad holds no ":" |
| Ipv6Forms.H16ColonFree | uri-validate.js:91 | an h16 holds no ":" |
| Ipv6Forms.FormsAre | uri-validate.js:105-111 | the nine forms are the before-part/"::"/after-part combinations with piece counts summing to seven, plus the full form |
| Ipv6Forms.Ls32Forms | uri-validate.js:94 | ls32 matches exactly two h16 joined by ":" or an IPv4address |
| Ipv6Forms.Ls32Sound | uri-validate.js:94 | each ls32 match is the spelling of two pieces |
| Ipv6Forms.Ls32Intro | uri-validate.js:94 | the spelling of two valid pieces is an ls32 |
| Ipv6Forms.H16Text | uri-validate.js:91 | h16 matches exactly 1 to 4 hex digits |
| Ipv6Forms.QuadSound | uri-validate.js:87-88 | each IPv4address is the spelling of a valid dotted quad |
| Ipv6Forms.QuadIntro | uri-validate.js:87-88 | the spelling of a valid dotted quad is an IPv4address |
| Ipv6Forms.RepSound | uri-validate.js:105-108 | `(h16:){k}` matches only k h16 pieces each followed by ":" |
| Ipv6Forms.RepIntro | uri-validate.js:105-108 | k h16 pieces each followed by ":" match `(h16:){k}` |
| Ipv6Forms.UpToSound | uri-validate.js:106-111 | `(h16:){0,n}` matches only at most n h16 pieces each followed by ":" |
| Ipv6Forms.UpToIntro | uri-validate.js:106-111 | at most n h16 pieces each followed by ":" match `(h16:){0,n}` |
| Ipv6Forms.BeforeSound | uri-validate.js:106-111 | the optional part before "::" is at most n h16 pieces joined by ":" |
| Ipv6Forms.BeforeIntro | uri-validate.js:106-111 | at most n h16 pieces joined by ":" match the optional part before "::" |
| Ipv6Forms.AfterSound | uri-validate.js:105-110 | the part after "::" spells j valid pieces |
| Ipv6Forms.AfterIntro | uri-validate.js:105-110 | the spelling of j valid pieces matches the part after "::" |
| Ipv6Forms.ElidedSound | uri-validate.js:106-110 | forms 3 to 8 match only elided shapes with the form's piece count after "::" |
| Ipv6Forms.ElidedIntro | uri-validate.js:106-110 | an elided shape with one to six pieces after "::" matches the corresponding form |
| Ipv6Forms.LeadingSound | uri-validate.js:105 | form 2 matches only elided shapes with nothing before "::" |
| Ipv6Forms.LeadingIntro | uri-validate.js:105 | "::" followed by seven pieces matches form 2 |
| Ipv6Forms.TrailingSound | uri-validate.js:111 | form 9 matches only elided shapes with nothing after "::" |
| Ipv6Forms.TrailingIntro | uri-validate.js:111 | at most seven pieces followed by "::" match form 9 |
| Ipv6Forms.MiddleSound | uri-validate.js:106-110 | a match of forms 3 to 8 is the spelling of a valid shape |
| Ipv6Forms.MiddleComplete | uri-validate.js:106-110 | an elided shape with one to six pieces after "::" matches one of forms 3 to 8 |
| Ipv6Forms.PrefixedValid | uri-validate.js:105-108 | adding h16 pieces in front keeps a piece list valid exactly when they are h16 |
| Ipv6Forms.AllH16Append | uri-validate.js:91 | a concatenation of piece lists is all h16 exactly when both parts are |
| Ipv6Forms.ColonsAppend | uri-validate.js:105-111 | joining two piece lists by ":" is the first terminated by ":" followed by the second joined |
| Regex.CatLit | uri-validate.js:45-459 | a literal followed by a pattern matches exactly the strings that start with the literal and whose rest matches |
| Regex.AltIff | uri-validate.js:45-459 | an alternation matches exactly what one of its branches matches |
| Regex.StarUnits | uri-validate.js:131 | the star of a one-character pattern matches exactly the strings all of whose characters it matches |
| Regex.StarUnitsPlus | uri-validate.js:144 | the plus of a one-character pattern matches exactly the non-empty strings all of whose characters it matches |
| Regex.RepRangeUnits | uri-validate.js:91 | `{m,n}` of a one-character pattern matches exactly the strings of length m to n all of whose characters it matches |
| Regex.RepUnits | uri-validate.js:83 | `{n}` of a one-character pattern matches exactly the strings of length n all of whose characters it matches |
| Regex.UpToUnits | uri-validate.js:91 | `{0,n}` of a one-character pattern matches exactly the strings of length at most n all of whose characters it matches |
| Regex.StarAppend | uri-validate.js:152 | two matches of a starred pattern concatenate into one |
| Regex.UnitLength | uri-validate.js:45-64 | a one-character pattern only matches strings of length one |
| Regex.TameMatches | uri-validate.js:45-211 | a pattern built only from ASCII pieces without "%" (except "%%") matches only ASCII strings whose "%" signs come in pairs |
| Regex.CatEps | uri-validate.js:164 | concatenating with the empty pattern changes nothing |
| Text.IndexOf | uri-validate.js:475-478 | the position of the first occurrence of a code unit, or none exactly when it does not occur |
| Text.ToLowerAsciiFixed | uri-validate.js:478 | lower-casing twice is lower-casing once, and it leaves a string unchanged exactly when the string holds no A-Z |
| Text.HexDigitUpper | url.js:82-86 | a digit value prints as an upper-case hex digit with that value |
| Text.HexTextRoundTrip | url.js:255 | printing a number in upper-case hex gives a non-empty upper-case numeral that parses back to the number |
| Text.HexTextZero | url.js:255 | the hex numeral is "0" exactly for zero, and otherwise has no leading zero |
| Text.HexTextLength | url.js:255 | a number below 16^k prints with at most k hex digits |
| PercentEncoding.Utf8PercentEncode | url.js:51-87 | one triplet for a code unit below 0x80, two below 0x800, four for a surrogate pair, three otherwise (lone surrogates and the empty input included); every third code unit is "%" and the others are upper-case hex digits |
| PercentEncoding.Utf8Bytes | url.js:53-76 | ASCII is one byte; the empty input, whose `charCodeAt` is NaN, goes the three-byte way as E0 80 80 |
| PercentEncoding.PairValue | url.js:67 | a surrogate pair denotes a supplementary code point |
| PercentEncoding.Triplet | url.js:82-86 | a byte prints as "%" and two upper-case hex digits that parse back to it |
| PercentEncoding.Triplets | url.js:81-83 | the triplets of n bytes are 3n long |
| PercentEncoding.TripletsAppend | url.js:81-83 | the triplets of joined byte lists are the joined triplets |
| PercentEncoding.TripletsShape | url.js:82-86 | in a run of triplets "%" occurs exactly at the multiples of 3, and the other positions are upper-case hex digits |
| PercentEncoding.PercentEncode | url.js:174-178 | the output is printable ASCII (U+0020 to U+007E) |
| PercentEncoding.EncodeUnit | url.js:174-178 | the replacement of one match, or the unit itself, is printable ASCII |
| PercentEncoding.PercentNotInSets | url.js:31-36 | "%" is in none of the five encode sets, so it is never encoded |
| PercentEncoding.EncodeOne | url.js:175-177 | a single code unit is encoded exactly when it is in the set, and kept otherwise |
| PercentEncoding.EncodePair | url.js:31 | a surrogate pair is always encoded whole, as one code point |
| PercentEncoding.EncodeAppend | url.js:175-177 | encoding distributes over concatenation unless the join splits a surrogate pair |
| PercentEncoding.EncodeUnmatched | url.js:175-177 | a string with no code unit in the set comes back unchanged |
| PercentEncoding.StepLength | url.js:31 | each match takes one code unit, and two exactly when a surrogate pair starts the string |
| PercentEncoding.StepAppend | url.js:31 | the first match of a string is unaffected by what follows, unless a surrogate pair is split |
| PercentDecoding.PercentDecode | url.js:89-106 | the decoded text is no longer than the input, and the only warning is the "%" warning |
| PercentDecoding.PercentDecodeWarns | url.js:92-94 | the warning is attached exactly when some "%" is not followed by two hex digits |
| PercentDecoding.WarnAtIff | url.js:92 | the four alternatives of the warning test together mean "this % does not start an escape" |
| PercentDecoding.PercentDecodeNoPercent | url.js:92-105 | input without "%" comes back unchanged and unmarked |
| PercentDecoding.PercentDecodeTriplets | url.js:96-98 | decoding the triplets of a byte list gives the bytes as code units, with no warning |
| PercentDecoding.DecodeEscapesTriplets | url.js:96-98 | the escape replacement turns triplets back into their bytes |
| PercentDecoding.TripletsEscapes | url.js:92-96 | every "%" of a run of triplets starts an escape |
| PercentDecoding.DecodeEscapes | url.js:96-98 | replacing escapes never lengthens the text |
| PercentDecoding.RunBytes | url.js:109-114 | a maximal run of escapes holds one byte per three code units |
| PercentDecoding.DecodeWellFormed | url.js:118-164 | a lead byte that starts a well-formed sequence by section 4 of RFC 3629 (without the ED check) is decoded with the following bytes into the code unit of its scalar value modulo 0x10000 |
| PercentDecoding.DecodeIllFormed | url.js:121-167 | a byte that starts no well-formed sequence is at least 0x80 and is re-emitted alone as "%XX"; decoding resumes at the next byte |
| PercentDecoding.SequenceLength | url.js:118-167 | the well-formed sequence at the front is at most four bytes and no longer than the input |
| PercentDecoding.ScalarValue | url.js:129-163 | a well-formed sequence denotes a value below 0x110000 |
| PercentDecoding.ReemitIsTriplet | url.js:122 | a re-emitted byte of 0x80 or more prints as the same upper-case triplet the encoder writes |
| PercentDecoding.TwoPayload | url.js:129 | a two-byte sequence's lead and payload recover the code unit |
| PercentDecoding.ThreePayload | url.js:143-145 | a three-byte sequence's bytes recover the code unit and pass the E0 check |
| PercentDecoding.FourPayload | url.js:161-163 | a four-byte sequence's bytes recover the code point and pass the F0 and F4 checks |
| PercentDecoding.UnitBytesWellFormed | url.js:55-65 | the bytes the encoder writes for one code unit are one well-formed sequence whose value is that unit |
| PercentDecoding.PairBytesWellFormed | url.js:66-75 | the bytes for a surrogate pair are a well-formed four-byte sequence whose value is the pair's code point |
| PercentDecoding.DecodeUnitBytes | url.js:118-168 | decoding the encoder's bytes for a code unit gives back that unit |
| PercentDecoding.DecodePairBytes | url.js:161-163 | decoding the encoder's bytes for a surrogate pair gives one code unit, the code point modulo 0x10000 |
| PercentDecoding.RunOfTriplets | url.js:109-114 | the run at the front of a string of triplets, not followed by another escape, gives back exactly those bytes |
| PercentDecoding.DecodeRun | url.js:109-171 | a run of triplets is replaced by the decoding of its bytes, and decoding continues after it |
| PercentDecoding.UnitRoundTrip | url.js:51-172 | for every single code unit, surrogates included, decoding its encoding gives it back |
| PercentDecoding.PairFolds | url.js:161-163 | a surrogate pair does not round-trip: it decodes to its code point modulo 0x10000 |
| PercentDecoding.Utf8DecodeNoPercent | url.js:109 | input without "%" is unchanged by the UTF-8 decoder |
| PercentDecoding.Utf8PercentDecode | url.js:108-172 | the decoded text is never longer than the input |
| PercentDecoding.DecodeBytes | url.js:118-168 | a run of n bytes decodes to at most 3n code units, and to at least one when n > 0 |
| PercentDecoding.Reemit | url.js:122 | a byte written back starts with "%" and is at most three code units long |
| PercentDecoding.DecodeAscii | url.js:118-120 | bytes below 0x80 are copied one for one as code units |
| PercentDecoding.PercentDecodeNotIdempotent | url.js:96-98 | "%C3%25%34%31" decodes to "Ã%41", which decodes again to "ÃA" |
| PercentDecoding.Utf8DecodeNotIdempotent | url.js:108-172 | "%C3%25%34%31" decodes to "%C3%41", which decodes again to "%C3A" |
| PercentDecoding.UnitsBytes | url.js:51-76 | a non-empty string encodes to a non-empty byte list |
| PercentDecoding.DecodeUnitsBytes | url.js:118-168 | decoding the encoder's bytes of a string without pairs gives the string back, and continues after it |
| PercentDecoding.FlushPending | url.js:109-171 | pending code units written as one run of triplets decode back, and decoding continues after the run |
| PercentDecoding.CopyFirst | url.js:109 | a code unit other than "%" is copied by the UTF-8 decoder |
| PercentDecoding.EncodeFirst | url.js:175-177 | percent-encoding handles the first code unit on its own when it does not start a pair |
| PercentDecoding.EncodeDecodePending | url.js:108-178 | a string without "%" and without surrogate pairs, encoded in any set after pending triplets, decodes to the pending units followed by the string |
| PercentDecoding.EncodeDecodeRoundTrip | url.js:108-178 | for a string without "%" and without surrogate pairs, UTF-8 decoding its percent-encoding in any set gives it back |
| PathMerge.PathConcatSplices | url.js:180-198 | the result is always a prefix of the base followed by a suffix of the path: at most two path segments are cut, and the base either loses at most two segments or is dropped |
| PathMerge.PathConcatMissingBase | url.js:181 | a missing base acts as the empty path, and a path starting with "" and two or more segments ignores the base altogether |
| PathMerge.DropLast | url.js:193 | `pop` removes the last segment and leaves a prefix, and does nothing to an empty path |
| PathMerge.DotExample | url.js:183-194 | (["a","b"], ["."]) gives [] |
| PathMerge.EmptySegmentExample | url.js:188-189 | (["a","b"], [""]) gives ["a","b"] |
| CanonicalIpv6.Canonicalize | url.js:243-284 | the output is upper-case hex digits and ":", followed, when a dotted quad is given, by "::" and the quad |
| CanonicalIpv6.CanonicalizeCorrected | url.js:243-284 | without a dotted quad the corrected output is the output as written; with one, upper-case hex digits and ":" are followed by ":" and the quad |
| CanonicalIpv6.HeadCanonText | url.js:280-281 | the text before the quad is upper-case hex digits and ":" only |
| CanonicalIpv6.CanonicalIdempotent | url.js:243-284 | without a dotted quad, the output is a valid shape, and canonicalizing that shape's pieces before and after "::" gives the same output again |
| CanonicalIpv6.CanonIdempotent | url.js:255 | a rewritten group is its own rewrite |
| CanonicalIpv6.NoElisionQuad | url.js:280-282 | six groups joined by ":", then "::" and a dotted quad, are not an IPv6address |
| CanonicalIpv6.NoElisionOutput | url.js:266-282 | as written, a dotted quad with no elision (no "0" group, or only one at index 0) gives an output that is not an IPv6address |
| CanonicalIpv6.NotSixThenQuad | url.js:280-282 | no valid shape is spelled as six pieces, "::" and a dotted quad |
| CanonicalIpv6.ColonsColonCount | url.js:280 | n pieces joined by ":" hold n - 1 colons |
| CanonicalIpv6.QuadLength | url.js:282 | a dotted quad is at least seven characters, longer than any 16-bit piece |
| CanonicalIpv6.CanonicalShape | url.js:243-284 | without a dotted quad the output is the spelling of a valid IPv6 shape that stands for the padded, rewritten groups |
| CanonicalIpv6.CanonicalIsAddress | url.js:243-284 | without a dotted quad the output is an IPv6address of the grammar |
| CanonicalIpv6.Canon | url.js:254-256 | each group is rewritten as upper-case hex of the same value, without leading zeros, and is "0" exactly for zero |
| CanonicalIpv6.Padded | url.js:246-252 | the result is pre, then "0" groups up to the slot count, then post: pre and post are kept whole and in place |
| CanonicalIpv6.Groups | url.js:252-256 | every padded group is rewritten, keeping its value |
| CanonicalIpv6.FirstZero | url.js:258-265 | the search finds the first "0" group in its range, or none exactly when there is none |
| CanonicalIpv6.Elision | url.js:258-268 | the elided group is the first "0" group, at index 1 or later; there is none when the first "0" is at index 0 or absent |
| CanonicalIpv6.StripZeros | url.js:273-275 | only leading "0" groups are removed, and one group always stays |
| CanonicalIpv6.Tail | url.js:270-277 | the groups after "::" are a non-empty suffix of the groups, and every group between the elided one and that suffix is "0"; the tail is dropped only with a dotted quad and only when every group after the elision is "0" |
| CanonicalIpv6.ElidedGroups | url.js:270-275 | the groups before the elided one, the elided zeros and the tail make up all groups |
| CanonicalIpv6.GroupsShape | url.js:267-280 | with no elision, the eight groups joined by ":" are a valid full shape |
| CanonicalIpv6.ElidedShape | url.js:269-281 | with an elision, the output is a valid elided shape standing for the same groups |
| CanonicalIpv6.FullShape | url.js:280-282 | joined groups, with an optional dotted quad, are a valid full shape |
| CanonicalIpv6.QuadTailShape | url.js:270-282 | with a dotted quad and a tail, the text before the quad is a valid shape once the quad is joined with ":" |
| CanonicalIpv6.DroppedTailShape | url.js:277-282 | when a lone "0" tail is dropped, the output with "::" and the quad is a valid shape |
| CanonicalIpv6.CorrectedShape | url.js:243-284 | with a dotted quad, the corrected output is a valid shape standing for the six rewritten groups |
| CanonicalIpv6.CorrectedIsAddress | url.js:243-284 | with a dotted quad, the corrected output is an IPv6address of the grammar |
| CanonicalIpv6.TwoElisions | url.js:281-282 | no text with two "::" is an IPv6address |
| CanonicalIpv6.DoubleElision | url.js:281-282 | as written, a dotted quad after an elision with a kept tail gives a second "::", and the output is not an IPv6address |
| CanonicalIpv6.DoubleElisionExample | url.js:243-284 | (["1"], ["5"], "1.2.3.4") gives a non-address as written, and an address when corrected |
| CanonicalIpv6.DoubleElisionInput | url.js:258-277 | for the groups 1,0,0,0,0,5 the elision is at index 1 and "5" stays after it |
| CanonicalIpv6.HexValueBound | url.js:255 | a hex numeral of k digits is below 16^k |
| CanonicalExamples.LoopbackExample | url.js:243-284 | ([], ["1"]) gives "0:0:0:0:0:0:0:1" |
| CanonicalExamples.DocumentationExample | url.js:243-284 | (["2001", "db8"], ["1"]) gives "2001:DB8::1" |
| CanonicalExamples.Canon2001 | url.js:255 | "2001" is rewritten as "2001" |
| CanonicalExamples.CanonDb8 | url.js:255 | "db8" is rewritten as "DB8" |
| CanonicalExamples.NoElisionExample | url.js:243-284 | ([], [], "1.2.3.4") gives "0:0:0:0:0:0::1.2.3.4", which is not an IPv6address, while the corrected join gives one |
| CanonicalExamples.EmptyGroups | url.js:246-256 | no pieces at all give six "0" groups with a dotted quad |
| CanonicalExamples.DocumentationElision | url.js:258-275 | for 2001, DB8, five zeros and 1, the elision is at index 2 and only "1" stays after it |
| UrlObject.Serialize | url.js:379-406 | the output always starts with the scheme and ":", and a missing scheme prints as "null:" |
| UrlObject.SerializeFragment | url.js:401-403 | `serializer(true)` is `serializer(false)` without the "#fragment" suffix, and the same when there is no fragment |
| UrlObject.SerializeLayout | url.js:383-397 | after "scheme:" comes the scheme data verbatim when it is truthy, else "//" |
| UrlObject.Credentials | url.js:386-390 | "user[:password]@" is written exactly when the user name is non-empty or a password is present |
| UrlObject.Authority | url.js:384-393 | the authority part starts with "//" |
| UrlObject.SerializeFromGetters | url.js:379-406 | for a truthy scheme and non-empty query and fragment, the serialization is protocol, authority (without scheme data), pathname, search and hash in that order |
| UrlObject.BodyFromGetters | url.js:383-397 | for a truthy scheme, what follows "scheme:" is the authority (without scheme data) and the pathname |
| UrlObject.SuffixesFromGetters | url.js:399-403 | for non-empty query and fragment, the serializer's suffixes are the search and hash getters |
| UrlObject.EmptyQueryWritten | url.js:399 | an empty query is invisible to `search` but still adds "?" to the serialization |
| UrlObject.MissingScheme | url.js:381 | without a scheme, protocol is ":" and pathname is "", yet the serialization starts with "null:" |
| UrlObject.Href | url.js:413-415 | `href` is a truthy `_href` when there is one; otherwise it is the serialization, which starts with `protocol` when a scheme is present and ends with `hash` when a fragment is present |
| UrlObject.Username | url.js:450-452 | a non-empty user name is what the serialized credentials start with |
| UrlObject.Password | url.js:467-469 | a non-empty password is what the credentials hold between ":" and "@"; an empty one reads as "" although the credentials still hold ":" |
| UrlObject.Hostname | url.js:501-503 | the host name is what the serialized authority holds right after "//" and the credentials, and "" for a missing host |
| UrlObject.Port | url.js:518-520 | a non-empty port is what the serialized authority ends with, after ":"; with an empty port the authority ends with the host name |
| UrlObject.Protocol | url.js:434 | protocol ends in ":", and is ":" alone exactly when the scheme is falsy |
| UrlObject.Host | url.js:485 | host is always hostname, ":" and port, so an empty port still leaves the ":" |
| UrlObject.Pathname | url.js:536-537 | pathname is "" without a scheme, and starts with "/" when there is a scheme and no scheme data |
| UrlObject.Search | url.js:554-555 | search is "" exactly for an absent or empty query, and "?" and the query otherwise |
| UrlObject.Hash | url.js:572-573 | hash is "" exactly for an absent or empty fragment, and "#" and the fragment otherwise |
| UrlObject.Set | url.js:437-582 | a setter's result is the parser's URL on success; on failure only `exception` changes, to the parser's message |
| UrlObject.FailedSetKeepsUrl | url.js:437-443 | after a failed setter the serialization and every getter are unchanged |
| UrlObject.TrimStart | url.js:7 | leading TAB, LF, FF, CR and SPACE are removed, and only those |
| UrlObject.TrimEnd | url.js:8 | trailing TAB, LF, FF, CR and SPACE are removed, and only those |
| UrlObject.TrimSlice | url.js:5-9 | the trimmed input is a slice of the input with no outer whitespace, and everything cut is whitespace |
| UrlObject.TrimUnchanged | url.js:5-9 | trimming changes the input exactly when it starts or ends with whitespace |
| UrlObject.Install | url.js:12-24 | the parser's properties are copied over the defaults: absent ones give "" user name, "" port and empty path; `exception` and `href` are kept |
| UrlObject.Construct | url.js:1-29 | a built object has no `href`, and has the whitespace warning exactly when the input had outer whitespace; a parse failure keeps the trimmed input as `href` with the parser's message |
| UrlObject.SetHref | url.js:417-426 | setting `href` keeps the old `href` and `exception`, and a failed parse changes nothing |
| UrlObject.SetHrefIsConstruct | url.js:417-426 | setting `href` gives the URL the constructor would build, apart from the restored `href` and `exception` |
| UrlObject.StaleHref | url.js:414-423 | once `_href` is truthy, the `href` getter returns it whatever `href` is set to |
| ValidateExamples.PlainHttpAccepted | uri-validate.js:472-482 | "http://x/y" is accepted |
| ValidateExamples.LargePortAccepted | uri-validate.js:131-134 | "http://h:70000/p" is accepted: the port has no magnitude limit |
| ValidateExamples.UpperHttpRejected | uri-validate.js:478-480 | "HTTP://x/y" is rejected |
| ValidateExamples.PercentEscapeRejected | uri-validate.js:473-474 | "http://x/%41" is rejected |
| ValidateExamples.RelativeAccepted | uri-validate.js:475-476 | "/y", which has no ":", is accepted |
| ValidateExamples.HttpWordsAccepted | uri-validate.js:472-482 | every "http://h/w" with lower-case words h and w is accepted |
| ValidateExamples.HttpPortAccepted | uri-validate.js:131-134 | every "http://h:d/w" with a digit run d is accepted |
| ValidateExamples.RelativeWordAccepted | uri-validate.js:475-476 | every "/w" with a non-empty lower-case word w is accepted |
| ValidateExamples.WordHost | uri-validate.js:121-128 | a lower-case word is a host (a reg-name) |
| ValidateExamples.WordPath | uri-validate.js:141-152 | "/" and a lower-case word is a path-abempty |
| ValidateExamples.HostAuthority | uri-validate.js:134 | a host alone is an authority |
| ValidateExamples.HostPortAuthority | uri-validate.js:131-134 | a host, ":" and a digit run is an authority |
| ValidateExamples.WordSegment | uri-validate.js:144 | a non-empty lower-case word is a segment-nz |
| ValidateExamples.SegmentAbsolute | uri-validate.js:155 | "/" and a segment-nz is a path-absolute |

## Left out

- `UrlParser` is not part of this model. The constructor (url.js:3, 11), the `href` setter and every other setter (url.js:439-578) take the parser's outcome as a parameter: a function from input to result.
- The `base` argument of the constructor (url.js:3) is not modelled, since only the parser reads it.
- `hostParser` (url.js:201-235) is not modelled. It calls functions that JavaScript does not define, and it does IDNA normalisation. `hostSerializer` (237-240) is modelled as "null prints as the empty string".
- The `known` lookup (uri-validate.js:479) is a plain object and would also find inherited names such as "constructor". The table is modelled as exactly its eight own entries.
- The first accessor block (url.js:286-377) is modelled only by the record's fields: each of its accessors reads or writes one underscored property. Every setter's `this.exception = e.message` (url.js:441-580) goes through that block's `exception` accessor (365-376) to `_exception`, which is the record's `exception` field in `UrlObject.Set`. `Object.defineProperties` is not modelled. The second `host` accessor (480-495) replaces the first. The `schemeData` accessor writes `_schemeData`, which nothing reads; the model keeps only `_scheme_data`.
- `DEFAULT_PORT`, `RELATIVE_SCHEME` and `URL_CODE_POINTS` (url.js:38-49) are unused data and are not modelled.
- Regex engine mechanics (backtracking, `RegExp` construction) are not modelled; patterns are modelled as languages. Scheme lower-casing uses ASCII `A`-`Z` only. That is exact here because a URI-reference is ASCII (`Validate.SchemeIsAscii`).
- The grammar productions of mailto, data, gopher and file are modelled as patterns. No lemma is proved about their languages beyond `Validate.KnownPrefix`.
- PathMerge.PathConcat: the source shifts the caller's path array in place (url.js:184, 191). Only the returned path is modelled.
- CanonicalIpv6.Canonicalize: requires each piece to be 1 to 4 hex digits (what the IPv6 grammar lets through). The `parseInt` leniency for other pieces is not modelled: "" becomes "NAN", five or more digits become a larger number, and trailing non-hex text is ignored.
- CanonicalIpv6.Canonicalize: the padding loop pushes "0" onto the caller's `pre` array (url.js:249). Only the returned text is modelled.
- CanonicalIpv6.CanonicalizeCorrected: requires each piece to be 1 to 4 hex digits, as `CanonicalIpv6.Canonicalize` does, for the same reason.
- CanonicalIpv6.CanonicalShape: with a dotted quad the output as written is not always an address (see Findings), so the address property is proved for the no-quad case, and for the corrected version with a quad.
- CanonicalIpv6.CanonicalIdempotent: idempotence is proved without a dotted quad only. With one, the output as written is not always an address (see Findings), so its pieces cannot always be read back.
- PercentEncoding.Utf8PercentEncode: the bitwise `|` of the source is written as `+`. The two are the same here because the operands share no bits.
- The repeated second-byte test in the three-byte branch of `utf8PercentDecode` (url.js:134-137) never fires. It is kept as a comment only.
- The object returned by `percentDecode` is a `String` object with an `exception` property when it warns (url.js:100-103). It is modelled as text plus an optional warning.
- PercentDecoding.EncodeDecodeRoundTrip: stated for strings without "%" and without surrogate pairs. A "%" that happens to be followed by two hex digits would be decoded, and a pair folds (`PercentDecoding.PairFolds`).
- The getters are modelled on a successfully constructed object. On an object whose parse failed only `_href` and `_exception` exist, and the getters would read `undefined`.
- The parser can set a property to `null` where the defaults hold "" (user name, port). Those properties are modelled as plain strings.
- UrlObject.Set: when the parser throws part-way, any properties it has already written stay written. The model takes the parser's result as a whole.
- The serializer prints a missing scheme as "null" (url.js:381), and the model does the same. It does not model `undefined` values.

## Findings

| source | as written | input that shows it | evidently intended | confidence | as-written member | corrected member |
|---|---|---|---|---|---|---|
| url.js:270-282 | with a dotted quad, the groups after the elision are written after "::", and "::" and the quad are then appended as well | pre ["1"], post ["5"], ipv4 "1.2.3.4" gives "1::5::1.2.3.4", which has two "::" and is not an IPv6address | "1::5:1.2.3.4": the quad is joined with ":" after a kept tail, and with "::" only when the elided run reaches the quad | not executed | CanonicalIpv6.DoubleElision, CanonicalIpv6.DoubleElisionExample | CanonicalIpv6.CanonicalizeCorrected, CanonicalIpv6.CorrectedIsAddress |
| url.js:266-282 | with a dotted quad and no elision (no "0" group at index 1 to 4), `post` is null, and "::" and the quad are still appended after the six groups | pre [], post [], ipv4 "1.2.3.4" gives "0:0:0:0:0:0::1.2.3.4": six groups, "::" and a quad, which is not an IPv6address | "0:0:0:0:0:0:1.2.3.4": the quad joined with ":" | not executed | CanonicalIpv6.NoElisionOutput, CanonicalExamples.NoElisionExample | CanonicalIpv6.CanonicalizeCorrected, CanonicalIpv6.CorrectedIsAddress |
