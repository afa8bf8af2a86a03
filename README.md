# ICE candidate handling of the WebRTC signalling core

This project models, in Dafny, the part of the GStreamer/WebRTC streaming
service that handles ICE candidates and SDP text:

* `src/moz_ice.rs` turns a raw ICE candidate string, as the GStreamer engine
  reports it (`candidate:<foundation> <component> <transport> <priority>
  <address> <port> typ <type> [raddr <addr> rport <port>] …`), into the
  `webrtc_sdp` candidate attribute. It has a host arm and an arm for
  server-reflexive, peer-reflexive and relayed candidates. Integers are parsed
  as Rust `u32`/`u64`. Transport and type keywords are compared without regard
  to case. Addresses go through the SDP library's address parser.
* `src/domain.rs` does four jobs:
  * it pulls the `a=candidate` lines out of a remote SDP answer;
  * it gathers local candidates from a channel, stopping at the first timeout
    or after 16 of them;
  * it inserts the gathered candidates into the media sections of the local
    offer;
  * it rewrites `\r\n\r\n` to `\r\n` in the offer text it returns.

  When an answer arrives, it sets the remote description on the engine and
  then adds every candidate found in the answer at media-line index 0.

The model has five modules:

* `Prelude`: `Option`, `Result`, and the `u32`/`u64` ranges.
* `Text`: the Rust string operations the core relies on.
  * `split(' ')` keeps empty tokens.
  * `trim_start_matches` strips a prefix repeatedly.
  * `lines` strips `\n` and then one `\r`.
  * `replace` rewrites non-overlapping matches, left to right.
  * `to_lowercase` lowers ASCII letters.
  * `parse::<u32>` / `parse::<u64>` accept an optional `+` followed by decimal digits.
* `MozIce`: the candidate parser. `MozIceProperties` holds the lemmas about it.
* `Sdp`: the parsed session, seen as media sections of ordered attributes. The
  foreign SDP libraries are collected in one record of functions
  (`SdpLibrary`), so every property holds whatever those libraries do:
  * `webrtc_sdp::parse_sdp`;
  * the media-level admission check of `add_attribute`;
  * `SdpSession::to_string`;
  * `Address::from_str`;
  * GStreamer's `SDPMessage::parse_buffer`.
* `Domain`: extraction, gathering, insertion, the CRLF rewrite, `get_offer`
  and `process_sdp_answer`. The engine element is the class `WebRtcBin`. It
  records the signals emitted on it, oldest first.

Behaviour worth knowing, as the code has it:

* A media-line index with no matching section stops the whole insertion.
  In the code this is a panic of `expect`; the model makes it the error
  `MediaSectionMissing`. No candidate is skipped on this account.
* The `\r\n\r\n` rewrite is a single pass. Three CRLFs in a row still leave
  a doubled CRLF (`Domain.SinglePassLeavesDoubledCrlf`), so the offer text is
  not guaranteed free of blank lines.
* Only the exact lower-case token `host` selects the host arm, so `HOST` misses
  it. With `raddr`/`rport` in place, the extended arm refuses it as an unknown
  type (unless an earlier field already failed). Otherwise no arm matches and
  the candidate has no recognised shape.

## Model

| member | source | states |
|---|---|---|
| MozIce.ParseTransport | src/moz_ice.rs:53-57 | `udp`/`tcp` in any letter case give UDP/TCP, and nothing else is accepted (both directions) |
| MozIce.ParseExtendedType | src/moz_ice.rs:95-100 | `srflx`/`prflx`/`relay` in any case give the matching type; never Host; anything else is refused |
| MozIce.AssembleHostCandidate | src/moz_ice.rs:42-72 | succeeds exactly when component, priority and port parse as u32/u64/u32, the transport is known and the address parses; the candidate carries exactly those values, type Host, no related address or port; a bad integer is an integer error |
| MozIce.AssembleExternCandidate | src/moz_ice.rs:74-118 | succeeds exactly when the host fields, the type keyword, the related address and related port all convert; the candidate carries the parsed fields, the parsed type, and the related address and port |
| MozIce.ToMozCandidateSpec | src/moz_ice.rs:15-40 | after stripping `candidate:` and splitting on single spaces, success means (host shape and fields convert) or (not host shape, extended shape, fields convert); no shape is the shape error; Host exactly for the host shape, with no related address; otherwise type, raddr and rport are the parses of tokens 7, 9 and 11 |
| MozIceProperties.HostRoundTrip | src/moz_ice.rs:15-72 | a host candidate written as `candidate:` plus its canonical tokens parses back to exactly that candidate |
| MozIceProperties.ExtendedRoundTrip | src/moz_ice.rs:15-40 | a reflexive/relayed candidate written with `typ`, `raddr`, `rport` parses back to exactly that candidate, related address and port included |
| MozIceProperties.ExtendedTokensTakeExtendedArm | src/moz_ice.rs:21-37 | the canonical extended token list is matched by the second arm and handed to the extended assembler token for token |
| MozIceProperties.AssembleExternCanonical | src/moz_ice.rs:74-118 | the extended assembler on canonical decimal and keyword tokens yields the candidate with those values |
| MozIceProperties.TokensOfWrittenLine | src/moz_ice.rs:16-19 | `candidate:` followed by space-joined, space-free tokens splits back into those tokens |
| MozIceProperties.CanonicalFieldsConvert | src/moz_ice.rs:50-57 | the decimal form of a u32/u64 parses back to it and has no space; the transport keyword parses back to its transport |
| MozIceProperties.TransportTokenParses | src/moz_ice.rs:53-57 | the lower-case keyword of each transport is accepted as that transport |
| MozIceProperties.ExtendedTypeTokenParses | src/moz_ice.rs:95-100 | the lower-case keyword of each non-host type is accepted as that type |
| MozIceProperties.CandidatePrefixOptional | src/moz_ice.rs:16-18 | any number of leading `candidate:` prefixes, none included, gives the same tokens |
| MozIceProperties.SinglePrefixTrimmed | src/moz_ice.rs:17 | one `candidate:` before a foundation that does not itself start with it is removed, the rest kept |
| MozIceProperties.DoubledSpaceYieldsEmptyToken | src/moz_ice.rs:18 | two spaces between tokens produce an empty token between them, which shifts the fields the arms see |
| MozIceProperties.TokensAfterExtension | src/moz_ice.rs:16-19 | appending a space and more text appends that text's tokens after the original ones |
| MozIceProperties.TrailingTokensIgnored | src/moz_ice.rs:21-37 | once a token list has a host or extended shape, extra trailing tokens do not change the result |
| MozIceProperties.ExtensionTokensIgnored | src/moz_ice.rs:21-37 | trailing extension attributes (`generation 0 …`) leave a recognised candidate's parse unchanged, error or success |
| MozIceProperties.ExtensionKeepsParsedCandidate | src/moz_ice.rs:15-40 | a candidate that parses still parses to the same value with extension attributes appended |
| MozIceProperties.HostKeywordIsCaseSensitive | src/moz_ice.rs:21-39 | a type token equal to `host` only up to case is rejected; without `raddr`/`rport` in place it is the no-shape error |
| MozIceProperties.SpaceFreeAppend | src/moz_ice.rs:18 | token lists without spaces stay without spaces when concatenated |
| MozIceProperties.FieldTokensSpaceFree | src/moz_ice.rs:22 | the six canonical field tokens contain no space when foundation and address do not |
| MozIceProperties.KeywordTokensSpaceFree | src/moz_ice.rs:25 | the `typ`, `raddr` and `rport` tokens and their values contain no space |
| Text.Split | src/moz_ice.rs:18 | at least one token, and no token contains the separator |
| Text.JoinSplit | src/moz_ice.rs:18 | joining the split tokens with the separator gives back the text |
| Text.SplitAtFirstSeparator | src/moz_ice.rs:18 | a separator-free token followed by the separator is the first token of the split, and the rest splits on its own |
| Text.SplitJoin | src/moz_ice.rs:18 | splitting joined separator-free tokens gives back the tokens |
| Text.JoinAppend | src/moz_ice.rs:18 | joining two token lists is joining each with one separator between them |
| Text.SplitAppend | src/moz_ice.rs:18 | splitting text with a separator in the middle splits each side |
| Text.FirstIndex | src/moz_ice.rs:18 | the result is the first position of the character, or the length when absent |
| Text.FirstIndexAbsent | src/moz_ice.rs:18 | a character that does not occur has its first index at the end |
| Text.FirstIndexAfter | src/moz_ice.rs:18 | the first separator after a separator-free block is at that block's length |
| Text.TrimPrefixes | src/moz_ice.rs:17 | the result is no longer than the input and no longer starts with the prefix |
| Text.TrimmedIsSuffix | src/moz_ice.rs:17 | the result is a suffix of the input |
| Text.TrimRepeatedPrefix | src/moz_ice.rs:17 | every repetition of the prefix is removed, and only those |
| Text.NoRepeatTrimmed | src/moz_ice.rs:17 | text not starting with the prefix is left as it is |
| Text.OneMoreRepeatTrimmed | src/moz_ice.rs:17 | one more leading copy of the prefix is also removed |
| Text.TrimOnePrefix | src/moz_ice.rs:17 | trimming after one copy of the prefix equals trimming the rest |
| Text.TrimPrefixesAppend | src/moz_ice.rs:17 | text appended after a character foreign to the prefix is kept by the trim |
| Text.ToLowerMatches | src/moz_ice.rs:53 | lower-casing a token equals a lower-case keyword exactly when they agree ignoring case |
| Text.ParseUnsigned | src/moz_ice.rs:50-52 | succeeds exactly on an optional `+` followed by one or more digits whose value is below the width's limit, and then yields that value; `+digits` reads as its digits, anything with another character (`12a`, `+`, empty) is refused |
| Text.ParseU32 | src/moz_ice.rs:50 | accepts exactly the numerals (optional `+`, then digits) whose value is below 2^32, yielding that value |
| Text.ParseU64 | src/moz_ice.rs:51 | accepts exactly the numerals (optional `+`, then digits) whose value is below 2^64, yielding that value |
| Text.Decimal | src/moz_ice.rs:50-52 | the decimal text of n is non-empty, all digits and has value n |
| Text.ParseDecimal | src/moz_ice.rs:50-52 | the decimal text of an in-range number parses back to it and contains no space |
| Text.Lines | src/domain.rs:348 | no line contains a line feed |
| Text.LinesOfCrlfText | src/domain.rs:348 | text made of CRLF-terminated lines splits back into exactly those lines |
| Sdp.AddAttribute | src/domain.rs:328 | the attribute is appended at the end, with the media line and earlier attributes kept, exactly when the library admits it |
| Domain.AttributePrefixTrimmed | src/domain.rs:351-352 | on an `a=candidate` line, stripping `a=` removes exactly the first two characters |
| Domain.CandidatesOfLines | src/domain.rs:349-353 | no more results than lines; every result starts with `candidate` and, with `a=` put back, is one of the lines |
| Domain.CandidatesOfOneLine | src/domain.rs:351-352 | a line contributes its text after `a=` exactly when it starts with `a=candidate` |
| Domain.CandidatesOfLinesAppend | src/domain.rs:349-353 | the candidates of two blocks of lines are those of the first followed by those of the second |
| Domain.EveryCandidateLineExtracted | src/domain.rs:349-353 | every `a=candidate` line's text after `a=` is among the results |
| Domain.ExtractFromCrlfText | src/domain.rs:347-354 | on CRLF-terminated SDP text the results are those of its lines; no terminator reaches them |
| Domain.ExtractBetweenOtherLines | src/domain.rs:347-354 | a candidate line between two non-candidate lines is the only result |
| Domain.ExtractDocumentedExample | src/domain.rs:337-343 | the documented three-line example yields only the candidate value without `a=` |
| Domain.ArrivedBeforeStop | src/domain.rs:274-280 | the result is the run of received candidates before the first timeout or disconnection |
| Domain.GatherLocalCandidates | src/domain.rs:266-284 | the loop returns the arrivals cut at the first timeout or after `max_items`, whichever comes first |
| Domain.GatheredBounds | src/domain.rs:274 | at most `max_items` candidates, exactly min(arrivals, `max_items`) of them, in arrival order |
| Domain.GatheredScenarios | src/domain.rs:274-281 | five queued candidates with a limit of two give the first two; one candidate then a timeout gives one |
| Domain.ParseEach | src/domain.rs:325 | one outcome per candidate: entry k is present exactly when `to_moz_candidate` accepts candidate k's text, and is then the candidate it returns |
| Domain.ApplyCandidate | src/domain.rs:318-331 | fails exactly when the index names no media section; otherwise only the named section changes, gaining the candidate attribute at its end when it parsed and was admitted; an unparsable candidate changes nothing |
| Domain.InsertCandidate | src/domain.rs:318-331 | one step of the insertion loop, in source order, computes exactly that effect |
| Domain.ApplyAll | src/domain.rs:317-332 | a successful batch keeps the session layout |
| Domain.ApplyAllSucceedsIff | src/domain.rs:317-323 | a batch succeeds exactly when every candidate's index names a media section |
| Domain.ApplyAllAppendsAt | src/domain.rs:317-332 | after a batch, each section holds its old attributes followed by the admitted candidates aimed at it, in batch order |
| Domain.UnparsableCandidateIgnored | src/domain.rs:325 | a candidate string that does not convert adds nothing to any section |
| Domain.UnnamedSectionUntouched | src/domain.rs:318-330 | a section no candidate names gains nothing |
| Domain.TwoCandidatesForFirstSection | src/domain.rs:317-332 | two admitted candidates for index 0 land, in order, at the end of the first section and nowhere else |
| Domain.InsertionEffect | src/domain.rs:311-335 | an unparsable SDP is an invalid-SDP error; otherwise success exactly when all indices are in range, with the layout kept and each section's attributes extended by its admitted candidates |
| Domain.InsertLocalCandidates | src/domain.rs:311-335 | the method (validate, then loop over the candidates) computes that insertion result |
| Domain.LineContentAppend | src/domain.rs:184-186 | the non-terminator characters of a concatenation are those of each part |
| Domain.TerminatorsHaveNoContent | src/domain.rs:186 | text made only of CR and LF has no content |
| Domain.CollapseKeepsContent | src/domain.rs:184-186 | the rewrite removes only CR and LF characters: all other characters survive, in order |
| Domain.DoubleCrlfShift | src/domain.rs:186 | an occurrence in the text after its first character is one place further right in the text |
| Domain.CollapseShrinksByPairs | src/domain.rs:186 | the text never grows and shrinks by an even number of characters |
| Domain.CollapseWithoutDoubleIsIdentity | src/domain.rs:186 | text without a doubled CRLF is returned unchanged |
| Domain.CollapseWithDoubleShrinks | src/domain.rs:186 | text with a doubled CRLF gets shorter |
| Domain.CollapseShrinksIffDoubled | src/domain.rs:184-186 | the text shrinks exactly when it contains a doubled CRLF, by pairs, and is unchanged otherwise |
| Domain.CollapseAtFirstMatch | src/domain.rs:184-186 | the first doubled CRLF becomes one CRLF, the text before it is kept, and the rewrite resumes after the match; with the identity lemma this fixes the result of every input |
| Domain.SinglePassLeavesDoubledCrlf | src/domain.rs:186 | three CRLFs in a row become two, so a doubled CRLF can remain after the rewrite |
| Domain.GetOffer | src/domain.rs:177-189 | an unparsable offer is an invalid-SDP error; success exactly when inserting the (at most 16) gathered candidates succeeds, and the result is the serialised session with the CRLF rewrite applied |
| Domain.WebRtcBin.constructor | src/domain.rs:72-74 | a fresh engine element has emitted no signal |
| Domain.RemoteCandidateSignals | src/domain.rs:203-207 | one `add-ice-candidate` signal per candidate, in order, each at media-line index 0 with the candidate text unchanged |
| Domain.AddRemoteCandidate | src/domain.rs:212-222 | emits exactly one `add-ice-candidate` with the given index and text, and succeeds |
| Domain.AddRemoteCandidates | src/domain.rs:203-207 | the loop appends exactly those signals to the element's history |
| Domain.ProcessSdpAnswer | src/domain.rs:191-210 | validation fails first as invalid SDP, then GStreamer's parse as an answer-parse error, with nothing emitted; on success the remote description is set first and then every extracted candidate is added at index 0, in order |

## Left out

- `block_get_local_description` (src/domain.rs:290-308) polls an engine property with sleeps. `get_offer` is modelled from the SDP text that call returns.
- `listen_for_local_candidates`, `create_pipeline`, `create_send_receive_pipeline`, `auto_create_offer`, `on_incoming_stream` and `add_stream_destination` build and drive GStreamer pipelines and callbacks. They do no ICE or SDP text handling.
- `src/api.rs`, `src/send_receive.rs`, `src/gstlib.rs` and `src/main.rs` (HTTP API, pipelines, process start-up) are not part of this model.
- The SDP grammar is not modelled. The SDP libraries are parameters: `webrtc_sdp` parsing, attribute admission, serialisation, address parsing and GStreamer's SDP parser.
- `recv_timeout`'s 100 ms wait is not modelled. The channel is the sequence of outcomes of successive receives, and running past its end counts as a timeout.
- Panics from `emit(...).unwrap()`, `as_text().unwrap()` and `add_remote_candidate(...).unwrap()` are left out: each `emit` is assumed to succeed.
- Domain.InsertLocalCandidates: the `expect` panic on a missing media section is modelled as the error result `MediaSectionMissing`, which ends the insertion as the panic would.
- Text.ToLower: lower-cases ASCII letters only, while Rust's `to_lowercase` is Unicode-aware. For the keywords compared (`udp`, `tcp`, `srflx`, `prflx`, `relay`) both give the same answer on ASCII tokens.
- `IceCandidate::new` and its two getters only build and read the record. They are the datatype `Domain.IceCandidate` and its fields.
- Log messages (`info!`) are not modelled.
