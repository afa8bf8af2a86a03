/**
 * The SDP candidate helpers and the negotiation steps around the media engine:
 * extracting candidate lines from remote SDP, gathering locally discovered
 * candidates for a bounded window, inserting them into the local description at
 * their media-line index, the blank-line collapse of the offer text, and the
 * order of engine signals when an answer is applied.
 */
module Domain {
  import opened Prelude
  import opened Text
  import MozIce
  import opened Sdp

  /** A candidate as the engine reports it: media-line index and the attribute value after `a=`. */
  datatype IceCandidate = IceCandidate(mediaLineIndex: uint32, candidateStr: string)

  datatype DomainError =
    | InvalidSdp                    // the strict SDP parser refused the text
    | AnswerParseFailed             // the engine's own SDP parser refused the answer
    | MediaSectionMissing(index: nat)  // a candidate named a media section the session lacks

  const AttributePrefix := "a="
  const CandidateAttributePrefix := "a=candidate"

  // ---------------------------------------------------------------------------
  // extract_candidates

  lemma AttributePrefixTrimmed(line: string)
    requires StartsWith(line, CandidateAttributePrefix)
    ensures TrimPrefixes(line, AttributePrefix) == line[2..]
    ensures StartsWith(line[2..], "candidate") && AttributePrefix + line[2..] == line
  {
    assert line[..2] == line[..11][..2] == AttributePrefix;
    assert line[2..][..9] == line[..11][2..] == "candidate";
    assert line[2..][..2] != AttributePrefix by {
      assert line[2..][..2][0] == 'c';
    }
    assert line == line[..2] + line[2..];
  }

  /** The filter and prefix strip over a list of lines. */
  function CandidatesOfLines(lines: seq<string>): (r: seq<string>)
    ensures |r| <= |lines|
    ensures forall k :: 0 <= k < |r| ==> StartsWith(r[k], "candidate") && AttributePrefix + r[k] in lines
    decreases |lines|
  {
    if lines == [] then []
    else
      var rest := CandidatesOfLines(lines[1..]);
      if StartsWith(lines[0], CandidateAttributePrefix) then
        AttributePrefixTrimmed(lines[0]);
        [TrimPrefixes(lines[0], AttributePrefix)] + rest
      else
        rest
  }

  /** `extract_candidates`: the `a=candidate` lines of the SDP text, without their `a=`. */
  function ExtractCandidates(sdp: string): seq<string> {
    CandidatesOfLines(Lines(sdp))
  }

  /** One line contributes its value exactly when it is a candidate attribute. */
  lemma CandidatesOfOneLine(line: string)
    ensures CandidatesOfLines([line]) == if StartsWith(line, CandidateAttributePrefix) then [line[2..]] else []
  {
    if StartsWith(line, CandidateAttributePrefix) {
      AttributePrefixTrimmed(line);
    }
  }

  /** Source order is kept: the candidates of two blocks of lines are those of each, in turn. */
  lemma {:induction false} CandidatesOfLinesAppend(a: seq<string>, b: seq<string>)
    ensures CandidatesOfLines(a + b) == CandidatesOfLines(a) + CandidatesOfLines(b)
    decreases |a|
  {
    if a == [] {
      assert a + b == b;
    } else {
      assert (a + b)[0] == a[0];
      assert (a + b)[1..] == a[1..] + b;
      CandidatesOfLinesAppend(a[1..], b);
    }
  }

  /** No candidate line is dropped: each one's value, without `a=`, is among the results. */
  lemma EveryCandidateLineExtracted(lines: seq<string>, k: nat)
    requires k < |lines| && StartsWith(lines[k], CandidateAttributePrefix)
    ensures lines[k][2..] in CandidatesOfLines(lines)
  {
    var before, line, after := lines[..k], lines[k], lines[k + 1..];
    assert lines == before + ([line] + after);
    CandidatesOfLinesAppend(before, [line] + after);
    CandidatesOfLinesAppend([line], after);
    CandidatesOfOneLine(line);
    assert CandidatesOfLines([line] + after) == [line[2..]] + CandidatesOfLines(after);
  }

  /** On CRLF-terminated SDP text the line terminators never reach the results. */
  lemma ExtractFromCrlfText(lines: seq<string>)
    requires forall k :: 0 <= k < |lines| ==> '\n' !in lines[k]
    ensures ExtractCandidates(CrlfText(lines)) == CandidatesOfLines(lines)
  {
    LinesOfCrlfText(lines);
  }

  /** Lines around a candidate line that are not candidates yield nothing. */
  lemma ExtractBetweenOtherLines(before: string, candidate: string, after: string)
    requires '\n' !in before && '\n' !in candidate && '\n' !in after
    requires !StartsWith(before, CandidateAttributePrefix) && !StartsWith(after, CandidateAttributePrefix)
    requires StartsWith(candidate, CandidateAttributePrefix)
    ensures ExtractCandidates(CrlfText([before, candidate, after])) == [candidate[2..]]
  {
    ExtractFromCrlfText([before, candidate, after]);
    assert [before, candidate, after] == [before] + ([candidate] + [after]);
    CandidatesOfLinesAppend([before], [candidate] + [after]);
    CandidatesOfLinesAppend([candidate], [after]);
    CandidatesOfOneLine(before);
    CandidatesOfOneLine(candidate);
    CandidatesOfOneLine(after);
  }

  /**
   * The example of the function's documentation, line by line, for any candidate text: between
   * an `a=rtcp` and an `a=ice-ufrag` line, only the candidate line yields a value, without `a=`.
   */
  lemma ExtractDocumentedExample(rest: string)
    ensures CandidatesOfLines(["a=rtcp:9 IN IP4 0.0.0.0", "a=candidate" + rest, "a=ice-ufrag:avZ6"])
            == ["candidate" + rest]
  {
    var rtcp, line, ufrag := "a=rtcp:9 IN IP4 0.0.0.0", CandidateAttributePrefix + rest, "a=ice-ufrag:avZ6";
    assert line[..11] == CandidateAttributePrefix;
    assert line[2..] == "candidate" + rest;
    assert rtcp[..11][2] != CandidateAttributePrefix[2];
    assert ufrag[..11][2] != CandidateAttributePrefix[2];
    assert [rtcp, line, ufrag] == [rtcp] + ([line] + [ufrag]);
    CandidatesOfLinesAppend([rtcp], [line] + [ufrag]);
    CandidatesOfLinesAppend([line], [ufrag]);
    CandidatesOfOneLine(rtcp);
    CandidatesOfOneLine(line);
    CandidatesOfOneLine(ufrag);
  }

  // ---------------------------------------------------------------------------
  // block_gather_local_candidates

  /** What one `recv_timeout` on the candidate channel returns. */
  datatype RecvOutcome = Received(candidate: IceCandidate) | TimedOut | Disconnected

  /** The candidates that arrive before the first timeout or disconnection. */
  function ArrivedBeforeStop(rx: seq<RecvOutcome>): (items: seq<IceCandidate>)
    ensures |items| <= |rx|
    ensures forall i :: 0 <= i < |items| ==> rx[i] == Received(items[i])
    ensures |items| < |rx| ==> !rx[|items|].Received?
    decreases |rx|
  {
    if rx == [] || !rx[0].Received? then [] else [rx[0].candidate] + ArrivedBeforeStop(rx[1..])
  }

  /** The arrival stream cut at the first stop or after `maxItems` candidates, whichever is first. */
  function Gathered(rx: seq<RecvOutcome>, maxItems: nat): seq<IceCandidate> {
    var arrived := ArrivedBeforeStop(rx);
    if |arrived| <= maxItems then arrived else arrived[..maxItems]
  }

  /**
   * `block_gather_local_candidates`. `rx` lists what successive `recv_timeout` calls
   * return; polling past its end times out.
   */
  method GatherLocalCandidates(rx: seq<RecvOutcome>, maxItems: nat) returns (received: seq<IceCandidate>)
    ensures received == Gathered(rx, maxItems)
  {
    received := [];
    var continuePolling := true;
    var next := 0;
    while continuePolling && |received| < maxItems
      invariant |received| <= maxItems
      invariant |received| <= |ArrivedBeforeStop(rx)|
      invariant received == ArrivedBeforeStop(rx)[..|received|]
      invariant continuePolling ==> next == |received| <= |rx|
      invariant !continuePolling ==> received == ArrivedBeforeStop(rx)
      decreases if continuePolling then 1 else 0, |rx| - next
    {
      var outcome := if next < |rx| then rx[next] else TimedOut;
      next := next + 1;
      match outcome {
        case Received(c) =>
          // the stream has not stopped yet at `next`, so `c` is the next arrival
          assert next - 1 < |ArrivedBeforeStop(rx)| && ArrivedBeforeStop(rx)[next - 1] == c;
          received := received + [c];
        case _ =>
          continuePolling := false;
      }
    }
  }

  /** At most `maxItems` candidates, a prefix of the arrivals, of length min(k, maxItems). */
  lemma GatheredBounds(rx: seq<RecvOutcome>, maxItems: nat)
    ensures |Gathered(rx, maxItems)| <= maxItems
    ensures |Gathered(rx, maxItems)| == if |ArrivedBeforeStop(rx)| <= maxItems then |ArrivedBeforeStop(rx)| else maxItems
    ensures forall i :: 0 <= i < |Gathered(rx, maxItems)| ==> rx[i] == Received(Gathered(rx, maxItems)[i])
  {
  }

  /** A burst of five candidates with a limit of two gives two; one candidate then silence gives one. */
  lemma GatheredScenarios(a: IceCandidate, b: IceCandidate, c: IceCandidate, d: IceCandidate, e: IceCandidate)
    ensures Gathered([Received(a), Received(b), Received(c), Received(d), Received(e)], 2) == [a, b]
    ensures Gathered([Received(a), TimedOut], 16) == [a]
  {
    var burst := [Received(a), Received(b), Received(c), Received(d), Received(e)];
    assert ArrivedBeforeStop(burst)[0] == a && ArrivedBeforeStop(burst)[1] == b;
    var quiet := [Received(a), TimedOut];
    assert quiet[1..] == [TimedOut];
    assert ArrivedBeforeStop(quiet) == [a];
  }

  // ---------------------------------------------------------------------------
  // insert_local_candidates_into_sdp

  /** The candidate `to_moz_candidate` makes of a gathered candidate string, if any. */
  function ParsedCandidate(c: IceCandidate, lib: SdpLibrary): Option<MozIce.Candidate> {
    match MozIce.ToMozCandidate(c.candidateStr, lib.parseAddress)
    case Ok(parsed) => Some(parsed)
    case Err(_) => None
  }

  /** Every candidate string of a batch, parsed on its own. */
  function ParseEach(cs: seq<IceCandidate>, lib: SdpLibrary): (parsed: seq<Option<MozIce.Candidate>>)
    ensures |parsed| == |cs|
    ensures forall k :: 0 <= k < |cs| ==>
              (parsed[k].Some? <==> MozIce.ToMozCandidate(cs[k].candidateStr, lib.parseAddress).Ok?) &&
              (parsed[k].Some? ==> MozIce.ToMozCandidate(cs[k].candidateStr, lib.parseAddress) == Ok(parsed[k].value))
  {
    seq(|cs|, k requires 0 <= k < |cs| => ParsedCandidate(cs[k], lib))
  }

  /** The attribute a candidate, parsed as `parsed`, adds to media section `j`, if any. */
  function Contribution(c: IceCandidate, parsed: Option<MozIce.Candidate>, j: nat, lib: SdpLibrary): seq<SdpAttribute> {
    if c.mediaLineIndex == j && parsed.Some? && lib.allowedAtMediaLevel(CandidateAttribute(parsed.value))
    then [CandidateAttribute(parsed.value)]
    else []
  }

  /** The attributes a batch adds to media section `j`, in order. */
  function Added(cs: seq<IceCandidate>, parsed: seq<Option<MozIce.Candidate>>, j: nat, lib: SdpLibrary): seq<SdpAttribute>
    requires |parsed| == |cs|
    decreases |cs|
  {
    if cs == [] then [] else Contribution(cs[0], parsed[0], j, lib) + Added(cs[1..], parsed[1..], j, lib)
  }

  /** The sessions agree on everything but the attributes of their media sections. */
  predicate SameLayout(s: SdpSession, t: SdpSession) {
    s.sessionLines == t.sessionLines && |s.media| == |t.media|
    && forall j :: 0 <= j < |s.media| ==> s.media[j].mediaLine == t.media[j].mediaLine
  }

  /**
   * One step of the `for_each`: look the section up (out of range aborts, as the source's
   * `expect` panics), then add the parsed candidate; an unparsable candidate or one the
   * library refuses leaves the session as it was.
   */
  function ApplyCandidate(session: SdpSession, c: IceCandidate, parsed: Option<MozIce.Candidate>, lib: SdpLibrary)
    : (r: Result<SdpSession, DomainError>)
    ensures r.Err? <==> c.mediaLineIndex >= |session.media|
    ensures r.Err? ==> r.error == MediaSectionMissing(c.mediaLineIndex)
    ensures r.Ok? ==> SameLayout(session, r.value)
    ensures r.Ok? ==> forall j :: 0 <= j < |session.media| ==>
              r.value.media[j].attributes == session.media[j].attributes + Contribution(c, parsed, j, lib)
    ensures r.Ok? && parsed.None? ==> r.value == session
  {
    var index := c.mediaLineIndex as nat;
    if index >= |session.media| then Err(MediaSectionMissing(index))
    else
      var media := session.media[index];
      var added := Contribution(c, parsed, index, lib);
      if added == [] then Ok(session)
      else Ok(session.(media := session.media[index := media.(attributes := media.attributes + added)]))
  }

  /** The candidates applied left to right; the first out-of-range index aborts the whole batch. */
  function ApplyAll(session: SdpSession, cs: seq<IceCandidate>, parsed: seq<Option<MozIce.Candidate>>, lib: SdpLibrary)
    : (r: Result<SdpSession, DomainError>)
    requires |parsed| == |cs|
    ensures r.Ok? ==> SameLayout(session, r.value)
    decreases |cs|
  {
    if cs == [] then Ok(session)
    else match ApplyCandidate(session, cs[0], parsed[0], lib)
      case Err(e) => Err(e)
      case Ok(next) => ApplyAll(next, cs[1..], parsed[1..], lib)
  }

  /** What `insert_local_candidates_into_sdp` computes: validate first, then apply the candidates. */
  function InsertedSession(rawSdp: string, cs: seq<IceCandidate>, lib: SdpLibrary): Result<SdpSession, DomainError> {
    match lib.parseSdp(rawSdp)
    case None => Err(InvalidSdp)
    case Some(session) => ApplyAll(session, cs, ParseEach(cs, lib), lib)
  }

  /** A batch succeeds exactly when every candidate's index names a media section. */
  lemma {:induction false} ApplyAllSucceedsIff(session: SdpSession, cs: seq<IceCandidate>,
                                               parsed: seq<Option<MozIce.Candidate>>, lib: SdpLibrary)
    requires |parsed| == |cs|
    ensures ApplyAll(session, cs, parsed, lib).Ok? <==>
              forall k :: 0 <= k < |cs| ==> cs[k].mediaLineIndex < |session.media|
    decreases |cs|
  {
    if cs != [] {
      var step := ApplyCandidate(session, cs[0], parsed[0], lib);
      if step.Ok? {
        ApplyAllSucceedsIff(step.value, cs[1..], parsed[1..], lib);
        assert forall k :: 0 <= k < |cs[1..]| ==> cs[1..][k] == cs[k + 1];
      }
    }
  }

  /** After a successful batch, section `j` holds its old attributes and then those the batch adds to it. */
  lemma {:induction false} ApplyAllAppendsAt(session: SdpSession, cs: seq<IceCandidate>,
                                             parsed: seq<Option<MozIce.Candidate>>, lib: SdpLibrary, j: nat)
    requires |parsed| == |cs|
    requires ApplyAll(session, cs, parsed, lib).Ok? && j < |session.media|
    ensures ApplyAll(session, cs, parsed, lib).value.media[j].attributes
            == session.media[j].attributes + Added(cs, parsed, j, lib)
    decreases |cs|
  {
    if cs == [] {
      assert Added(cs, parsed, j, lib) == [];
    } else {
      var next := ApplyCandidate(session, cs[0], parsed[0], lib).value;
      var old_, first, rest := session.media[j].attributes, Contribution(cs[0], parsed[0], j, lib), Added(cs[1..], parsed[1..], j, lib);
      assert next.media[j].attributes == old_ + first;
      ApplyAllAppendsAt(next, cs[1..], parsed[1..], lib, j);
      assert Added(cs, parsed, j, lib) == first + rest;
      assert (old_ + first) + rest == old_ + (first + rest);
    }
  }

  /** A candidate whose string does not convert contributes nothing to any section. */
  lemma UnparsableCandidateIgnored(c: IceCandidate, j: nat, lib: SdpLibrary)
    requires MozIce.ToMozCandidate(c.candidateStr, lib.parseAddress).Err?
    ensures Contribution(c, ParsedCandidate(c, lib), j, lib) == []
  {
  }

  /** A section no candidate of the batch names gains nothing. */
  lemma {:induction false} UnnamedSectionUntouched(cs: seq<IceCandidate>, parsed: seq<Option<MozIce.Candidate>>,
                                                   j: nat, lib: SdpLibrary)
    requires |parsed| == |cs|
    requires forall k :: 0 <= k < |cs| ==> cs[k].mediaLineIndex != j
    ensures Added(cs, parsed, j, lib) == []
    decreases |cs|
  {
    if cs != [] {
      assert forall k :: 0 <= k < |cs[1..]| ==> cs[1..][k] == cs[k + 1];
      UnnamedSectionUntouched(cs[1..], parsed[1..], j, lib);
    }
  }

  /**
   * The whole insertion: an unparsable description is refused first; otherwise it succeeds
   * exactly when every index names a section, and then the sections keep their number, order
   * and media lines and each gains the parsed candidates addressed to it, in order.
   */
  lemma InsertionEffect(rawSdp: string, cs: seq<IceCandidate>, lib: SdpLibrary)
    ensures lib.parseSdp(rawSdp).None? ==> InsertedSession(rawSdp, cs, lib) == Err(InvalidSdp)
    ensures InsertedSession(rawSdp, cs, lib).Ok? <==>
              lib.parseSdp(rawSdp).Some?
              && forall k :: 0 <= k < |cs| ==> cs[k].mediaLineIndex < |lib.parseSdp(rawSdp).value.media|
    ensures InsertedSession(rawSdp, cs, lib).Ok? ==>
              var before, after := lib.parseSdp(rawSdp).value, InsertedSession(rawSdp, cs, lib).value;
              SameLayout(before, after)
              && forall j :: 0 <= j < |before.media| ==>
                   after.media[j].attributes == before.media[j].attributes + Added(cs, ParseEach(cs, lib), j, lib)
  {
    if lib.parseSdp(rawSdp).Some? {
      var session := lib.parseSdp(rawSdp).value;
      ApplyAllSucceedsIff(session, cs, ParseEach(cs, lib), lib);
      if InsertedSession(rawSdp, cs, lib).Ok? {
        forall j | 0 <= j < |session.media|
          ensures InsertedSession(rawSdp, cs, lib).value.media[j].attributes
                  == session.media[j].attributes + Added(cs, ParseEach(cs, lib), j, lib)
        {
          ApplyAllAppendsAt(session, cs, ParseEach(cs, lib), lib, j);
        }
      }
    }
  }

  /**
   * `insert_local_candidates_into_sdp`. The session is parsed (and so validated) before any
   * candidate is looked at, then updated in place one candidate at a time.
   */
  method InsertLocalCandidates(rawSdp: string, localCandidates: seq<IceCandidate>, lib: SdpLibrary)
    returns (r: Result<SdpSession, DomainError>)
    ensures r == InsertedSession(rawSdp, localCandidates, lib)
  {
    var parsedSdp := lib.parseSdp(rawSdp);
    if parsedSdp.None? {
      return Err(InvalidSdp);
    }
    ghost var parsed := ParseEach(localCandidates, lib);
    var session := parsedSdp.value;
    var i := 0;
    while i < |localCandidates|
      invariant 0 <= i <= |localCandidates|
      invariant ApplyAll(parsedSdp.value, localCandidates, parsed, lib)
                == ApplyAll(session, localCandidates[i..], parsed[i..], lib)
    {
      assert localCandidates[i..][1..] == localCandidates[i + 1..];
      assert parsed[i..][1..] == parsed[i + 1..];
      var next := InsertCandidate(session, localCandidates[i], lib);
      if next.Err? {
        return next;
      }
      session := next.value;
      i := i + 1;
    }
    return Ok(session);
  }

  /**
   * The body of the `for_each`: the section is looked up first (a missing one aborts), then
   * the candidate is parsed and offered to the section; either failing leaves it as it was.
   */
  method InsertCandidate(session: SdpSession, c: IceCandidate, lib: SdpLibrary) returns (r: Result<SdpSession, DomainError>)
    ensures r == ApplyCandidate(session, c, ParsedCandidate(c, lib), lib)
  {
    var index := c.mediaLineIndex as nat;
    if index >= |session.media| {
      return Err(MediaSectionMissing(index));
    }
    var media := session.media[index];
    var candidate := MozIce.ToMozCandidate(c.candidateStr, lib.parseAddress);
    if candidate.Err? {
      return Ok(session);
    }
    var updated := AddAttribute(media, CandidateAttribute(candidate.value), lib);
    if updated.None? {
      return Ok(session);
    }
    return Ok(session.(media := session.media[index := updated.value]));
  }

  /** Two candidates for media line 0 land, in order, at the end of the first section and nowhere else. */
  lemma TwoCandidatesForFirstSection(session: SdpSession, c1: IceCandidate, c2: IceCandidate,
                                     p1: Option<MozIce.Candidate>, p2: Option<MozIce.Candidate>, lib: SdpLibrary)
    requires |session.media| >= 1 && c1.mediaLineIndex == 0 && c2.mediaLineIndex == 0
    ensures ApplyAll(session, [c1, c2], [p1, p2], lib).Ok?
    ensures var result := ApplyAll(session, [c1, c2], [p1, p2], lib).value;
      SameLayout(session, result)
      && result.media[0].attributes
         == session.media[0].attributes + Contribution(c1, p1, 0, lib) + Contribution(c2, p2, 0, lib)
      && forall j :: 1 <= j < |session.media| ==> result.media[j] == session.media[j]
  {
    ApplyAllSucceedsIff(session, [c1, c2], [p1, p2], lib);
    var result := ApplyAll(session, [c1, c2], [p1, p2], lib).value;
    assert [c1, c2][1..] == [c2] && [p1, p2][1..] == [p2];
    assert Added([c2], [p2], 0, lib) == Contribution(c2, p2, 0, lib);
    ApplyAllAppendsAt(session, [c1, c2], [p1, p2], lib, 0);
    forall j | 1 <= j < |session.media|
      ensures result.media[j] == session.media[j]
    {
      UnnamedSectionUntouched([c1, c2], [p1, p2], j, lib);
      ApplyAllAppendsAt(session, [c1, c2], [p1, p2], lib, j);
    }
  }

  // ---------------------------------------------------------------------------
  // The `\r\n\r\n` -> `\r\n` rewrite in get_offer

  function DoubleCrlf(): string { "\r\n\r\n" }

  function CollapseBlankLines(text: string): string {
    Replace(text, DoubleCrlf(), "\r\n")
  }

  /** A doubled CRLF starts at index `i`. */
  predicate DoubleCrlfAt(s: string, i: int) {
    0 <= i && i + 4 <= |s| && s[i..i + 4] == DoubleCrlf()
  }

  ghost predicate HasDoubleCrlf(s: string) {
    exists i :: DoubleCrlfAt(s, i)
  }

  /** The text without its CR and LF characters. */
  function LineContent(s: string): string
    decreases |s|
  {
    if s == [] then [] else (if s[0] == '\r' || s[0] == '\n' then [] else [s[0]]) + LineContent(s[1..])
  }

  lemma {:induction false} LineContentAppend(a: string, b: string)
    ensures LineContent(a + b) == LineContent(a) + LineContent(b)
    decreases |a|
  {
    if a == [] {
      assert a + b == b;
    } else {
      assert (a + b)[0] == a[0];
      assert (a + b)[1..] == a[1..] + b;
      LineContentAppend(a[1..], b);
    }
  }

  lemma {:induction false} TerminatorsHaveNoContent(s: string)
    requires forall i :: 0 <= i < |s| ==> s[i] == '\r' || s[i] == '\n'
    ensures LineContent(s) == []
    decreases |s|
  {
    if s != [] {
      TerminatorsHaveNoContent(s[1..]);
    }
  }

  /** The rewrite removes only line terminators: every other character survives, in order. */
  lemma {:induction false} CollapseKeepsContent(s: string)
    ensures LineContent(CollapseBlankLines(s)) == LineContent(s)
    decreases |s|
  {
    if |s| >= 4 {
      if s[..4] == DoubleCrlf() {
        CollapseKeepsContent(s[4..]);
        LineContentAppend("\r\n", CollapseBlankLines(s[4..]));
        assert s == s[..4] + s[4..];
        LineContentAppend(s[..4], s[4..]);
        TerminatorsHaveNoContent("\r\n");
        TerminatorsHaveNoContent(s[..4]);
      } else {
        CollapseKeepsContent(s[1..]);
        LineContentAppend([s[0]], CollapseBlankLines(s[1..]));
        assert s == [s[0]] + s[1..];
        LineContentAppend([s[0]], s[1..]);
      }
    }
  }

  /** An occurrence in the text after its first character is one place further right in the text. */
  lemma DoubleCrlfShift(s: string, i: int)
    requires |s| > 0 && 0 <= i
    ensures DoubleCrlfAt(s[1..], i) <==> DoubleCrlfAt(s, i + 1)
  {
    if 0 <= i && i + 5 <= |s| {
      assert s[1..][i..i + 4] == s[i + 1..i + 5];
    }
  }

  /** Each rewrite removes two characters, so the text never grows and shrinks by an even amount. */
  lemma {:induction false} CollapseShrinksByPairs(s: string)
    ensures |CollapseBlankLines(s)| <= |s| && (|s| - |CollapseBlankLines(s)|) % 2 == 0
    decreases |s|
  {
    if |s| >= 4 {
      if s[..4] == DoubleCrlf() {
        CollapseShrinksByPairs(s[4..]);
      } else {
        CollapseShrinksByPairs(s[1..]);
      }
    }
  }

  lemma {:induction false} CollapseWithoutDoubleIsIdentity(s: string)
    requires !HasDoubleCrlf(s)
    ensures CollapseBlankLines(s) == s
    decreases |s|
  {
    if |s| >= 4 {
      assert !DoubleCrlfAt(s, 0);
      assert s[..4] != DoubleCrlf() by {
        assert s[0..4] == s[..4];
      }
      forall i | DoubleCrlfAt(s[1..], i)
        ensures false
      {
        DoubleCrlfShift(s, i);
      }
      CollapseWithoutDoubleIsIdentity(s[1..]);
      assert s == [s[0]] + s[1..];
    }
  }

  lemma {:induction false} CollapseWithDoubleShrinks(s: string)
    requires HasDoubleCrlf(s)
    ensures |CollapseBlankLines(s)| < |s|
    decreases |s|
  {
    var i :| DoubleCrlfAt(s, i);
    if s[..4] == DoubleCrlf() {
      CollapseShrinksByPairs(s[4..]);
    } else {
      assert i != 0 by {
        assert s[0..4] == s[..4];
      }
      DoubleCrlfShift(s, i - 1);
      CollapseWithDoubleShrinks(s[1..]);
    }
  }

  /**
   * The text shrinks exactly when it holds a doubled CRLF (by two characters per match);
   * text without one is returned unchanged.
   */
  lemma CollapseShrinksIffDoubled(s: string)
    ensures |CollapseBlankLines(s)| <= |s| && (|s| - |CollapseBlankLines(s)|) % 2 == 0
    ensures |CollapseBlankLines(s)| < |s| <==> HasDoubleCrlf(s)
    ensures !HasDoubleCrlf(s) ==> CollapseBlankLines(s) == s
  {
    CollapseShrinksByPairs(s);
    if HasDoubleCrlf(s) {
      CollapseWithDoubleShrinks(s);
    } else {
      CollapseWithoutDoubleIsIdentity(s);
    }
  }

  /**
   * The rewrite works left to right: the first doubled CRLF becomes one CRLF, the text before
   * it is kept, and the rewrite goes on after the match (so matches never overlap).
   */
  lemma {:induction false} CollapseAtFirstMatch(a: string, b: string)
    requires forall i :: 0 <= i < |a| ==> !DoubleCrlfAt(a + DoubleCrlf() + b, i)
    ensures CollapseBlankLines(a + DoubleCrlf() + b) == a + "\r\n" + CollapseBlankLines(b)
    decreases |a|
  {
    var s := a + DoubleCrlf() + b;
    if a == [] {
      assert s[..4] == DoubleCrlf();
      assert s[4..] == b;
    } else {
      assert !DoubleCrlfAt(s, 0);
      assert s[..4] != DoubleCrlf() by {
        assert s[0..4] == s[..4];
      }
      assert s[1..] == a[1..] + DoubleCrlf() + b;
      forall i | 0 <= i < |a[1..]|
        ensures !DoubleCrlfAt(a[1..] + DoubleCrlf() + b, i)
      {
        DoubleCrlfShift(s, i);
      }
      CollapseAtFirstMatch(a[1..], b);
      assert a == [a[0]] + a[1..];
    }
  }

  /** One pass is not enough: three CRLFs in a row still leave a doubled one. */
  lemma SinglePassLeavesDoubledCrlf()
    ensures CollapseBlankLines("\r\n\r\n\r\n") == DoubleCrlf()
    ensures HasDoubleCrlf(CollapseBlankLines("\r\n\r\n\r\n"))
  {
    var s := "\r\n\r\n\r\n";
    assert s[..4] == DoubleCrlf();
    assert s[4..] == "\r\n";
    assert CollapseBlankLines(s) == "\r\n" + "\r\n";
    assert DoubleCrlfAt(CollapseBlankLines(s), 0);
  }

  // ---------------------------------------------------------------------------
  // get_offer

  /** The `max_items` get_offer passes to the gathering loop. */
  const MaxGatheredCandidates: nat := 16

  /**
   * `get_offer` from the point where the local description is available: gather, insert,
   * serialise, collapse doubled CRLFs.
   */
  method GetOffer(localDescription: string, rx: seq<RecvOutcome>, lib: SdpLibrary) returns (r: Result<string, DomainError>)
    ensures lib.parseSdp(localDescription).None? ==> r == Err(InvalidSdp)
    ensures r.Ok? <==> InsertedSession(localDescription, Gathered(rx, MaxGatheredCandidates), lib).Ok?
    ensures r.Ok? ==>
      r.value == CollapseBlankLines(lib.sessionText(InsertedSession(localDescription, Gathered(rx, MaxGatheredCandidates), lib).value))
  {
    var localCandidates := GatherLocalCandidates(rx, MaxGatheredCandidates);
    var inserted := InsertLocalCandidates(localDescription, localCandidates, lib);
    if inserted.Err? {
      return Err(inserted.error);
    }
    r := Ok(CollapseBlankLines(lib.sessionText(inserted.value)));
  }

  // ---------------------------------------------------------------------------
  // process_sdp_answer and add_remote_candidate

  /** A signal emitted on the engine element. */
  datatype Signal =
    | SetRemoteDescription(sdp: string)
    | AddIceCandidate(mediaLineIndex: uint32, candidate: string)

  /** The engine element, seen through the signals emitted on it, oldest first. */
  class WebRtcBin {
    var emitted: seq<Signal>

    constructor ()
      ensures emitted == []
    {
      emitted := [];
    }
  }

  /** Each remote candidate is added at media-line index 0 (all media share one transport). */
  function RemoteCandidateSignals(candidates: seq<string>): (signals: seq<Signal>)
    ensures |signals| == |candidates|
    ensures forall k :: 0 <= k < |candidates| ==> signals[k] == AddIceCandidate(0, candidates[k])
    decreases |candidates|
  {
    if candidates == [] then []
    else RemoteCandidateSignals(candidates[..|candidates| - 1]) + [AddIceCandidate(0, candidates[|candidates| - 1])]
  }

  /** `add_remote_candidate`: emits `add-ice-candidate` with the index and text, unparsed. */
  method AddRemoteCandidate(webrtcbin: WebRtcBin, mediaLineIndex: uint32, candidate: string)
    returns (r: Result<(), DomainError>)
    modifies webrtcbin
    ensures webrtcbin.emitted == old(webrtcbin.emitted) + [AddIceCandidate(mediaLineIndex, candidate)]
    ensures r == Ok(())
  {
    webrtcbin.emitted := webrtcbin.emitted + [AddIceCandidate(mediaLineIndex, candidate)];
    return Ok(());
  }

  /**
   * `process_sdp_answer`: both parsers must accept the answer before anything is emitted; then
   * the remote description is set, then every extracted candidate is added at index 0, in order.
   */
  method ProcessSdpAnswer(webrtcbin: WebRtcBin, rawSdp: string, lib: SdpLibrary) returns (r: Result<(), DomainError>)
    modifies webrtcbin
    ensures lib.parseSdp(rawSdp).None? ==> r == Err(InvalidSdp)
    ensures lib.parseSdp(rawSdp).Some? && !lib.gstParses(rawSdp) ==> r == Err(AnswerParseFailed)
    ensures r.Ok? <==> lib.parseSdp(rawSdp).Some? && lib.gstParses(rawSdp)
    ensures r.Err? ==> webrtcbin.emitted == old(webrtcbin.emitted)
    ensures r.Ok? ==> webrtcbin.emitted == old(webrtcbin.emitted) + [SetRemoteDescription(rawSdp)]
                                           + RemoteCandidateSignals(ExtractCandidates(rawSdp))
  {
    if lib.parseSdp(rawSdp).None? {
      return Err(InvalidSdp);
    }
    if !lib.gstParses(rawSdp) {
      return Err(AnswerParseFailed);
    }
    webrtcbin.emitted := webrtcbin.emitted + [SetRemoteDescription(rawSdp)];
    AddRemoteCandidates(webrtcbin, ExtractCandidates(rawSdp));
    return Ok(());
  }

  /** The `for_each` of `process_sdp_answer`: every candidate, in order, at media-line index 0. */
  method AddRemoteCandidates(webrtcbin: WebRtcBin, candidates: seq<string>)
    modifies webrtcbin
    ensures webrtcbin.emitted == old(webrtcbin.emitted) + RemoteCandidateSignals(candidates)
  {
    var i := 0;
    while i < |candidates|
      invariant 0 <= i <= |candidates|
      invariant webrtcbin.emitted == old(webrtcbin.emitted) + RemoteCandidateSignals(candidates[..i])
    {
      ghost var before := webrtcbin.emitted;
      var _ := AddRemoteCandidate(webrtcbin, 0, candidates[i]);
      assert candidates[..i + 1][..i] == candidates[..i];
      assert RemoteCandidateSignals(candidates[..i + 1])
             == RemoteCandidateSignals(candidates[..i]) + [AddIceCandidate(0, candidates[i])];
      assert webrtcbin.emitted == before + [AddIceCandidate(0, candidates[i])];
      i := i + 1;
    }
    assert candidates[..i] == candidates;
  }
}
