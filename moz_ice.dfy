/**
 * The ICE candidate-attribute parser (`to_moz_candidate` and its two
 * assemblers): the value of an `a=candidate` line, optionally led by
 * `candidate:`, is split on single spaces and matched against the host shape
 *   foundation component transport priority address port "typ" "host" ...
 * or the extended shape
 *   foundation component transport priority address port "typ" type "raddr" addr "rport" port ...
 * as in section 15.1 of RFC 5245. Address parsing belongs to the SDP library
 * and is a parameter here: every property below holds for any address parser.
 */
module MozIce {
  import opened Prelude
  import opened Text

  datatype Transport = Udp | Tcp

  datatype CandidateType = Host | Srflx | Prflx | Relay

  /** An address as the SDP library's parser produced it (an IP literal or a domain name). */
  datatype Address = Address(text: string)

  /** The structured candidate attribute (`SdpAttributeCandidate`); the extension fields it
      also carries (tcptype, generation, ufrag, network cost) stay unset here. */
  datatype Candidate = Candidate(
    foundation: string,
    component: uint32,
    transport: Transport,
    priority: uint64,
    address: Address,
    port: uint32,
    candidateType: CandidateType,
    raddr: Option<Address>,
    rport: Option<uint32>)

  datatype CandidateError =
    | UnrecognisedShape     // neither token shape matched
    | InvalidInteger        // a numeric field failed `parse::<u32/u64>`
    | UnknownTransport
    | InvalidAddress
    | UnknownCandidateType

  const CandidatePrefix := "candidate:"

  /** The tokens `to_moz_candidate` matches on. */
  function CandidateTokens(raw: string): seq<string> {
    Split(TrimPrefixes(raw, CandidatePrefix), ' ')
  }

  predicate IsHostShape(parts: seq<string>) {
    |parts| >= 8 && parts[6] == "typ" && parts[7] == "host"
  }

  predicate IsExtendedShape(parts: seq<string>) {
    |parts| >= 12 && parts[6] == "typ" && parts[8] == "raddr" && parts[10] == "rport"
  }

  /** The transport token, case-insensitively `udp` or `tcp`. */
  function ParseTransport(token: string): (r: Option<Transport>)
    ensures r == Some(Udp) <==> EqualsIgnoringCase(token, "udp")
    ensures r == Some(Tcp) <==> EqualsIgnoringCase(token, "tcp")
    ensures r.None? <==> !EqualsIgnoringCase(token, "udp") && !EqualsIgnoringCase(token, "tcp")
  {
    ToLowerMatches(token, "udp");
    ToLowerMatches(token, "tcp");
    var lower := ToLower(token);
    if lower == "udp" then Some(Udp) else if lower == "tcp" then Some(Tcp) else None
  }

  /** The type token of the extended shape, case-insensitively `srflx`, `prflx` or `relay`. */
  function ParseExtendedType(token: string): (r: Option<CandidateType>)
    ensures r != Some(Host)
    ensures r == Some(Srflx) <==> EqualsIgnoringCase(token, "srflx")
    ensures r == Some(Prflx) <==> EqualsIgnoringCase(token, "prflx")
    ensures r == Some(Relay) <==> EqualsIgnoringCase(token, "relay")
  {
    ToLowerMatches(token, "srflx");
    ToLowerMatches(token, "prflx");
    ToLowerMatches(token, "relay");
    var lower := ToLower(token);
    if lower == "srflx" then Some(Srflx)
    else if lower == "prflx" then Some(Prflx)
    else if lower == "relay" then Some(Relay)
    else None
  }

  /** `Candidate::new`: the related address and port start unset. */
  function NewCandidate(foundation: string, component: uint32, transport: Transport, priority: uint64,
                        address: Address, port: uint32, candidateType: CandidateType): Candidate
  {
    Candidate(foundation, component, transport, priority, address, port, candidateType, None, None)
  }

  /** The conversions both arms need all succeed. */
  predicate FieldsConvert(componentId: string, transport: string, priority: string, address: string, port: string,
                          parseAddress: string -> Option<Address>)
  {
    ParseU32(componentId).Some? && ParseTransport(transport).Some? && ParseU64(priority).Some?
    && parseAddress(address).Some? && ParseU32(port).Some?
  }

  /** The further conversions the extended arm needs all succeed. */
  predicate RelatedFieldsConvert(candidateType: string, connectionAddress: string, connectionPort: string,
                                 parseAddress: string -> Option<Address>)
  {
    ParseExtendedType(candidateType).Some? && parseAddress(connectionAddress).Some? && ParseU32(connectionPort).Some?
  }

  /** The six leading fields of `c` are those the field texts denote. */
  predicate FieldsMatch(c: Candidate, foundation: string, componentId: string, transport: string, priority: string,
                        address: string, port: string, parseAddress: string -> Option<Address>)
  {
    c.foundation == foundation
    && ParseU32(componentId) == Some(c.component)
    && ParseTransport(transport) == Some(c.transport)
    && ParseU64(priority) == Some(c.priority)
    && parseAddress(address) == Some(c.address)
    && ParseU32(port) == Some(c.port)
  }

  /** The conversions the host arm needs all succeed on the token list. */
  predicate HostFieldsConvert(parts: seq<string>, parseAddress: string -> Option<Address>)
    requires |parts| >= 6
  {
    FieldsConvert(parts[1], parts[2], parts[3], parts[4], parts[5], parseAddress)
  }

  /** The conversions the extended arm needs all succeed on the token list. */
  predicate ExtendedFieldsConvert(parts: seq<string>, parseAddress: string -> Option<Address>)
    requires |parts| >= 12
  {
    HostFieldsConvert(parts, parseAddress) && RelatedFieldsConvert(parts[7], parts[9], parts[11], parseAddress)
  }

  /** The six leading fields of `c` are those the tokens denote. */
  predicate FieldsMatchTokens(c: Candidate, parts: seq<string>, parseAddress: string -> Option<Address>)
    requires |parts| >= 6
  {
    FieldsMatch(c, parts[0], parts[1], parts[2], parts[3], parts[4], parts[5], parseAddress)
  }

  function AssembleHostCandidate(foundation: string, componentId: string, transport: string, priority: string,
                                 address: string, port: string,
                                 parseAddress: string -> Option<Address>): (r: Result<Candidate, CandidateError>)
    ensures r.Ok? <==> FieldsConvert(componentId, transport, priority, address, port, parseAddress)
    ensures r.Ok? ==> FieldsMatch(r.value, foundation, componentId, transport, priority, address, port, parseAddress)
    ensures r.Ok? ==> r.value.candidateType == Host && r.value.raddr.None? && r.value.rport.None?
    ensures ParseU32(componentId).None? || ParseU64(priority).None? || ParseU32(port).None? ==> r == Err(InvalidInteger)
  {
    match ParseU32(componentId)
    case None => Err(InvalidInteger)
    case Some(parsedComponent) =>
      match ParseU64(priority)
      case None => Err(InvalidInteger)
      case Some(parsedPriority) =>
        match ParseU32(port)
        case None => Err(InvalidInteger)
        case Some(parsedPort) =>
          match ParseTransport(transport)
          case None => Err(UnknownTransport)
          case Some(parsedTransport) =>
            match parseAddress(address)
            case None => Err(InvalidAddress)
            case Some(parsedAddress) =>
              Ok(NewCandidate(foundation, parsedComponent, parsedTransport, parsedPriority,
                              parsedAddress, parsedPort, Host))
  }

  function AssembleExternCandidate(foundation: string, componentId: string, transport: string, priority: string,
                                   address: string, port: string, candidateType: string,
                                   connectionAddress: string, connectionPort: string,
                                   parseAddress: string -> Option<Address>): (r: Result<Candidate, CandidateError>)
    ensures r.Ok? <==> FieldsConvert(componentId, transport, priority, address, port, parseAddress)
                       && RelatedFieldsConvert(candidateType, connectionAddress, connectionPort, parseAddress)
    ensures r.Ok? ==> FieldsMatch(r.value, foundation, componentId, transport, priority, address, port, parseAddress)
    ensures r.Ok? ==> ParseExtendedType(candidateType) == Some(r.value.candidateType)
    ensures r.Ok? ==> r.value.raddr == parseAddress(connectionAddress) && r.value.rport == ParseU32(connectionPort)
    ensures ParseU32(componentId).None? || ParseU64(priority).None? || ParseU32(port).None? ==> r == Err(InvalidInteger)
  {
    match ParseU32(componentId)
    case None => Err(InvalidInteger)
    case Some(parsedComponent) =>
      match ParseU64(priority)
      case None => Err(InvalidInteger)
      case Some(parsedPriority) =>
        match ParseU32(port)
        case None => Err(InvalidInteger)
        case Some(parsedPort) =>
          match ParseTransport(transport)
          case None => Err(UnknownTransport)
          case Some(parsedTransport) =>
            match parseAddress(address)
            case None => Err(InvalidAddress)
            case Some(parsedAddress) =>
              match ParseExtendedType(candidateType)
              case None => Err(UnknownCandidateType)
              case Some(parsedType) =>
                var c := NewCandidate(foundation, parsedComponent, parsedTransport, parsedPriority,
                                      parsedAddress, parsedPort, parsedType);
                match parseAddress(connectionAddress)
                case None => Err(InvalidAddress)
                case Some(remoteAddress) =>
                  match ParseU32(connectionPort)
                  case None => Err(InvalidInteger)
                  case Some(remotePort) =>
                    Ok(c.(raddr := Some(remoteAddress), rport := Some(remotePort)))
  }

  /**
   * `to_moz_candidate`. The host shape is tried first; a host-shaped string whose fields
   * fail to convert is an error and never reaches the extended arm.
   */
  function ToMozCandidate(raw: string, parseAddress: string -> Option<Address>): Result<Candidate, CandidateError> {
    MatchCandidateTokens(CandidateTokens(raw), parseAddress)
  }

  /**
   * What `to_moz_candidate` accepts and what it builds: success exactly when one of the two
   * shapes matches (host first) and its fields convert; a host result never carries a related
   * address or port, an extended result always carries both.
   */
  lemma ToMozCandidateSpec(raw: string, parseAddress: string -> Option<Address>)
    ensures var parts, r := CandidateTokens(raw), ToMozCandidate(raw, parseAddress);
      r.Ok? <==> (IsHostShape(parts) && HostFieldsConvert(parts, parseAddress))
                 || (!IsHostShape(parts) && IsExtendedShape(parts) && ExtendedFieldsConvert(parts, parseAddress))
    ensures var parts, r := CandidateTokens(raw), ToMozCandidate(raw, parseAddress);
      !IsHostShape(parts) && !IsExtendedShape(parts) ==> r == Err(UnrecognisedShape)
    ensures var parts, r := CandidateTokens(raw), ToMozCandidate(raw, parseAddress);
      r.Ok? ==> |parts| >= 8 && FieldsMatchTokens(r.value, parts, parseAddress)
    ensures var parts, r := CandidateTokens(raw), ToMozCandidate(raw, parseAddress);
      r.Ok? ==> (r.value.candidateType == Host <==> IsHostShape(parts))
    ensures var r := ToMozCandidate(raw, parseAddress);
      r.Ok? && r.value.candidateType == Host ==> r.value.raddr.None? && r.value.rport.None?
    ensures var parts, r := CandidateTokens(raw), ToMozCandidate(raw, parseAddress);
      r.Ok? && r.value.candidateType != Host ==>
        IsExtendedShape(parts)
        && ParseExtendedType(parts[7]) == Some(r.value.candidateType)
        && r.value.raddr == parseAddress(parts[9]) && r.value.raddr.Some?
        && r.value.rport == ParseU32(parts[11]) && r.value.rport.Some?
  {
  }

  /** The slice-pattern `match` on the token list, host arm first. */
  function MatchCandidateTokens(parts: seq<string>, parseAddress: string -> Option<Address>): Result<Candidate, CandidateError> {
    if IsHostShape(parts) then
      AssembleHostCandidate(parts[0], parts[1], parts[2], parts[3], parts[4], parts[5], parseAddress)
    else if IsExtendedShape(parts) then
      AssembleExternCandidate(parts[0], parts[1], parts[2], parts[3], parts[4], parts[5],
                              parts[7], parts[9], parts[11], parseAddress)
    else
      Err(UnrecognisedShape)
  }
}

/** What `to_moz_candidate` promises about whole candidate strings. */
module MozIceProperties {
  import opened Prelude
  import opened Text
  import opened MozIce

  function TransportToken(t: Transport): string {
    match t
    case Udp => "udp"
    case Tcp => "tcp"
  }

  function TypeToken(t: CandidateType): string {
    match t
    case Host => "host"
    case Srflx => "srflx"
    case Prflx => "prflx"
    case Relay => "relay"
  }

  /** The six leading fields written out: canonical decimals and lower-case keywords. */
  function FieldTokens(foundation: string, component: uint32, transport: Transport, priority: uint64,
                       address: string, port: uint32): seq<string>
  {
    [foundation, Decimal(component), TransportToken(transport), Decimal(priority), address, Decimal(port)]
  }

  function HostTokens(foundation: string, component: uint32, transport: Transport, priority: uint64,
                      address: string, port: uint32): seq<string>
  {
    FieldTokens(foundation, component, transport, priority, address, port) + ["typ", "host"]
  }

  function ExtendedTokens(foundation: string, component: uint32, transport: Transport, priority: uint64,
                          address: string, port: uint32, candidateType: CandidateType,
                          relatedAddress: string, relatedPort: uint32): seq<string>
  {
    FieldTokens(foundation, component, transport, priority, address, port)
    + ["typ", TypeToken(candidateType)] + ["raddr", relatedAddress, "rport", Decimal(relatedPort)]
  }

  /** A host candidate written out from its fields. */
  function HostCandidateLine(foundation: string, component: uint32, transport: Transport, priority: uint64,
                             address: string, port: uint32): string
  {
    CandidatePrefix + Join(HostTokens(foundation, component, transport, priority, address, port), ' ')
  }

  /** An extended candidate written out from its fields. */
  function ExtendedCandidateLine(foundation: string, component: uint32, transport: Transport, priority: uint64,
                                 address: string, port: uint32, candidateType: CandidateType,
                                 relatedAddress: string, relatedPort: uint32): string
  {
    CandidatePrefix + Join(ExtendedTokens(foundation, component, transport, priority, address, port,
                                          candidateType, relatedAddress, relatedPort), ' ')
  }

  predicate SpaceFree(tokens: seq<string>) {
    forall k :: 0 <= k < |tokens| ==> ' ' !in tokens[k]
  }

  lemma SpaceFreeAppend(a: seq<string>, b: seq<string>)
    requires SpaceFree(a) && SpaceFree(b)
    ensures SpaceFree(a + b)
  {
    assert forall k :: |a| <= k < |a + b| ==> (a + b)[k] == b[k - |a|];
  }

  lemma FieldTokensSpaceFree(foundation: string, component: uint32, transport: Transport, priority: uint64,
                             address: string, port: uint32)
    requires ' ' !in foundation && ' ' !in address
    ensures SpaceFree(FieldTokens(foundation, component, transport, priority, address, port))
  {
    CanonicalFieldsConvert(component, transport, priority, port);
    assert ' ' !in TransportToken(transport) by {
      match transport
      case Udp => assert "udp" == ['u', 'd', 'p'];
      case Tcp => assert "tcp" == ['t', 'c', 'p'];
    }
  }

  lemma KeywordTokensSpaceFree(candidateType: CandidateType, relatedAddress: string, relatedPort: uint32)
    requires ' ' !in relatedAddress
    ensures SpaceFree(["typ", TypeToken(candidateType)])
    ensures SpaceFree(["raddr", relatedAddress, "rport", Decimal(relatedPort)])
  {
    ParseDecimal(relatedPort, U32Limit);
    assert ' ' !in TypeToken(candidateType) by {
      match candidateType
      case Host => assert "host" == ['h', 'o', 's', 't'];
      case Srflx => assert "srflx" == ['s', 'r', 'f', 'l', 'x'];
      case Prflx => assert "prflx" == ['p', 'r', 'f', 'l', 'x'];
      case Relay => assert "relay" == ['r', 'e', 'l', 'a', 'y'];
    }
  }

  /** Any leading run of `candidate:` is removed, and the prefix may be absent. */
  lemma CandidatePrefixOptional(n: nat, body: string)
    requires !StartsWith(body, CandidatePrefix)
    ensures CandidateTokens(Repeat(CandidatePrefix, n) + body) == Split(body, ' ')
  {
    TrimRepeatedPrefix(CandidatePrefix, n, body);
  }

  /** Tokens come from single spaces: two spaces in a row give an empty token. */
  lemma DoubledSpaceYieldsEmptyToken(a: string, b: string)
    requires ' ' !in a && ' ' !in b
    ensures Split(a + "  " + b, ' ') == [a, "", b]
  {
    var parts := [a, "", b];
    assert parts[1..] == ["", b] && parts[1..][1..] == [b];
    assert Join(["", b], ' ') == [' '] + b;
    assert Join(parts, ' ') == a + [' '] + ([' '] + b) == a + "  " + b;
    SplitJoin(parts, ' ');
  }

  /** One `candidate:` before a foundation that does not itself begin with one is all that is trimmed. */
  lemma SinglePrefixTrimmed(foundation: string, rest: string)
    requires ' ' !in foundation && !StartsWith(foundation, CandidatePrefix)
    ensures TrimPrefixes(CandidatePrefix + (foundation + [' '] + rest), CandidatePrefix) == foundation + [' '] + rest
  {
    var p := CandidatePrefix;
    var body := foundation + [' '] + rest;
    assert (p + body)[..|p|] == p;
    assert (p + body)[|p|..] == body;
    if |foundation| >= |p| {
      assert body[..|p|] == foundation[..|p|];
    } else if |p| <= |body| {
      assert body[..|p|][|foundation|] == ' ';
      assert forall i :: 0 <= i < |p| ==> p[i] != ' ';
    }
  }

  /** The lower-case keyword of a transport maps back to that transport. */
  lemma TransportTokenParses(t: Transport)
    ensures ParseTransport(TransportToken(t)) == Some(t)
  {
    match t
    case Udp => assert EqualsIgnoringCase("udp", "udp");
    case Tcp => assert EqualsIgnoringCase("tcp", "tcp");
  }

  /** The tokens of a candidate line written by joining tokens behind one `candidate:`. */
  lemma TokensOfWrittenLine(tokens: seq<string>)
    requires |tokens| >= 1
    requires SpaceFree(tokens)
    requires !StartsWith(tokens[0], CandidatePrefix)
    ensures CandidateTokens(CandidatePrefix + Join(tokens, ' ')) == tokens
  {
    if |tokens| == 1 {
      var p := CandidatePrefix;
      assert (p + tokens[0])[..|p|] == p;
      assert (p + tokens[0])[|p|..] == tokens[0];
    } else {
      assert Join(tokens, ' ') == tokens[0] + [' '] + Join(tokens[1..], ' ');
      SinglePrefixTrimmed(tokens[0], Join(tokens[1..], ' '));
    }
    SplitJoin(tokens, ' ');
  }

  /** Canonical field text converts back to the fields. */
  lemma CanonicalFieldsConvert(component: uint32, transport: Transport, priority: uint64, port: uint32)
    ensures ParseU32(Decimal(component)) == Some(component) && ' ' !in Decimal(component)
    ensures ParseU64(Decimal(priority)) == Some(priority) && ' ' !in Decimal(priority)
    ensures ParseU32(Decimal(port)) == Some(port) && ' ' !in Decimal(port)
    ensures ParseTransport(TransportToken(transport)) == Some(transport)
  {
    ParseDecimal(component, U32Limit);
    ParseDecimal(priority, U64Limit);
    ParseDecimal(port, U32Limit);
    TransportTokenParses(transport);
  }

  /** Parsing a host candidate written from its fields gives back exactly those fields. */
  lemma HostRoundTrip(foundation: string, component: uint32, transport: Transport, priority: uint64,
                      address: string, port: uint32, parseAddress: string -> Option<Address>)
    requires ' ' !in foundation && !StartsWith(foundation, CandidatePrefix)
    requires ' ' !in address && parseAddress(address).Some?
    ensures ToMozCandidate(HostCandidateLine(foundation, component, transport, priority, address, port), parseAddress)
            == Ok(Candidate(foundation, component, transport, priority, parseAddress(address).value, port,
                            Host, None, None))
  {
    var tokens := HostTokens(foundation, component, transport, priority, address, port);
    CanonicalFieldsConvert(component, transport, priority, port);
    FieldTokensSpaceFree(foundation, component, transport, priority, address, port);
    KeywordTokensSpaceFree(Host, "", 0);
    SpaceFreeAppend(FieldTokens(foundation, component, transport, priority, address, port), ["typ", "host"]);
    TokensOfWrittenLine(tokens);
    var line := HostCandidateLine(foundation, component, transport, priority, address, port);
    assert CandidateTokens(line) == tokens;
    assert ToMozCandidate(line, parseAddress)
        == AssembleHostCandidate(tokens[0], tokens[1], tokens[2], tokens[3], tokens[4], tokens[5], parseAddress);
  }

  lemma ExtendedLineTokens(foundation: string, component: uint32, transport: Transport,
                           priority: uint64, address: string, port: uint32,
                           candidateType: CandidateType, relatedAddress: string, relatedPort: uint32)
    requires ' ' !in foundation && !StartsWith(foundation, CandidatePrefix)
    requires ' ' !in address && ' ' !in relatedAddress
    ensures CandidateTokens(ExtendedCandidateLine(foundation, component, transport, priority, address, port,
                                                  candidateType, relatedAddress, relatedPort))
            == ExtendedTokens(foundation, component, transport, priority, address, port,
                              candidateType, relatedAddress, relatedPort)
  {
    var tokens := ExtendedTokens(foundation, component, transport, priority, address, port,
                                 candidateType, relatedAddress, relatedPort);
    var fields := FieldTokens(foundation, component, transport, priority, address, port);
    FieldTokensSpaceFree(foundation, component, transport, priority, address, port);
    KeywordTokensSpaceFree(candidateType, relatedAddress, relatedPort);
    SpaceFreeAppend(fields, ["typ", TypeToken(candidateType)]);
    SpaceFreeAppend(fields + ["typ", TypeToken(candidateType)], ["raddr", relatedAddress, "rport", Decimal(relatedPort)]);
    TokensOfWrittenLine(tokens);
  }

  lemma AssembleExternCanonical(foundation: string, component: uint32, transport: Transport,
                                priority: uint64, address: string, port: uint32,
                                candidateType: CandidateType, relatedAddress: string,
                                relatedPort: uint32, parseAddress: string -> Option<Address>)
    requires parseAddress(address).Some? && parseAddress(relatedAddress).Some?
    requires candidateType != Host
    ensures AssembleExternCandidate(foundation, Decimal(component), TransportToken(transport), Decimal(priority),
                                    address, Decimal(port), TypeToken(candidateType), relatedAddress,
                                    Decimal(relatedPort), parseAddress)
            == Ok(Candidate(foundation, component, transport, priority, parseAddress(address).value, port,
                            candidateType, parseAddress(relatedAddress), Some(relatedPort)))
  {
    CanonicalFieldsConvert(component, transport, priority, port);
    CanonicalFieldsConvert(relatedPort, transport, priority, relatedPort);
    ExtendedTypeTokenParses(candidateType);
  }

  /** The lower-case keyword of a non-host type maps back to that type. */
  lemma ExtendedTypeTokenParses(t: CandidateType)
    requires t != Host
    ensures ParseExtendedType(TypeToken(t)) == Some(t)
  {
    match t
    case Srflx => assert EqualsIgnoringCase("srflx", "srflx");
    case Prflx => assert EqualsIgnoringCase("prflx", "prflx");
    case Relay => assert EqualsIgnoringCase("relay", "relay");
  }

  /** Parsing an extended candidate written from its fields gives back exactly those fields. */
  lemma ExtendedRoundTrip(foundation: string, component: uint32, transport: Transport,
                          priority: uint64, address: string, port: uint32,
                          candidateType: CandidateType, relatedAddress: string,
                          relatedPort: uint32, parseAddress: string -> Option<Address>)
    requires ' ' !in foundation && !StartsWith(foundation, CandidatePrefix)
    requires ' ' !in address && parseAddress(address).Some?
    requires ' ' !in relatedAddress && parseAddress(relatedAddress).Some?
    requires candidateType != Host
    ensures ToMozCandidate(ExtendedCandidateLine(foundation, component, transport, priority, address, port,
                                                 candidateType, relatedAddress, relatedPort), parseAddress)
            == Ok(Candidate(foundation, component, transport, priority, parseAddress(address).value, port,
                            candidateType, parseAddress(relatedAddress), Some(relatedPort)))
  {
    var tokens := ExtendedTokens(foundation, component, transport, priority, address, port,
                                 candidateType, relatedAddress, relatedPort);
    ExtendedLineTokens(foundation, component, transport, priority, address, port,
                       candidateType, relatedAddress, relatedPort);
    AssembleExternCanonical(foundation, component, transport, priority, address, port,
                            candidateType, relatedAddress, relatedPort, parseAddress);
    ExtendedTokensTakeExtendedArm(foundation, component, transport, priority, address, port,
                                  candidateType, relatedAddress, relatedPort, parseAddress);
  }

  /** A written extended candidate has the extended shape only, so the extended arm assembles it. */
  lemma ExtendedTokensTakeExtendedArm(foundation: string, component: uint32, transport: Transport,
                                      priority: uint64, address: string, port: uint32,
                                      candidateType: CandidateType, relatedAddress: string,
                                      relatedPort: uint32, parseAddress: string -> Option<Address>)
    requires candidateType != Host
    ensures MatchCandidateTokens(ExtendedTokens(foundation, component, transport, priority, address, port,
                                                candidateType, relatedAddress, relatedPort), parseAddress)
            == AssembleExternCandidate(foundation, Decimal(component), TransportToken(transport), Decimal(priority),
                                       address, Decimal(port), TypeToken(candidateType), relatedAddress,
                                       Decimal(relatedPort), parseAddress)
  {
    var tokens := ExtendedTokens(foundation, component, transport, priority, address, port,
                                 candidateType, relatedAddress, relatedPort);
    assert tokens[..6] == FieldTokens(foundation, component, transport, priority, address, port);
    assert tokens[6..8] == ["typ", TypeToken(candidateType)];
    assert tokens[8..] == ["raddr", relatedAddress, "rport", Decimal(relatedPort)];
    assert tokens[7] == TypeToken(candidateType) != "host";
    assert !IsHostShape(tokens) && IsExtendedShape(tokens);
  }

  lemma TokensAfterExtension(raw: string, extension: string)
    ensures CandidateTokens(raw + " " + extension) == CandidateTokens(raw) + Split(extension, ' ')
  {
    var trimmed := TrimPrefixes(raw, CandidatePrefix);
    assert forall i :: 0 <= i < |CandidatePrefix| ==> CandidatePrefix[i] != ' ';
    TrimPrefixesAppend(raw, CandidatePrefix, " " + extension);
    assert raw + " " + extension == raw + (" " + extension);
    assert trimmed + (" " + extension) == trimmed + [' '] + extension;
    SplitAppend(trimmed, extension, ' ');
  }

  /** Tokens after a recognised shape (extensions such as `generation 0`) change nothing. */
  lemma ExtensionTokensIgnored(raw: string, extension: string, parseAddress: string -> Option<Address>)
    requires IsHostShape(CandidateTokens(raw)) || IsExtendedShape(CandidateTokens(raw))
    ensures ToMozCandidate(raw + " " + extension, parseAddress) == ToMozCandidate(raw, parseAddress)
  {
    TokensAfterExtension(raw, extension);
    TrailingTokensIgnored(CandidateTokens(raw), Split(extension, ' '), parseAddress);
  }

  lemma TrailingTokensIgnored(parts: seq<string>, more: seq<string>, parseAddress: string -> Option<Address>)
    requires IsHostShape(parts) || IsExtendedShape(parts)
    ensures MatchCandidateTokens(parts + more, parseAddress) == MatchCandidateTokens(parts, parseAddress)
  {
    var longer := parts + more;
    assert forall k :: 0 <= k < |parts| ==> longer[k] == parts[k];
    assert IsHostShape(longer) == IsHostShape(parts);
    assert !IsHostShape(parts) ==> IsExtendedShape(longer);
  }

  /** A successfully parsed candidate survives any appended extension tokens. */
  lemma ExtensionKeepsParsedCandidate(raw: string, extension: string, parseAddress: string -> Option<Address>)
    requires ToMozCandidate(raw, parseAddress).Ok?
    ensures ToMozCandidate(raw + " " + extension, parseAddress) == ToMozCandidate(raw, parseAddress)
  {
    ToMozCandidateSpec(raw, parseAddress);
    ExtensionTokensIgnored(raw, extension, parseAddress);
  }

  /** `typ HOST` (any case other than `host`) misses the host arm and is refused by the extended arm. */
  lemma HostKeywordIsCaseSensitive(raw: string, parseAddress: string -> Option<Address>)
    requires |CandidateTokens(raw)| >= 8
    requires EqualsIgnoringCase(CandidateTokens(raw)[7], "host") && CandidateTokens(raw)[7] != "host"
    ensures ToMozCandidate(raw, parseAddress).Err?
    ensures !IsExtendedShape(CandidateTokens(raw)) ==> ToMozCandidate(raw, parseAddress) == Err(UnrecognisedShape)
  {
    var token := CandidateTokens(raw)[7];
    ToLowerMatches(token, "host");
    ToLowerMatches(token, "srflx");
    ToLowerMatches(token, "prflx");
    ToLowerMatches(token, "relay");
  }
}
