/**
 * The parsed session description (`webrtc_sdp::SdpSession`) as far as the core
 * touches it: an ordered sequence of media sections, each an ordered sequence of
 * attributes, addressed by zero-based media-line index. The library's parser,
 * its media-level admission check, its serialiser and its address parser are
 * foreign code and are passed in as functions.
 */
module Sdp {
  import opened Prelude
  import MozIce

  datatype SdpAttribute =
    | CandidateAttribute(candidate: MozIce.Candidate)
    | OtherAttribute(line: string)

  /** One `m=` section: its media line and its attributes in order. */
  datatype SdpMedia = SdpMedia(mediaLine: string, attributes: seq<SdpAttribute>)

  /** The session-level lines (version, origin, timing, session attributes) and the media sections. */
  datatype SdpSession = SdpSession(sessionLines: seq<string>, media: seq<SdpMedia>)

  /** The foreign functions of the SDP libraries the core calls. */
  datatype SdpLibrary = SdpLibrary(
    parseSdp: string -> Option<SdpSession>,                 // webrtc_sdp::parse_sdp(text, false)
    allowedAtMediaLevel: SdpAttribute -> bool,              // the check inside SdpMedia::add_attribute
    sessionText: SdpSession -> string,                      // SdpSession::to_string
    parseAddress: string -> Option<MozIce.Address>,         // Address::from_str
    gstParses: string -> bool)                              // gst_sdp::SDPMessage::parse_buffer succeeds

  /** `SdpMedia::add_attribute`: appends the attribute when the library admits it, else fails. */
  function AddAttribute(media: SdpMedia, attribute: SdpAttribute, lib: SdpLibrary): (r: Option<SdpMedia>)
    ensures r.Some? <==> lib.allowedAtMediaLevel(attribute)
    ensures r.Some? ==> r.value.mediaLine == media.mediaLine
    ensures r.Some? ==> |r.value.attributes| == |media.attributes| + 1
    ensures r.Some? ==> r.value.attributes[..|media.attributes|] == media.attributes
    ensures r.Some? ==> r.value.attributes[|media.attributes|] == attribute
  {
    if lib.allowedAtMediaLevel(attribute)
    then Some(media.(attributes := media.attributes + [attribute]))
    else None
  }
}
