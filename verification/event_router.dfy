/**
 * What `VoiceBridgeClient` makes of inbound room events before they reach the
 * message callback (backend/voice_bridge_client.py): data packets, decoded and,
 * on the transcription topic, unwrapped from a JSON `{"text": ...}` envelope;
 * and legacy transcription events, whose segments are joined and whose echo
 * from the agent's own participant is dropped. Each function gives the text
 * that is handed to the callback, or None when nothing is.
 */
module EventRouter {
  import opened Wrappers
  import opened Text
  import opened Json
  import Utf8

  const TranscriptionTopic: string := "lk.transcription"
  const AgentMarker: string := "agent-"

  /** An inbound data packet: its topic and its raw payload. */
  datatype DataPacket = DataPacket(topic: string, data: seq<Utf8.byte>)

  /** The outcome of `_process_text_message(text)` for an arbitrary Python value. */
  datatype Handling = Forward(text: string) | Skip | Raise

  /** `_process_text_message` given a plain string: the text is forwarded unless it is blank. */
  function NonBlank(t: string): (r: Option<string>)
    ensures r.Some? <==> !IsBlank(t)
    ensures r.Some? ==> r.value == t
  {
    if IsBlank(t) then None else Some(t)
  }

  /**
   * `_process_text_message(v)` for a value taken out of a JSON object:
   * `if text and text.strip()` skips falsy values and blank strings, and raises
   * (AttributeError from `.strip()`) on a truthy value that is not a string.
   */
  function ProcessValue(v: Json): (h: Handling)
    ensures h.Forward? <==> v.JString? && !IsBlank(v.s)
    ensures h.Forward? ==> h.text == v.s
    ensures h.Raise? <==> Truthy(v) && !v.JString?
  {
    if !Truthy(v) then Skip
    else if v.JString? then (if IsBlank(v.s) then Skip else Forward(v.s))
    else Raise
  }

  /**
   * The value the transcription branch hands to `_process_text_message`, or None when
   * computing it raises: text that starts with `{` and mentions `text` goes through
   * `json.loads` and `obj.get('text', text)`.
   */
  function EnvelopeValue(t: string, parse: string -> Option<Json>): (r: Option<Json>)
    ensures !(StartsWith(t, "{") && Contains(t, "text")) ==> r == Some(JString(t))
    ensures r.None? <==> StartsWith(t, "{") && Contains(t, "text") && !(parse(t).Some? && parse(t).value.JObject?)
    ensures r.Some? && StartsWith(t, "{") && Contains(t, "text") ==>
              var m := parse(t).value.fields; r.value == if "text" in m then m["text"] else JString(t)
  {
    if StartsWith(t, "{") && Contains(t, "text") then
      match parse(t)
      case None => None                        // json.loads raised
      case Some(JObject(m)) => Some(if "text" in m then m["text"] else JString(t))
      case Some(_) => None                     // .get on a non-dict raises
    else Some(JString(t))
  }

  /**
   * `_on_data_received`: the text a data packet delivers. A packet on the transcription
   * topic whose envelope handling raises falls back to the generic path, which forwards
   * the raw decoded text; a payload that is not UTF-8 delivers nothing.
   */
  function NormalizePacket(p: DataPacket, parse: string -> Option<Json>): (r: Option<string>)
    ensures r.Some? ==> !IsBlank(r.value)
    ensures Utf8.Decode(p.data).None? ==> r.None?
    ensures p.topic != TranscriptionTopic ==> r == NonBlank(Utf8.Decode(p.data).GetOr(""))
    ensures r.Some? ==> r.value == Utf8.Decode(p.data).value || EnvelopeValue(Utf8.Decode(p.data).value, parse) == Some(JString(r.value))
  {
    match Utf8.Decode(p.data)
    case None => None
    case Some(t) =>
      if p.topic == TranscriptionTopic then
        match EnvelopeValue(t, parse)
        case None => NonBlank(t)
        case Some(v) =>
          match ProcessValue(v)
          case Forward(s) => Some(s)
          case Skip => None
          case Raise => NonBlank(t)
      else NonBlank(t)
  }

  /** The participant a legacy transcription event comes from. */
  datatype Participant = Participant(identity: string)

  /** The `text` attribute of a transcription segment: absent, a string, or some other object. */
  datatype SegmentText = NoText | Text(s: string) | NonStringText

  /** A legacy transcription: a list of segments, or any other object with its `str()` rendering. */
  datatype Transcription = Segments(segments: seq<SegmentText>) | Other(rendered: string)

  /**
   * The texts of the segments that have a `text` attribute, in order; None when one of
   * them is not a string, which makes `" ".join` raise TypeError.
   */
  function SegmentTexts(segs: seq<SegmentText>): (r: Option<seq<string>>)
    ensures r.None? <==> exists i :: 0 <= i < |segs| && segs[i].NonStringText?
    ensures r.Some? ==> |r.value| <= |segs|
  {
    if segs == [] then Some([])
    else match SegmentTexts(segs[1..])
      case None => None
      case Some(rest) =>
        match segs[0]
        case NoText => Some(rest)
        case Text(s) => Some([s] + rest)
        case NonStringText => None
  }

  /** A text comes out of the join exactly when some segment carries it as a string. */
  lemma {:induction false} SegmentTextsMembers(segs: seq<SegmentText>)
    requires SegmentTexts(segs).Some?
    ensures forall s :: s in SegmentTexts(segs).value <==> Text(s) in segs
  {
    if segs != [] {
      SegmentTextsMembers(segs[1..]);
      assert forall x :: x in segs <==> x == segs[0] || x in segs[1..];
    }
  }

  /** The texts of single segments: a string text is kept, a missing one is skipped. */
  lemma SegmentTextsSingle(s: string)
    ensures SegmentTexts([Text(s)]) == Some([s])
    ensures SegmentTexts([NoText]) == Some([])
    ensures SegmentTexts([NonStringText]).None?
  {
    assert [Text(s)][1..] == [] && [NoText][1..] == [] && [NonStringText][1..] == [];
    assert SegmentTexts([]) == Some([]) && [s] + [] == [s];
  }

  /**
   * The list comprehension works segment by segment, in order: the texts of two runs of
   * segments are the texts of the first followed by those of the second.
   */
  lemma {:induction false} SegmentTextsAppend(a: seq<SegmentText>, b: seq<SegmentText>)
    ensures SegmentTexts(a + b) ==
              if SegmentTexts(a).Some? && SegmentTexts(b).Some?
              then Some(SegmentTexts(a).value + SegmentTexts(b).value) else None
    decreases |a|
  {
    if a == [] {
      assert a + b == b;
      assert SegmentTexts(a) == Some([]);
      if SegmentTexts(b).Some? {
        assert [] + SegmentTexts(b).value == SegmentTexts(b).value;
      }
    } else {
      var ab := a + b;
      assert ab != [] && ab[0] == a[0] && ab[1..] == a[1..] + b;
      SegmentTextsAppend(a[1..], b);
      var tail := SegmentTexts(a[1..]);
      var rest := SegmentTexts(b);
      match a[0]
      case NoText =>
      case NonStringText =>
      case Text(t) =>
        if tail.Some? && rest.Some? {
          assert [t] + (tail.value + rest.value) == ([t] + tail.value) + rest.value;
        }
    }
  }

  /**
   * `_on_transcription_received`: the text a legacy transcription event delivers.
   * Events from a participant whose identity contains `agent-` deliver nothing;
   * segment texts are joined with single spaces; blank text is never delivered.
   */
  function NormalizeTranscription(t: Transcription, participant: Option<Participant>): (r: Option<string>)
    ensures participant.Some? && Contains(participant.value.identity, AgentMarker) ==> r.None?
    ensures r.Some? ==> !IsBlank(r.value)
    ensures t.Other? && !(participant.Some? && Contains(participant.value.identity, AgentMarker))
            ==> r == NonBlank(t.rendered)
    ensures t.Segments? && SegmentTexts(t.segments).None? ==> r.None?
  {
    if participant.Some? && Contains(participant.value.identity, AgentMarker) then None
    else
      match t
      case Other(rendered) => NonBlank(rendered)
      case Segments(segs) =>
        match SegmentTexts(segs)
        case None => None
        case Some(texts) => NonBlank(JoinSpace(texts))
  }

  /** On the transcription topic, a JSON envelope's string `text` field is what is delivered (when it is not blank). */
  lemma EnvelopeTextField(p: DataPacket, parse: string -> Option<Json>, m: map<string, Json>, s: string)
    requires p.topic == TranscriptionTopic && Utf8.Decode(p.data).Some?
    requires StartsWith(Utf8.Decode(p.data).value, "{") && Contains(Utf8.Decode(p.data).value, "text")
    requires parse(Utf8.Decode(p.data).value) == Some(JObject(m))
    requires "text" in m && m["text"] == JString(s)
    ensures NormalizePacket(p, parse) == NonBlank(s)
  {
  }

  /** An envelope that does not parse, parses to a non-object or has no `text` key delivers the raw decoded text. */
  lemma EnvelopeFallsBackToRaw(p: DataPacket, parse: string -> Option<Json>)
    requires p.topic == TranscriptionTopic && Utf8.Decode(p.data).Some?
    requires var t := Utf8.Decode(p.data).value;
      || !StartsWith(t, "{") || !Contains(t, "text")
      || parse(t).None?
      || (parse(t).Some? && !parse(t).value.JObject?)
      || (parse(t).Some? && parse(t).value.JObject? && "text" !in parse(t).value.fields)
    ensures NormalizePacket(p, parse) == NonBlank(Utf8.Decode(p.data).value)
  {
  }

  /**
   * A `text` field that is not a string: a truthy one (a number, `true`, a non-empty
   * list or object) makes `.strip()` raise and the raw text is delivered instead; a
   * falsy one (`null`, `0`, `false`, `""`, `[]`, `{}`) delivers nothing at all.
   */
  lemma EnvelopeNonStringField(p: DataPacket, parse: string -> Option<Json>, m: map<string, Json>)
    requires p.topic == TranscriptionTopic && Utf8.Decode(p.data).Some?
    requires StartsWith(Utf8.Decode(p.data).value, "{") && Contains(Utf8.Decode(p.data).value, "text")
    requires parse(Utf8.Decode(p.data).value) == Some(JObject(m))
    requires "text" in m && !m["text"].JString?
    ensures Truthy(m["text"]) ==> NormalizePacket(p, parse) == NonBlank(Utf8.Decode(p.data).value)
    ensures !Truthy(m["text"]) ==> NormalizePacket(p, parse) == None
  {
  }

  /**
   * Published text reaches a receiver intact: a packet carrying the UTF-8 encoding of
   * `s`, on any topic other than the transcription topic, delivers `s` unless it is blank.
   */
  lemma {:induction false} PublishedTextIsDelivered(topic: string, s: string, parse: string -> Option<Json>)
    requires topic != TranscriptionTopic
    ensures NormalizePacket(DataPacket(topic, Utf8.Encode(s)), parse) == NonBlank(s)
  {
    Utf8.DecodeEncode(s);
  }

  /** On the transcription topic, encoded text that is not a JSON envelope is delivered as it was sent. */
  lemma {:induction false} PlainTranscriptionIsDelivered(s: string, parse: string -> Option<Json>)
    requires !StartsWith(s, "{")
    ensures NormalizePacket(DataPacket(TranscriptionTopic, Utf8.Encode(s)), parse) == NonBlank(s)
  {
    Utf8.DecodeEncode(s);
  }

  /** A list transcription delivers its segment texts joined by single spaces, and nothing when all of them are blank. */
  lemma {:induction false} SegmentsJoined(segs: seq<SegmentText>, participant: Option<Participant>)
    requires !(participant.Some? && Contains(participant.value.identity, AgentMarker))
    requires SegmentTexts(segs).Some?
    ensures NormalizeTranscription(Segments(segs), participant).Some?
            <==> exists i :: 0 <= i < |SegmentTexts(segs).value| && !IsBlank(SegmentTexts(segs).value[i])
    ensures NormalizeTranscription(Segments(segs), participant).Some?
            ==> NormalizeTranscription(Segments(segs), participant).value == JoinSpace(SegmentTexts(segs).value)
  {
    JoinSpaceBlank(SegmentTexts(segs).value);
  }
}
