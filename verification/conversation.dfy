/**
 * `ConversationManager` (backend/conversation_manager.py): the conversation
 * history, the protocol/step slots and the echo-mode turn handling of
 * `process_input`. The vision model is a function from image bytes to the
 * dictionary it returns; the patient database is the append-only list of the
 * records logged to it; the voice bridge is the `VoiceBridgeClient` model.
 */
module Conversation {
  import opened Wrappers
  import opened Text
  import Utf8
  import opened VoiceBridge

  datatype Role = User | Assistant

  /** One history entry: `{"role": ..., "content": ...}`. */
  datatype Turn = Turn(role: Role, content: string)

  /** One record given to `log_patient_state` (its timestamp is not modelled). */
  datatype LogRecord = LogRecord(heartRate: string, injuryDetected: string, actionsTaken: string)

  const Greeting: string := "Savant System Online. Monitoring vitals. Describe the emergency."
  const AwaitingInput: string := "Awaiting input."
  const EchoPrefix: string := "I heard you say: "
  const ImageTurnText: string := "\U{1F4F8} [Image Analysis]"
  const Unknown: string := "Unknown"

  /** The callback id under which a manager registers its `process_input` with the bridge. */
  const ProcessInputCallback: CallbackId := 0

  /** `analysis.get(key, "Unknown")`. */
  function GetOrUnknown(analysis: map<string, string>, key: string): (v: string)
    ensures key in analysis ==> v == analysis[key]
    ensures key !in analysis ==> v == Unknown
  {
    if key in analysis then analysis[key] else Unknown
  }

  /** The bracketed summary of a vision result that is appended to the user's words. */
  function VisualContext(analysis: map<string, string>): (r: string)
    ensures StartsWith(r, "[Visual Info: Found ") && r[|r| - 1] == ']'
    ensures |r| > 20 + |GetOrUnknown(analysis, "injury")|
    ensures r[20..20 + |GetOrUnknown(analysis, "injury")|] == GetOrUnknown(analysis, "injury")
    ensures r[20 + |GetOrUnknown(analysis, "injury")|..] == ", Severity: " + GetOrUnknown(analysis, "severity") + "]"
  {
    var prefix, injury := "[Visual Info: Found ", GetOrUnknown(analysis, "injury");
    var rest := ", Severity: " + GetOrUnknown(analysis, "severity") + "]";
    assert |prefix| == 20 && (prefix + injury + rest)[20 + |injury|..] == rest;
    prefix + injury + rest
  }

  /** The record logged for an analysed image. */
  function VisionLogRecord(analysis: map<string, string>): (rec: LogRecord)
    ensures rec.heartRate == "--"
    ensures rec.injuryDetected == GetOrUnknown(analysis, "injury")
    ensures StartsWith(rec.actionsTaken, "Visual Analysis: ")
    ensures rec.actionsTaken[17..] == GetOrUnknown(analysis, "severity")
  {
    LogRecord("--", GetOrUnknown(analysis, "injury"), "Visual Analysis: " + GetOrUnknown(analysis, "severity"))
  }

  /** What `analyze_injury` returns when the vision call fails. */
  function VisionFallback(): (m: map<string, string>)
    ensures "injury" !in m && "severity" in m && m["severity"] == Unknown
  {
    map["injury_type" := Unknown, "severity" := Unknown, "visual_overlay_text" := "Analysis Failed - Check Connection"]
  }

  /**
   * The fallback names its injury under `injury_type`, which `process_input` never reads,
   * so after a failed vision call the injury shown and logged is "Unknown" by default.
   */
  lemma FallbackInjuryIsUnknown()
    ensures "injury" !in VisionFallback()
    ensures VisualContext(VisionFallback()) == "[Visual Info: Found " + Unknown + ", Severity: " + Unknown + "]"
    ensures VisionLogRecord(VisionFallback()) == LogRecord("--", Unknown, "Visual Analysis: Unknown")
  {
    FallbackVisualContext();
    FallbackLogRecord();
  }

  /** Neither key `process_input` reads from the fallback yields anything but "Unknown". */
  lemma FallbackFieldsUnknown()
    ensures "injury" !in VisionFallback()
    ensures GetOrUnknown(VisionFallback(), "injury") == Unknown
    ensures GetOrUnknown(VisionFallback(), "severity") == Unknown
  {
    assert "injury" != "injury_type" && "injury" != "visual_overlay_text" && "injury" != "severity";
  }

  lemma FallbackVisualContext()
    ensures VisualContext(VisionFallback()) == "[Visual Info: Found " + Unknown + ", Severity: " + Unknown + "]"
  {
    FallbackFieldsUnknown();
  }

  lemma FallbackLogRecord()
    ensures VisionLogRecord(VisionFallback()) == LogRecord("--", Unknown, "Visual Analysis: Unknown")
  {
    FallbackFieldsUnknown();
  }

  /** The user turn `process_input` records: the user's words, else the image marker, else none. */
  function UserTurns(userText: string, image: seq<Utf8.byte>): (t: seq<Turn>)
    ensures |t| <= 1
    ensures |t| == 0 <==> userText == "" && image == []
    ensures userText != "" ==> t == [Turn(User, userText)]
    ensures userText == "" && image != [] ==> t == [Turn(User, ImageTurnText)]
  {
    if userText != "" then [Turn(User, userText)]
    else if image != [] then [Turn(User, ImageTurnText)]
    else []
  }

  /** `final_input`: the user's words followed, when an image is given, by a space and its visual context. */
  function CombinedInput(userText: string, image: seq<Utf8.byte>, analyze: seq<Utf8.byte> -> map<string, string>): (r: string)
    ensures r == "" <==> userText == "" && image == []
    ensures image == [] ==> r == userText
    ensures image != [] ==> r == userText + " " + VisualContext(analyze(image))
    ensures StartsWith(r, userText)
  {
    if image != [] then userText + " " + VisualContext(analyze(image)) else userText
  }

  /** The echo-mode reply to a combined input. */
  function EchoReply(finalInput: string): (r: string)
    ensures finalInput == "" ==> r == AwaitingInput
    ensures finalInput != "" ==> StartsWith(r, EchoPrefix) && r[|EchoPrefix|..] == finalInput
  {
    if finalInput == "" then AwaitingInput else EchoPrefix + finalInput
  }

  /** The echo reply determines the input it answers: different non-empty inputs get different replies. */
  lemma {:induction false} EchoReplyInjective(a: string, b: string)
    requires a != "" && b != ""
    ensures EchoReply(a) == EchoReply(b) <==> a == b
  {
    if EchoReply(a) == EchoReply(b) {
      assert a == EchoReply(a)[|EchoPrefix|..];
    }
  }

  class ConversationManager {
    var history: seq<Turn>
    var activeProtocol: Option<string>
    var currentStepId: Option<string>
    var conversationActive: bool
    /** The records logged to the patient database, oldest first. */
    var dbLog: seq<LogRecord>
    const bridge: VoiceBridgeClient

    /** `__init__`: empty state, a fresh bridge whose message callback is this manager's `process_input`. */
    constructor ()
      ensures history == [] && dbLog == []
      ensures activeProtocol.None? && currentStepId.None? && !conversationActive
      ensures fresh(bridge)
      ensures bridge.onMessage == Some(ProcessInputCallback)
      ensures bridge.room.None? && bridge.source.None? && bridge.track.None?
      ensures bridge.delivered == [] && bridge.published == []
      ensures bridge.micTask.None? && bridge.audioStreamTask.None? && bridge.disconnected == []
    {
      activeProtocol := None;
      currentStepId := None;
      conversationActive := false;
      history := [];
      dbLog := [];
      var b := new VoiceBridgeClient();
      b.SetOnMessage(Some(ProcessInputCallback));
      bridge := b;
    }

    /**
     * `_speak_and_return`: records the reply as one assistant turn and returns it. Speech
     * synthesis is reached only when the bridge has an audio source and ends in the
     * bridge's `send_audio`, which does nothing, so it changes no state.
     */
    method SpeakAndReturn(text: string) returns (r: string)
      modifies this`history
      ensures history == old(history) + [Turn(Assistant, text)]
      ensures r == text
    {
      history := history + [Turn(Assistant, text)];
      r := text;
    }

    /** `start_conversation`: marks the conversation active, clears protocol and step, and greets. */
    method StartConversation() returns (r: string)
      modifies this`history, this`conversationActive, this`activeProtocol, this`currentStepId
      ensures conversationActive && activeProtocol.None? && currentStepId.None?
      ensures history == old(history) + [Turn(Assistant, Greeting)]
      ensures r == Greeting
    {
      conversationActive := true;
      activeProtocol := None;
      currentStepId := None;
      r := SpeakAndReturn(Greeting);
    }

    /**
     * `process_input` in echo mode. An empty `userText` or `image` stands for both the
     * empty value and None, which the source treats alike.
     */
    method ProcessInput(userText: string, image: seq<Utf8.byte>, analyze: seq<Utf8.byte> -> map<string, string>)
      returns (r: string)
      modifies this`history, this`dbLog, bridge`published
      ensures r == EchoReply(CombinedInput(userText, image, analyze))
      ensures history == old(history) + UserTurns(userText, image) + [Turn(Assistant, r)]
      ensures dbLog == old(dbLog) + if image != [] then [VisionLogRecord(analyze(image))] else []
      ensures bridge.published == old(bridge.published) +
                if CombinedInput(userText, image, analyze) != "" && bridge.room.Some?
                then ContextPackets(bridge.room, CombinedInput(userText, image, analyze)) else []
    {
      if userText != "" {
        history := history + [Turn(User, userText)];
      } else if image != [] {
        history := history + [Turn(User, ImageTurnText)];
      }

      var visualContext := "";
      if image != [] {
        var analysis := analyze(image);
        var injury := GetOrUnknown(analysis, "injury");
        var severity := GetOrUnknown(analysis, "severity");
        visualContext := "[Visual Info: Found " + injury + ", Severity: " + severity + "]";
        assert visualContext == VisualContext(analysis);
        dbLog := dbLog + [LogRecord("--", injury, "Visual Analysis: " + severity)];
      }

      var finalInput := userText;
      if visualContext != "" {
        finalInput := finalInput + " " + visualContext;
      }

      if finalInput == "" {
        r := SpeakAndReturn(AwaitingInput);
        return;
      }

      if bridge.room.Some? {
        bridge.PublishContext(finalInput);
      }

      r := SpeakAndReturn(EchoPrefix + finalInput);
    }
  }

  /**
   * A turn with words grows the history by exactly the user turn and the echo; a turn with
   * neither words nor image adds only "Awaiting input."; turns without an image log nothing.
   */
  method WordsThenSilence(m: ConversationManager, words: string, analyze: seq<Utf8.byte> -> map<string, string>)
    requires words != ""
    modifies m, m.bridge
    ensures |m.history| == |old(m.history)| + 3
    ensures m.history[|m.history| - 3..] == [Turn(User, words), Turn(Assistant, EchoPrefix + words), Turn(Assistant, AwaitingInput)]
    ensures m.dbLog == old(m.dbLog)
  {
    var r1 := m.ProcessInput(words, [], analyze);
    var r2 := m.ProcessInput("", [], analyze);
    assert r2 == AwaitingInput;
  }
}
