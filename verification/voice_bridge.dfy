/**
 * The state that `VoiceBridgeClient` keeps between events
 * (backend/voice_bridge_client.py): the room, audio source and track handles,
 * the registered message callback and the background audio tasks. Its
 * observable effects are recorded in the object itself: the texts handed to
 * the callback, in order (the source schedules each one as its own task; the
 * model keeps only their order), the data packets published to the room, and
 * the rooms disconnected.
 */
module VoiceBridge {
  import opened Wrappers
  import opened Json
  import Utf8
  import opened EventRouter

  /** The connected room and, once joined, the identity of the local participant. */
  datatype Room = Room(name: string, localParticipant: Option<string>)

  /** A background asyncio task and whether it has been cancelled. */
  datatype Task = Task(id: nat, cancelled: bool)

  /** Identifies a registered callback, e.g. one manager's `process_input`. */
  type CallbackId = nat

  /** The callback invocations that delivering `text` causes: one, if a callback is registered and there is text. */
  function Deliveries(callback: Option<CallbackId>, text: Option<string>): (d: seq<(CallbackId, string)>)
    ensures |d| <= 1
    ensures |d| == 1 <==> callback.Some? && text.Some?
    ensures |d| == 1 ==> d[0] == (callback.value, text.value)
  {
    if callback.Some? && text.Some? then [(callback.value, text.value)] else []
  }

  /** The packets `publish_context` sends: the UTF-8 encoding of the text, once, if the room has a local participant. */
  function ContextPackets(room: Option<Room>, context: string): (p: seq<seq<Utf8.byte>>)
    ensures room.None? || room.value.localParticipant.None? ==> p == []
    ensures room.Some? && room.value.localParticipant.Some? ==> |p| == 1 && Utf8.Decode(p[0]) == Some(context)
  {
    Utf8.DecodeEncode(context);
    if room.Some? && room.value.localParticipant.Some? then [Utf8.Encode(context)] else []
  }

  class VoiceBridgeClient {
    var room: Option<Room>
    var source: Option<nat>
    var track: Option<nat>
    var onMessage: Option<CallbackId>
    var micTask: Option<Task>
    var audioStreamTask: Option<Task>

    /** Texts handed to the message callback, with the callback that received each. */
    var delivered: seq<(CallbackId, string)>
    /** Data packets sent by `publish_context`, in order. */
    var published: seq<seq<Utf8.byte>>
    /** Rooms `close` disconnected from, in order. */
    var disconnected: seq<Room>

    /** `__init__`: nothing connected, no callback, no tasks. */
    constructor ()
      ensures room.None? && source.None? && track.None?
      ensures onMessage.None? && micTask.None? && audioStreamTask.None?
      ensures delivered == [] && published == [] && disconnected == []
    {
      room, source, track := None, None, None;
      onMessage := None;
      micTask, audioStreamTask := None, None;
      delivered, published, disconnected := [], [], [];
    }

    /** `set_on_message`: registers (or, with None, clears) the message callback. */
    method SetOnMessage(callback: Option<CallbackId>)
      modifies this`onMessage
      ensures onMessage == callback
    {
      onMessage := callback;
    }

    /** The room handle is set and joined, as `connect_and_stream` leaves it after a successful connect. */
    method AttachRoom(r: Room)
      modifies this`room
      ensures room == Some(r)
    {
      room := Some(r);
    }

    /** The `track_subscribed` handler starts the task that consumes the agent's audio stream. */
    method StartAudioConsumer(id: nat)
      modifies this`audioStreamTask
      ensures audioStreamTask == Some(Task(id, false))
    {
      audioStreamTask := Some(Task(id, false));
    }

    /** `_on_data_received`: the packet's text, if any, goes to the registered callback. */
    method OnDataReceived(p: DataPacket, parse: string -> Option<Json>)
      modifies this`delivered
      ensures delivered == old(delivered) + Deliveries(onMessage, NormalizePacket(p, parse))
    {
      var text := NormalizePacket(p, parse);
      if text.Some? && onMessage.Some? {
        delivered := delivered + [(onMessage.value, text.value)];
      }
    }

    /** `_on_transcription_received`: the event's text, if any, goes to the registered callback. */
    method OnTranscriptionReceived(t: Transcription, participant: Option<Participant>)
      modifies this`delivered
      ensures delivered == old(delivered) + Deliveries(onMessage, NormalizeTranscription(t, participant))
    {
      var text := NormalizeTranscription(t, participant);
      if text.Some? && onMessage.Some? {
        delivered := delivered + [(onMessage.value, text.value)];
      }
    }

    /**
     * `close`: cancels the microphone and audio tasks that exist, disconnects the room
     * if there is one, and forgets room, source and track whatever they were.
     */
    method Close()
      modifies this`micTask, this`audioStreamTask, this`disconnected, this`room, this`source, this`track
      ensures room.None? && source.None? && track.None?
      ensures micTask == if old(micTask).Some? then Some(Task(old(micTask).value.id, true)) else None
      ensures audioStreamTask == if old(audioStreamTask).Some? then Some(Task(old(audioStreamTask).value.id, true)) else None
      ensures disconnected == old(disconnected) + if old(room).Some? then [old(room).value] else []
    {
      if micTask.Some? {
        micTask := Some(micTask.value.(cancelled := true));
      }
      if audioStreamTask.Some? {
        audioStreamTask := Some(audioStreamTask.value.(cancelled := true));
      }
      if room.Some? {
        disconnected := disconnected + [room.value];
      }
      room := None;
      source := None;
      track := None;
    }

    /**
     * `publish_context`: without a room or a local participant nothing is sent; otherwise
     * the UTF-8 encoding of the text is published once.
     */
    method PublishContext(context: string)
      modifies this`published
      ensures published == old(published) + ContextPackets(room, context)
    {
      if room.None? || room.value.localParticipant.None? {
        return;
      }
      published := published + [Utf8.Encode(context)];
    }
  }

  /** A client closed twice is in the same state as one closed once, apart from the disconnect log. */
  method CloseTwice(c: VoiceBridgeClient)
    modifies c
    ensures c.room.None? && c.source.None? && c.track.None?
    ensures c.disconnected == old(c.disconnected) + if old(c.room).Some? then [old(c.room).value] else []
  {
    c.Close();
    c.Close();
  }
}
