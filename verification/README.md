# Savant core in Dafny

Savant is a voice-first field-medic assistant. This project models three parts of its
Python back end and proves properties about them:

- **The voice bridge client** (`backend/voice_bridge_client.py`). Inbound LiveKit data
  packets and legacy transcription events become text for the registered message
  callback. Packets on the `lk.transcription` topic may carry a JSON `{"text": ...}`
  envelope. Legacy transcription events from an `agent-` participant are dropped;
  data packets are not filtered by sender. Blank text is never delivered. The client also publishes context text as UTF-8 data packets and closes
  its room, audio handles and tasks. `VoiceBridgeClient` is a class. What it delivers,
  publishes and disconnects is recorded in its own fields.
- **The conversation manager** (`backend/conversation_manager.py`), in its echo mode.
  It keeps a history of user and assistant turns and the protocol/step slots. An
  image's vision result becomes a bracketed visual context that is appended to the
  user's words and logged to the patient database. The combined input is published
  over the bridge when a room is connected and echoed back. The vision fallback of
  `backend/vision_processor.py` names its injury under `injury_type`, which
  `process_input` never reads.
- **The protocol extraction pipeline** (`rag_preparation/data_pipeline.py`). The text
  is cut into windows of 15000 characters every 14500 characters. Each model reply
  has its markdown fences removed and is parsed, and the `protocols` lists are
  accumulated. The hard-coded hemorrhage protocol is the fallback. The extracted
  protocols are de-duplicated by `id` with Python dictionary semantics, including
  `True == 1 == 1.0` keys, unhashable ids and `"id" in p` on non-dictionaries.

Supporting modules:

| module | what it holds |
|---|---|
| `Text` | Python's `isspace`, `strip`, `startswith`, substring `in`, `find` and `" ".join` |
| `Utf8` | strict UTF-8 encoding and decoding, with both round trips proved |
| `Json` | the values `json.loads` yields, and their truthiness |
| `Wrappers` | `Option` |

The JSON parser, the language model and the vision model are function parameters:

| parameter | stands for | None means |
|---|---|---|
| `parse: string -> Option<Json>` | `json.loads` | it raised |
| `llm: (nat, string) -> Option<string>` | the model call for chunk `i` | the call failed or the reply had no content |
| `analyze: seq<byte> -> map<string, string>` | `analyze_injury` | — |

Two behaviours of the source are proved as they are:

- Protocols that were extracted but carry no `id` produce `{"protocols": []}`, not
  the placeholder. The emptiness test runs before de-duplication
  (`DataPipeline.IdlessExtractionGivesEmptyDocument`).
- An element of the extracted list on which the id test or the dictionary store
  raises makes the whole call raise, because the loop is outside any `try`
  (`ProtocolMerge.MergedById`).

## Model

| member | source | states |
|---|---|---|
| VoiceBridge.VoiceBridgeClient.constructor | backend/voice_bridge_client.py:13-22 | a new client has no room, source, track, callback or tasks, and has delivered, published and disconnected nothing |
| VoiceBridge.VoiceBridgeClient.SetOnMessage | backend/voice_bridge_client.py:24-25 | the registered callback becomes exactly the one given, and nothing else changes |
| VoiceBridge.VoiceBridgeClient.AttachRoom | backend/voice_bridge_client.py:233-258 | after a successful connect the client holds the room |
| VoiceBridge.VoiceBridgeClient.StartAudioConsumer | backend/voice_bridge_client.py:236-242 | subscribing to the agent's audio track starts a live (not cancelled) audio-consumer task |
| VoiceBridge.VoiceBridgeClient.OnDataReceived | backend/voice_bridge_client.py:52-75 | a data packet appends to the deliveries exactly the callback invocations that its normalised text causes: one if a callback is registered and the packet has text, none otherwise |
| VoiceBridge.VoiceBridgeClient.OnTranscriptionReceived | backend/voice_bridge_client.py:93-114 | a transcription event appends exactly the invocations its normalised text causes |
| VoiceBridge.VoiceBridgeClient.Close | backend/voice_bridge_client.py:197-211 | existing mic and audio tasks are cancelled and keep their ids, absent ones stay absent; a present room is disconnected once; room, source and track end up None |
| VoiceBridge.VoiceBridgeClient.PublishContext | backend/voice_bridge_client.py:278-291 | without a room or local participant nothing is published; otherwise exactly one packet, which decodes back to the context text |
| VoiceBridge.CloseTwice | backend/voice_bridge_client.py:197-211 | closing is idempotent: a second close disconnects nothing more and leaves the handles None |
| VoiceBridge.Deliveries | backend/voice_bridge_client.py:77-81 | there is at most one callback invocation; there is one exactly when a callback is registered and there is text, and it carries that callback and that text |
| VoiceBridge.ContextPackets | backend/voice_bridge_client.py:282-288 | no packet without a room or local participant; otherwise one packet whose UTF-8 decoding is the context |
| EventRouter.NonBlank | backend/voice_bridge_client.py:77-78 | text is forwarded exactly when it is not blank under Python's `isspace`, and unchanged |
| EventRouter.ProcessValue | backend/voice_bridge_client.py:77-81 | an envelope value is forwarded exactly when it is a non-blank string; it raises exactly when it is truthy and not a string |
| EventRouter.EnvelopeValue | backend/voice_bridge_client.py:60-63 | text not starting with `{` or not mentioning `text` passes through; otherwise it raises exactly when the parse fails or gives a non-object, else it is the object's `text` value or the text itself |
| EventRouter.NormalizePacket | backend/voice_bridge_client.py:52-75 | the result is never blank; undecodable payloads deliver nothing; off the transcription topic the decoded text is delivered when non-blank; what is delivered is the decoded text or the envelope's string `text` |
| EventRouter.SegmentTexts | backend/voice_bridge_client.py:104 | the join raises exactly when some segment's `text` is not a string; otherwise there is at most one text per segment |
| EventRouter.SegmentTextsMembers | backend/voice_bridge_client.py:104 | when the join does not raise, a text comes out exactly when some segment carries it as a string |
| EventRouter.SegmentTextsSingle | backend/voice_bridge_client.py:104 | a segment with a string text gives just that text, one without text gives nothing, one with a non-string text raises |
| EventRouter.SegmentTextsAppend | backend/voice_bridge_client.py:104 | the texts of two runs of segments are the texts of the first followed by those of the second (in segment order), and the join raises when either part does |
| EventRouter.NormalizeTranscription | backend/voice_bridge_client.py:93-114 | events from an `agent-` participant deliver nothing; nothing blank is delivered; a non-list transcription delivers its rendering when non-blank; a segment list whose join raises delivers nothing |
| EventRouter.EnvelopeTextField | backend/voice_bridge_client.py:56-65 | an envelope with a string `text` field delivers that field (if non-blank) |
| EventRouter.EnvelopeFallsBackToRaw | backend/voice_bridge_client.py:56-72 | a non-envelope, an unparsable envelope, one that parses to a non-object or one without `text` delivers the raw decoded text |
| EventRouter.EnvelopeNonStringField | backend/voice_bridge_client.py:63-78 | a truthy non-string `text` field falls back to the raw text; a falsy one delivers nothing |
| EventRouter.PublishedTextIsDelivered | backend/voice_bridge_client.py:70-72 | text published as UTF-8 on a non-transcription topic is delivered intact (if non-blank) |
| EventRouter.PlainTranscriptionIsDelivered | backend/voice_bridge_client.py:56-66 | plain encoded text on the transcription topic is delivered as sent |
| EventRouter.SegmentsJoined | backend/voice_bridge_client.py:103-112 | a list transcription delivers something exactly when some segment text is non-blank, and then delivers the texts joined by single spaces |
| Utf8.DecodeEncode | backend/voice_bridge_client.py:287 | decoding the UTF-8 encoding of any text gives the text back |
| Utf8.EncodeDecode | backend/voice_bridge_client.py:58 | any byte string that decodes is exactly the encoding of what it decodes to |
| Utf8.Encode | backend/voice_bridge_client.py:287 | the encoding takes between one and four bytes per character |
| Utf8.Decode | backend/voice_bridge_client.py:71 | a decoded text has no more characters than the bytes it came from |
| Json.Truthy | backend/voice_bridge_client.py:78 | Python truthiness of a parsed value: null, false, 0, "", [] and {} are falsy, every other value is truthy; `ProcessValue` is stated with it |
| Text.StartsWith | backend/voice_bridge_client.py:60 | `str.startswith`: the pattern is a prefix of the text |
| Text.IsSpace | backend/voice_bridge_client.py:78 | the characters Python's `str.isspace()` accepts, which `strip()` removes; `Strip`, `JoinSpaceBlank` and `NonBlank` are stated with it |
| Text.IsBlank | backend/voice_bridge_client.py:109 | a text is blank when every character is whitespace, i.e. its `strip()` is empty; `Strip` proves it returns "" exactly for blank input |
| Text.Strip | rag_preparation/data_pipeline.py:119 | the result is empty exactly when the input is blank; it has non-space ends and is a contiguous slice of the input starting after the leading whitespace |
| Text.StripPadded | rag_preparation/data_pipeline.py:119 | stripping removes exactly the whitespace around a body with non-space ends |
| Text.StripIdempotent | rag_preparation/data_pipeline.py:119 | stripping twice is stripping once |
| Text.Find | rag_preparation/data_pipeline.py:118 | the result is an occurrence of the pattern, and no earlier occurrence exists (None: none at all) |
| Text.Contains | backend/voice_bridge_client.py:60 | the `in` test on texts: true exactly when `Find` finds an occurrence of the pattern, so, by `Find`'s contract, exactly when the pattern occurs somewhere |
| Text.JoinSpace | backend/voice_bridge_client.py:104 | `" ".join`: the parts with one space between neighbours; `JoinSpaceLength` and `JoinSpaceBlank` prove its length and when it is blank |
| Text.JoinSpaceLength | backend/voice_bridge_client.py:104 | the joined text's length is the parts' lengths plus one separator between neighbours |
| Text.JoinSpaceBlank | backend/voice_bridge_client.py:104-109 | a joined text is blank exactly when every part is blank |
| Conversation.ConversationManager.constructor | backend/conversation_manager.py:12-24 | empty history and log, no protocol or step, inactive; a fresh bridge with this manager's `process_input` as its callback, no microphone or audio-stream task and nothing disconnected |
| Conversation.ConversationManager.SpeakAndReturn | backend/conversation_manager.py:28-37 | appends exactly one assistant turn with the text and returns the text |
| Conversation.ConversationManager.StartConversation | backend/conversation_manager.py:39-44 | the conversation becomes active with protocol and step cleared; the greeting is recorded and returned |
| Conversation.ConversationManager.ProcessInput | backend/conversation_manager.py:46-104 | the reply is the echo of the combined input; the history gains the user turn (if any) and the reply; an image logs exactly its vision record; context is published only for non-empty input with a room |
| Conversation.WordsThenSilence | backend/conversation_manager.py:46-104 | a spoken turn followed by an empty one adds exactly the user turn, its echo and "Awaiting input.", and logs nothing |
| Conversation.GetOrUnknown | backend/conversation_manager.py:68-69 | a present key gives its value, an absent one "Unknown" |
| Conversation.VisualContext | backend/conversation_manager.py:70 | the context starts with "[Visual Info: Found ", holds the injury right after it, then ", Severity: " and the severity, and ends with "]" (a missing key reads "Unknown") |
| Conversation.VisionLogRecord | backend/conversation_manager.py:74-78 | the log record has heart rate "--", the injury, and "Visual Analysis: " followed by the severity |
| Conversation.UserTurns | backend/conversation_manager.py:56-60 | at most one user turn: the words if any, else the image marker if an image was given, else none |
| Conversation.CombinedInput | backend/conversation_manager.py:81-83 | the combined input starts with the words; it is empty exactly when there are neither words nor image; with an image it is the words, a space and the visual context |
| Conversation.EchoReply | backend/conversation_manager.py:85-104 | empty input gets "Awaiting input."; otherwise the reply is "I heard you say: " followed by the input |
| Conversation.EchoReplyInjective | backend/conversation_manager.py:104 | different non-empty inputs get different echoes |
| Conversation.VisionFallback | backend/vision_processor.py:76-80 | the fallback result has no `injury` key (it names the injury `injury_type`) and its severity is "Unknown" |
| Conversation.FallbackInjuryIsUnknown | backend/vision_processor.py:76-80 | the fallback has no `injury` key, so a failed analysis shows and logs injury "Unknown" with severity "Unknown" |
| Conversation.FallbackFieldsUnknown | backend/vision_processor.py:76-80 | both keys read from the fallback give "Unknown" |
| Conversation.FallbackVisualContext | backend/vision_processor.py:76-80 | the fallback's visual context is "[Visual Info: Found Unknown, Severity: Unknown]" |
| Conversation.FallbackLogRecord | backend/vision_processor.py:76-80 | the fallback's log record is ("--", "Unknown", "Visual Analysis: Unknown") |
| Chunking.ChunkCount | rag_preparation/data_pipeline.py:68 | `len(range(0, n, 14500))`; `ChunkCountBounds` proves its bounds |
| Chunking.ChunkCountBounds | rag_preparation/data_pipeline.py:68 | there are chunks exactly when there is text, and the last chunk starts before the end of the text |
| Chunking.ChunkEnd | rag_preparation/data_pipeline.py:68 | a chunk never ends beyond the text |
| Chunking.Chunks | rag_preparation/data_pipeline.py:66-68 | there are as many chunks as stride positions, each non-empty and at most 15000 characters |
| Chunking.ChunkIsSlice | rag_preparation/data_pipeline.py:68 | chunk k is the text's slice from 14500·k, clamped at the end |
| Chunking.EveryCharacterCovered | rag_preparation/data_pipeline.py:66-68 | every character of the text appears in chunk j / 14500 at its offset |
| Chunking.FullChunksOverlap | rag_preparation/data_pipeline.py:66-67 | a full chunk's last 500 characters are the next chunk's first 500 |
| Chunking.ReassembleChunks | rag_preparation/data_pipeline.py:66-68 | the first chunk plus every later chunk minus its overlap is exactly the text: nothing is lost or duplicated |
| Chunking.ReassemblePrefix | rag_preparation/data_pipeline.py:68 | the first m chunks reassemble to the text up to the end of chunk m - 1 |
| Chunking.FreshTiles | rag_preparation/data_pipeline.py:67-68 | the new part of chunk k starts exactly where chunk k - 1 ends |
| Chunking.LastChunkReachesEnd | rag_preparation/data_pipeline.py:68 | the last chunk reaches the end of the text |
| Fences.SplitFirst | rag_preparation/data_pipeline.py:119 | `split(sep)[0]` is the whole text when `sep` is absent, else the text before its first occurrence |
| Fences.SplitSecond | rag_preparation/data_pipeline.py:119 | `split(sep)[1]`: the text right after the first `sep`; it occurs there in the input, contains no `sep`, and runs up to the next `sep` or to the end of the input |
| Fences.SplitFirstOfSuffix | rag_preparation/data_pipeline.py:119 | what `split(sep)[0]` keeps of a suffix occurs in the input where the suffix starts, contains no `sep`, and ends at a `sep` or at the end of the input |
| Fences.StripFences | rag_preparation/data_pipeline.py:118-121 | the text handed to `json.loads`: a fenced reply loses at least its opening fence; the lemmas below give its exact value |
| Fences.StripFencesRemovesFences | rag_preparation/data_pipeline.py:118-121 | a reply without fences is used unchanged; a reply with one has none left after cleaning |
| Fences.JsonFenceUnwrapped | rag_preparation/data_pipeline.py:118-119 | for a reply shaped as backtick-free text, "```json", a backtick-free body, "```" and text not starting with a backtick: the body is what is parsed, stripped |
| Fences.JsonFenceContent | rag_preparation/data_pipeline.py:118-119 | for any reply with a "```json" fence: the text after its first "```json" is kept up to the next "```" (to the end when there is none), stripped; when another "```json" starts one or two characters into that "```", the cut is at that "```json" |
| Fences.BareFenceUnwrapped | rag_preparation/data_pipeline.py:120-121 | for a reply shaped as backtick-free text, "```", a backtick-free body, "```" and any text (no "```json" anywhere): the body is what is parsed, stripped |
| Fences.BareFenceContent | rag_preparation/data_pipeline.py:120-121 | for any reply with a fence and no "```json": the text after its first "```" is kept up to the next "```" (to the end when there is none), stripped |
| Fences.UnterminatedJsonFence | rag_preparation/data_pipeline.py:118-119 | for a reply shaped as backtick-free text, "```json" and a backtick-free rest: everything after the fence is parsed, stripped |
| ProtocolMerge.KeyOf | rag_preparation/data_pipeline.py:139 | lists and objects are unhashable keys; a string id is its own key |
| ProtocolMerge.ProbeId | rag_preparation/data_pipeline.py:138-139 | an element is stored exactly when it is an object with a hashable `id`, under that id's key; an object without `id` is skipped; the probe raises exactly for null, booleans, numbers, strings containing "id", lists holding the string "id" and objects whose `id` is unhashable |
| ProtocolMerge.IdKeys | rag_preparation/data_pipeline.py:137-139 | there are at most as many ids as elements |
| ProtocolMerge.IdKeysMembership | rag_preparation/data_pipeline.py:137-139 | a key is stored exactly when some element carries it |
| ProtocolMerge.Dedup | rag_preparation/data_pipeline.py:136-141 | the keys in the order a dictionary holds them; `DedupMembers`, `DedupDistinct` and `DedupOrder` prove it holds each stored key once, in first-insertion order |
| ProtocolMerge.DedupMembers | rag_preparation/data_pipeline.py:136-139 | the dictionary holds exactly the keys stored into it |
| ProtocolMerge.DedupDistinct | rag_preparation/data_pipeline.py:136-139 | the dictionary holds each key once |
| ProtocolMerge.DedupOrder | rag_preparation/data_pipeline.py:136-141 | the dictionary lists its keys in the order of their first insertion |
| ProtocolMerge.LastIndex | rag_preparation/data_pipeline.py:139 | the position found carries the key and no later element does |
| ProtocolMerge.MergedById | rag_preparation/data_pipeline.py:136-141 | the loop raises exactly when some element makes it raise; otherwise one entry per distinct id, no more entries than elements, each entry carrying one of the ids |
| ProtocolMerge.MergeById | rag_preparation/data_pipeline.py:136-141 | the dictionary loop computes exactly the merged list |
| ProtocolMerge.MergedIdsDistinct | rag_preparation/data_pipeline.py:136-141 | every merged protocol has an id, and no two have equal ids |
| ProtocolMerge.MergedLastWins | rag_preparation/data_pipeline.py:137-139 | an id is merged exactly when some protocol carries it, and its entry is the last protocol carrying it |
| ProtocolMerge.MergedFirstOccurrenceOrder | rag_preparation/data_pipeline.py:136-141 | merged protocols appear in the order in which their ids first occur |
| ProtocolMerge.EqualIdsCollide | rag_preparation/data_pipeline.py:139 | two protocols with equal ids (including `true` and `1`) merge into the later one |
| ProtocolMerge.BoolAndNumberKeysEqual | rag_preparation/data_pipeline.py:139 | `true`/`1` and `false`/`0` are the same dictionary key |
| Placeholder.StepTree | rag_preparation/data_pipeline.py:151-172 | the four-step hemorrhage tree, with its prompts as parameters; the lemmas below prove its ids, links, closure and reachability |
| Placeholder.HemorrhageProtocol | rag_preparation/data_pipeline.py:147-173 | the protocol with id "hemorrhage", its name, its five keywords and the tree |
| Placeholder.PlaceholderData | rag_preparation/data_pipeline.py:143-175 | `get_placeholder_data()`: a document holding only the hemorrhage protocol; `PlaceholderIntegrity` proves it closed |
| Placeholder.StepTreeIds | rag_preparation/data_pipeline.py:151-172 | the tree has exactly the steps step_1, step_tourniquet, step_check_time and step_pressure |
| Placeholder.EntryStepLinks | rag_preparation/data_pipeline.py:152-158 | step_1's options "yes" and "no" lead to step_tourniquet and step_pressure, both steps of the tree |
| Placeholder.TourniquetStepLinks | rag_preparation/data_pipeline.py:159-163 | step_tourniquet's `next` is step_check_time, a step of the tree |
| Placeholder.FinalStepsLink | rag_preparation/data_pipeline.py:164-171 | the last two steps name no further step |
| Placeholder.StepTreeClosed | rag_preparation/data_pipeline.py:151-172 | every option and `next` of every step names a step of the same tree |
| Placeholder.StepTreeReachable | rag_preparation/data_pipeline.py:151-172 | the entry step exists, and every other step is linked from some step |
| Placeholder.StepTreeFromEntry | rag_preparation/data_pipeline.py:151-172 | every step is reachable from the entry step `step_1`: it is the entry, or is linked from it, or is linked from a step the entry links to |
| Placeholder.PlaceholderIntegrity | rag_preparation/data_pipeline.py:143-175 | the placeholder is a closed document with the single protocol `hemorrhage`, whose tree has entry step_1 and no unlinked step |
| DataPipeline.ChunkProtocols | rag_preparation/data_pipeline.py:101-129 | a failed model call contributes nothing |
| DataPipeline.ChunkContribution | rag_preparation/data_pipeline.py:116-125 | a reply contributes exactly the `protocols` list of the object its cleaned text parses to, and nothing otherwise |
| DataPipeline.ChunkResults | rag_preparation/data_pipeline.py:101 | there is one contribution per chunk |
| DataPipeline.ProtocolDocument | rag_preparation/data_pipeline.py:141 | the document has the single key `protocols`, holding the given list |
| DataPipeline.ProtocolsFor | rag_preparation/data_pipeline.py:49-141 | no key, or nothing extracted, gives the placeholder; otherwise the merged document, or a raise when the merge raises |
| DataPipeline.ProcessTextIntoProtocols | rag_preparation/data_pipeline.py:49-141 | the chunk loop, fallback and merge compute exactly that result |
| DataPipeline.NoApiKey | rag_preparation/data_pipeline.py:56-57 | `not api_key`: the key is unset or empty; `ProtocolsFor` then gives the placeholder |
| DataPipeline.Flatten | rag_preparation/data_pipeline.py:101-129 | the chunks' contributions one after another, as `all_protocols.extend` accumulates them; see `FlattenMembership` and `FlattenEmpty` |
| DataPipeline.AllExtracted | rag_preparation/data_pipeline.py:68-129 | every protocol extracted from the text, in chunk order; `ExtractedFromSomeChunk` proves each comes from some chunk's reply |
| DataPipeline.FlattenMembership | rag_preparation/data_pipeline.py:125 | a protocol is accumulated exactly when some chunk contributed it |
| DataPipeline.FlattenEmpty | rag_preparation/data_pipeline.py:125-131 | nothing is accumulated exactly when every chunk contributed nothing |
| DataPipeline.ExtractedFromSomeChunk | rag_preparation/data_pipeline.py:101-129 | an extracted protocol is one that the reply to some chunk contributed |
| DataPipeline.FailureGivesPlaceholder | rag_preparation/data_pipeline.py:131-133 | empty text, or a model failing on every chunk, gives the placeholder |
| DataPipeline.IdlessExtractionGivesEmptyDocument | rag_preparation/data_pipeline.py:131-141 | protocols extracted without ids give `{"protocols": []}`, not the placeholder |
| DataPipeline.IdKeysNone | rag_preparation/data_pipeline.py:138 | protocols without ids contribute no keys |
| DataPipeline.ResultIsWellFormed | rag_preparation/data_pipeline.py:131-141 | every result is `{"protocols": [...]}` whose protocols have distinct ids; if every extracted tree is closed, so is every tree of the result |

## Left out

- Network and LiveKit plumbing is not modelled: `get_token`, the body of
  `connect_and_stream`, the `create_task` scheduling of callbacks, `reconnect`, and
  `send_audio` (an empty stub). Deliveries are recorded in order; their asynchronous
  execution and callback failures are not.
- Conversation.ConversationManager.ProcessInput: runs as one atomic step. In the code each
  delivery runs `process_input` as its own task, which suspends while publishing the context,
  so two turns can interleave their history entries (user A, user B, reply A, reply B).
  That interleaving is not modelled.
- The microphone and speaker loops (`_mic_capture_loop`, `_audio_play_loop`) are not
  modelled: they are audio I/O.
- Speech synthesis in `_speak_and_return` is not modelled. It is reached only when the
  bridge has an audio source, which nothing in the code sets. It ends in the no-op
  `send_audio`.
- The vision language model and the JSON parser are function parameters. The vision
  result's values are taken as already rendered strings. How an f-string renders a
  non-string value is not modelled.
- `backend/database_manager.py` is the list of records appended. The TinyDB file and
  the timestamps are not modelled.
- Downloading PDFs, text extraction, the OpenAI client, writing the output file and
  `build_vector_store` are not part of this model.
- Logging is not modelled. Neither are publish failures inside `publish_context`:
  the model's strings hold no lone surrogates, so encoding cannot fail, and
  `publish_data` is taken to succeed.
- ProtocolMerge.KeyOf: NaN ids (never equal to themselves) and the distinction
  between JSON integers and floats are not modelled. Numbers are exact reals.
- DataPipeline.ProtocolDocument: key order inside JSON objects is not modelled,
  because objects are maps. The order of protocols in the list is modelled.
- The protocol decision engine that walks a tree by voice is not present in the code,
  which runs in echo mode, so it is not modelled.
