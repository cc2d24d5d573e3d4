/**
 * `process_text_into_protocols` (rag_preparation/data_pipeline.py): the
 * document text is cut into overlapping chunks, each chunk is sent to the
 * language model, every reply that parses to `{"protocols": [...]}` adds its
 * protocols to one list, and the list is de-duplicated by protocol id. Without
 * an API key, or when nothing was extracted, the placeholder document is
 * returned instead. The language model is a function of the chunk's position
 * and text (None when the call fails or the reply has no content); the JSON
 * parser is a function from text to a JSON value (None when it rejects it).
 */
module DataPipeline {
  import opened Wrappers
  import opened Json
  import opened Chunking
  import opened Fences
  import opened ProtocolMerge
  import opened Placeholder

  /**
   * The protocols one model reply adds to `all_protocols`: the `protocols` list of the
   * reply's JSON object; nothing when the call failed, the cleaned reply does not
   * parse, or it is not an object with a `protocols` list (all of which the source
   * catches and logs).
   */
  function ChunkProtocols(reply: Option<string>, parse: string -> Option<Json>): (ps: seq<Json>)
    ensures reply.None? ==> ps == []
  {
    match reply
    case None => []
    case Some(content) =>
      match parse(StripFences(content))
      case Some(JObject(f)) =>
        if "protocols" in f && f["protocols"].JArray? then f["protocols"].items else []
      case _ => []
  }

  /** A reply contributes exactly the `protocols` list of the JSON object its cleaned text parses to. */
  lemma ChunkContribution(content: string, parse: string -> Option<Json>)
    ensures var data := parse(StripFences(content));
      if data.Some? && data.value.JObject? && "protocols" in data.value.fields && data.value.fields["protocols"].JArray?
      then ChunkProtocols(Some(content), parse) == data.value.fields["protocols"].items
      else ChunkProtocols(Some(content), parse) == []
  {
  }

  /** What each chunk's reply contributes, chunk by chunk. */
  function ChunkResults(chunks: seq<string>, llm: (nat, string) -> Option<string>, parse: string -> Option<Json>): (rs: seq<seq<Json>>)
    ensures |rs| == |chunks|
  {
    seq(|chunks|, i requires 0 <= i < |chunks| => ChunkProtocols(llm(i, chunks[i]), parse))
  }

  /** The contributions one after another, as `all_protocols.extend` accumulates them. */
  function Flatten(parts: seq<seq<Json>>): seq<Json>
    decreases |parts|
  {
    if parts == [] then [] else Flatten(parts[..|parts| - 1]) + parts[|parts| - 1]
  }

  /** Every protocol extracted from the whole text, in chunk order. */
  function AllExtracted(rawText: string, llm: (nat, string) -> Option<string>, parse: string -> Option<Json>): seq<Json> {
    Flatten(ChunkResults(Chunks(rawText), llm, parse))
  }

  /** `{"protocols": ps}`. */
  function ProtocolDocument(ps: seq<Json>): (doc: Json)
    ensures doc.JObject? && doc.fields.Keys == {"protocols"} && doc.fields["protocols"] == JArray(ps)
  {
    JObject(map["protocols" := JArray(ps)])
  }

  /** `not api_key`: the key is unset or empty. */
  predicate NoApiKey(apiKey: Option<string>) {
    apiKey.None? || apiKey.value == ""
  }

  /**
   * What `process_text_into_protocols` returns; None when the de-duplication loop raises
   * (it runs outside any `try`).
   */
  function ProtocolsFor(apiKey: Option<string>, rawText: string, llm: (nat, string) -> Option<string>, parse: string -> Option<Json>): (r: Option<Json>)
    ensures NoApiKey(apiKey) ==> r == Some(PlaceholderData())
    ensures !NoApiKey(apiKey) && AllExtracted(rawText, llm, parse) == [] ==> r == Some(PlaceholderData())
    ensures !NoApiKey(apiKey) && AllExtracted(rawText, llm, parse) != [] ==>
              r == if MergedById(AllExtracted(rawText, llm, parse)).Some?
                   then Some(ProtocolDocument(MergedById(AllExtracted(rawText, llm, parse)).value)) else None
  {
    if NoApiKey(apiKey) then Some(PlaceholderData())
    else
      var all := AllExtracted(rawText, llm, parse);
      if all == [] then Some(PlaceholderData())
      else
        match MergedById(all)
        case None => None
        case Some(qs) => Some(ProtocolDocument(qs))
  }

  /** The pipeline itself: a loop over the chunks, then the fallback and the merge. */
  method ProcessTextIntoProtocols(apiKey: Option<string>, rawText: string, llm: (nat, string) -> Option<string>, parse: string -> Option<Json>)
    returns (doc: Option<Json>)
    ensures doc == ProtocolsFor(apiKey, rawText, llm, parse)
  {
    if NoApiKey(apiKey) {
      return Some(PlaceholderData());
    }
    var chunks := Chunks(rawText);
    ghost var results := ChunkResults(chunks, llm, parse);
    var all: seq<Json> := [];
    for i := 0 to |chunks|
      invariant all == Flatten(results[..i])
    {
      FlattenStep(results, i);
      var reply := llm(i, chunks[i]);
      if reply.Some? {
        ChunkContribution(reply.value, parse);
        var data := parse(StripFences(reply.value));
        if data.Some? && data.value.JObject? && "protocols" in data.value.fields && data.value.fields["protocols"].JArray? {
          all := all + data.value.fields["protocols"].items;
        }
      }
    }
    assert results[..|chunks|] == results;
    if all == [] {
      return Some(PlaceholderData());
    }
    var merged := MergeById(all);
    if merged.None? {
      return None;
    }
    doc := Some(ProtocolDocument(merged.value));
  }

  lemma {:induction false} FlattenStep(parts: seq<seq<Json>>, i: nat)
    requires i < |parts|
    ensures Flatten(parts[..i + 1]) == Flatten(parts[..i]) + parts[i]
  {
    assert parts[..i + 1][..i] == parts[..i];
  }

  /** A protocol is extracted exactly when one of the contributions holds it. */
  lemma {:induction false} FlattenMembership(parts: seq<seq<Json>>, p: Json)
    ensures p in Flatten(parts) <==> exists i :: 0 <= i < |parts| && p in parts[i]
    decreases |parts|
  {
    if parts != [] {
      var init := parts[..|parts| - 1];
      FlattenMembership(init, p);
      assert forall i :: 0 <= i < |init| ==> init[i] == parts[i];
      if p in parts[|parts| - 1] {
        assert p in Flatten(parts);
      }
    }
  }

  /** Nothing is extracted exactly when no contribution holds anything. */
  lemma {:induction false} FlattenEmpty(parts: seq<seq<Json>>)
    ensures Flatten(parts) == [] <==> forall i :: 0 <= i < |parts| ==> parts[i] == []
    decreases |parts|
  {
    if parts != [] {
      var init := parts[..|parts| - 1];
      FlattenEmpty(init);
      assert forall i :: 0 <= i < |init| ==> init[i] == parts[i];
    }
  }

  /** An extracted protocol is one that the reply to some chunk contributed. */
  lemma {:induction false} ExtractedFromSomeChunk(rawText: string, llm: (nat, string) -> Option<string>, parse: string -> Option<Json>, p: Json)
    ensures p in AllExtracted(rawText, llm, parse) <==>
              exists i :: 0 <= i < |Chunks(rawText)| && p in ChunkProtocols(llm(i, Chunks(rawText)[i]), parse)
  {
    var rs := ChunkResults(Chunks(rawText), llm, parse);
    FlattenMembership(rs, p);
    assert forall i :: 0 <= i < |rs| ==> rs[i] == ChunkProtocols(llm(i, Chunks(rawText)[i]), parse);
  }

  /** An empty document, or a model that fails on every chunk, yields the placeholder. */
  lemma {:induction false} FailureGivesPlaceholder(apiKey: Option<string>, rawText: string, llm: (nat, string) -> Option<string>, parse: string -> Option<Json>)
    requires rawText == [] || forall i, c :: llm(i, c).None?
    ensures ProtocolsFor(apiKey, rawText, llm, parse) == Some(PlaceholderData())
  {
    var rs := ChunkResults(Chunks(rawText), llm, parse);
    ChunkCountBounds(|rawText|);
    FlattenEmpty(rs);
    assert forall i :: 0 <= i < |rs| ==> rs[i] == ChunkProtocols(llm(i, Chunks(rawText)[i]), parse);
  }

  /**
   * When something was extracted but no extracted protocol has an id, the result is an
   * empty protocol list rather than the placeholder: the fallback looks at the list
   * before de-duplication.
   */
  lemma {:induction false} IdlessExtractionGivesEmptyDocument(apiKey: Option<string>, rawText: string, llm: (nat, string) -> Option<string>, parse: string -> Option<Json>)
    requires !NoApiKey(apiKey) && AllExtracted(rawText, llm, parse) != []
    requires forall i :: 0 <= i < |AllExtracted(rawText, llm, parse)| ==> ProbeId(AllExtracted(rawText, llm, parse)[i]).NoId?
    ensures ProtocolsFor(apiKey, rawText, llm, parse) == Some(ProtocolDocument([]))
  {
    var all := AllExtracted(rawText, llm, parse);
    IdKeysNone(all);
  }

  lemma {:induction false} IdKeysNone(ps: seq<Json>)
    requires forall i :: 0 <= i < |ps| ==> ProbeId(ps[i]).NoId?
    ensures IdKeys(ps) == []
    decreases |ps|
  {
    if ps != [] {
      IdKeysNone(ps[..|ps| - 1]);
    }
  }

  /**
   * Whatever it returns is a document `{"protocols": [...]}` whose protocols all have ids,
   * no two equal; and if every extracted protocol's tree is closed, so is every tree of
   * the result.
   */
  lemma {:induction false} ResultIsWellFormed(apiKey: Option<string>, rawText: string, llm: (nat, string) -> Option<string>, parse: string -> Option<Json>)
    requires ProtocolsFor(apiKey, rawText, llm, parse).Some?
    ensures var doc := ProtocolsFor(apiKey, rawText, llm, parse).value;
      && doc.JObject? && doc.fields.Keys == {"protocols"} && doc.fields["protocols"].JArray?
      && (forall j :: 0 <= j < |doc.fields["protocols"].items| ==> ProbeId(doc.fields["protocols"].items[j]).HasId?)
      && (forall a, b :: 0 <= a < b < |doc.fields["protocols"].items| ==>
            ProbeId(doc.fields["protocols"].items[a]).key != ProbeId(doc.fields["protocols"].items[b]).key)
    ensures (forall i :: 0 <= i < |AllExtracted(rawText, llm, parse)| ==> ProtocolClosed(AllExtracted(rawText, llm, parse)[i]))
            ==> DocumentClosed(ProtocolsFor(apiKey, rawText, llm, parse).value)
  {
    var all := AllExtracted(rawText, llm, parse);
    var doc := ProtocolsFor(apiKey, rawText, llm, parse).value;
    if doc == PlaceholderData() {
      PlaceholderIntegrity();
      assert ProbeId(HemorrhageProtocol()) == HasId(KStr(HemorrhageId));
    } else {
      var qs := MergedById(all).value;
      assert doc == ProtocolDocument(qs);
      MergedIdsDistinct(all);
      forall j | 0 <= j < |qs| ensures qs[j] in all {
        MergedLastWins(all, ProbeId(qs[j]).key);
      }
    }
  }
}
