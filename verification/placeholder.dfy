/**
 * `get_placeholder_data` (rag_preparation/data_pipeline.py): the protocol
 * document used when no model key is configured or no protocol could be
 * extracted, and the structural rules a protocol document should obey: every
 * step a protocol's tree names, through an option or a `next`, is a step of
 * that tree.
 */
module Placeholder {
  import opened Json

  const HemorrhageId: string := "hemorrhage"
  const EntryStep: string := "step_1"

  /** The spoken prompt of each step of the hemorrhage tree. */
  datatype Prompts = Prompts(spurting: string, tourniquet: string, checkTime: string, pressure: string)

  const HemorrhagePrompts: Prompts := Prompts(
    "Is blood spurting from the wound?",
    "Place tourniquet 2 to 3 inches above the wound. Tighten until bleeding stops.",
    "Note the application time on the tourniquet.",
    "Apply direct, steady pressure to the bleeding site.")

  /** The entry step asks whether blood is spurting and branches on the answer. */
  function EntryNode(voice: string): Json {
    JObject(map[
      "voice" := JString(voice),
      "options" := JObject(map["yes" := JString("step_tourniquet"), "no" := JString("step_pressure")])])
  }

  function TourniquetNode(voice: string): Json {
    JObject(map["voice" := JString(voice), "visual_mode" := JBool(true), "next" := JString("step_check_time")])
  }

  function CheckTimeNode(voice: string): Json {
    JObject(map["voice" := JString(voice), "visual_mode" := JBool(false)])
  }

  function PressureNode(voice: string): Json {
    JObject(map["voice" := JString(voice), "visual_mode" := JBool(true)])
  }

  /** The shape of the hemorrhage decision tree, whatever its prompts say. */
  function StepTree(p: Prompts): map<string, Json> {
    map[
      "step_1" := EntryNode(p.spurting),
      "step_tourniquet" := TourniquetNode(p.tourniquet),
      "step_check_time" := CheckTimeNode(p.checkTime),
      "step_pressure" := PressureNode(p.pressure)
    ]
  }

  /** The decision tree of the placeholder hemorrhage protocol. */
  function HemorrhageTree(): map<string, Json> {
    StepTree(HemorrhagePrompts)
  }

  /** The placeholder hemorrhage protocol. */
  function HemorrhageProtocol(): Json {
    JObject(map[
      "id" := JString(HemorrhageId),
      "name" := JString("Hemorrhage Control"),
      "keywords" := JArray([JString("bleeding"), JString("blood"), JString("leg"), JString("hemorrhage"), JString("arterial")]),
      "tree" := JObject(HemorrhageTree())])
  }

  /** The document `get_placeholder_data` returns. */
  function PlaceholderData(): Json {
    JObject(map["protocols" := JArray([HemorrhageProtocol()])])
  }

  /** A step's `options` values and its `next`, when present, are step ids of the tree. */
  predicate StepLinksInto(step: Json, steps: set<string>) {
    && step.JObject?
    && ("options" in step.fields ==>
          && step.fields["options"].JObject?
          && forall reply :: reply in step.fields["options"].fields ==>
               step.fields["options"].fields[reply].JString? && step.fields["options"].fields[reply].s in steps)
    && ("next" in step.fields ==> step.fields["next"].JString? && step.fields["next"].s in steps)
  }

  /** Every step of the tree links only to steps of the same tree. */
  predicate TreeClosed(tree: map<string, Json>) {
    forall id :: id in tree ==> StepLinksInto(tree[id], tree.Keys)
  }

  /** A protocol object whose `tree` is a closed decision tree. */
  predicate ProtocolClosed(p: Json) {
    p.JObject? && "tree" in p.fields && p.fields["tree"].JObject? && TreeClosed(p.fields["tree"].fields)
  }

  /** A document `{"protocols": [...]}` whose every protocol is closed. */
  predicate DocumentClosed(doc: Json) {
    && doc.JObject? && "protocols" in doc.fields && doc.fields["protocols"].JArray?
    && forall i :: 0 <= i < |doc.fields["protocols"].items| ==> ProtocolClosed(doc.fields["protocols"].items[i])
  }

  /** Step `to` is named by an option or the `next` of step `from`. */
  predicate LinksTo(tree: map<string, Json>, from: string, to: string) {
    && from in tree && tree[from].JObject?
    && (|| ("next" in tree[from].fields && tree[from].fields["next"] == JString(to))
        || ("options" in tree[from].fields && tree[from].fields["options"].JObject?
            && exists reply :: reply in tree[from].fields["options"].fields
                 && tree[from].fields["options"].fields[reply] == JString(to)))
  }

  /** The step ids of the placeholder tree. */
  const HemorrhageSteps: set<string> := {"step_1", "step_tourniquet", "step_check_time", "step_pressure"}

  lemma StepTreeIds(p: Prompts)
    ensures StepTree(p).Keys == HemorrhageSteps
    ensures StepTree(p)["step_1"] == EntryNode(p.spurting)
    ensures StepTree(p)["step_tourniquet"] == TourniquetNode(p.tourniquet)
    ensures StepTree(p)["step_check_time"] == CheckTimeNode(p.checkTime)
    ensures StepTree(p)["step_pressure"] == PressureNode(p.pressure)
  {
  }

  /** The entry step's two options lead to the tourniquet and the pressure steps. */
  lemma {:induction false} EntryStepLinks(voice: string)
    ensures StepLinksInto(EntryNode(voice), HemorrhageSteps)
    ensures EntryNode(voice).fields["options"].fields["yes"] == JString("step_tourniquet")
    ensures EntryNode(voice).fields["options"].fields["no"] == JString("step_pressure")
  {
    var opts := EntryNode(voice).fields["options"].fields;
    assert opts.Keys == {"yes", "no"};
  }

  /** The tourniquet step leads on to the time check. */
  lemma {:induction false} TourniquetStepLinks(voice: string)
    ensures StepLinksInto(TourniquetNode(voice), HemorrhageSteps)
    ensures TourniquetNode(voice).fields["next"] == JString("step_check_time")
  {
    assert TourniquetNode(voice).fields.Keys == {"voice", "visual_mode", "next"};
  }

  /** The two final steps name no further step. */
  lemma {:induction false} FinalStepsLink(p: Prompts)
    ensures StepLinksInto(CheckTimeNode(p.checkTime), HemorrhageSteps)
    ensures StepLinksInto(PressureNode(p.pressure), HemorrhageSteps)
  {
    assert CheckTimeNode(p.checkTime).fields.Keys == {"voice", "visual_mode"};
    assert PressureNode(p.pressure).fields.Keys == {"voice", "visual_mode"};
  }

  /** The tree links only to its own steps. */
  lemma {:induction false} StepTreeClosed(p: Prompts)
    ensures TreeClosed(StepTree(p))
  {
    StepTreeIds(p);
    EntryStepLinks(p.spurting);
    TourniquetStepLinks(p.tourniquet);
    FinalStepsLink(p);
  }

  /** Every step other than the entry is linked from some step. */
  lemma {:induction false} StepTreeReachable(p: Prompts)
    ensures EntryStep in StepTree(p)
    ensures forall id :: id in StepTree(p) && id != EntryStep ==>
              exists from :: from in StepTree(p) && LinksTo(StepTree(p), from, id)
  {
    var tree := StepTree(p);
    StepTreeIds(p);
    EntryStepLinks(p.spurting);
    TourniquetStepLinks(p.tourniquet);
    assert LinksTo(tree, "step_1", "step_tourniquet");
    assert LinksTo(tree, "step_1", "step_pressure");
    assert LinksTo(tree, "step_tourniquet", "step_check_time");
  }

  /** Every step is the entry, or is reached from the entry by one link or by two. */
  lemma {:induction false} StepTreeFromEntry(p: Prompts)
    ensures forall id :: id in StepTree(p) ==>
              || id == EntryStep
              || LinksTo(StepTree(p), EntryStep, id)
              || exists mid :: LinksTo(StepTree(p), EntryStep, mid) && LinksTo(StepTree(p), mid, id)
  {
    var tree := StepTree(p);
    StepTreeIds(p);
    EntryStepLinks(p.spurting);
    TourniquetStepLinks(p.tourniquet);
    assert LinksTo(tree, "step_1", "step_tourniquet");
    assert LinksTo(tree, "step_1", "step_pressure");
    assert LinksTo(tree, "step_tourniquet", "step_check_time");
  }

  /**
   * The placeholder is a well-formed protocol document: one protocol, `hemorrhage`, whose
   * tree has the entry step `step_1`, links only to its own steps, and leaves no step
   * unreachable: every other step is linked from some step.
   */
  lemma {:induction false} PlaceholderIntegrity()
    ensures DocumentClosed(PlaceholderData())
    ensures PlaceholderData().fields["protocols"].items == [HemorrhageProtocol()]
    ensures HemorrhageProtocol().fields["id"] == JString(HemorrhageId)
    ensures EntryStep in HemorrhageTree()
    ensures forall id :: id in HemorrhageTree() && id != EntryStep ==>
              exists from :: from in HemorrhageTree() && LinksTo(HemorrhageTree(), from, id)
  {
    StepTreeClosed(HemorrhagePrompts);
    StepTreeReachable(HemorrhagePrompts);
    assert ProtocolClosed(HemorrhageProtocol());
  }
}
