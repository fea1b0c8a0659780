/**
 * `generateControllerCode` of src/components/nodes/ControllerNode.tsx: find
 * the model feeding this controller, find the first interface declaration
 * with a non-empty body in the model's code, rename the controller after it,
 * then ask the generator and store its answer as the controller's code.
 */
module ControllerNode {
  import opened Wrappers
  import opened Types
  import opened FlowStore
  import opened InterfacePattern
  import opened Generation

  const Suffix: string := "Controller"

  /** The model node `getConnectedNode(id, 'model')` returns. */
  function ModelOf(ns: seq<Node>, es: seq<Edge>, id: string): Option<Node> {
    ConnectedNode(ns, es, id, ModelKind)
  }

  /**
   * The guard chain before the `await`. It stops exactly when no model feeds
   * the controller, or when the model's code holds no declaration the strict
   * pattern accepts; otherwise the prompt carries the model's whole code and
   * the leftmost such declaration, and the new name is its identifier
   * followed by `Controller`.
   */
  function Decide(ns: seq<Node>, es: seq<Edge>, id: string): (r: Decision)
    ensures r.Ask? || r == Stop(ConnectModelFirst) || r == Stop(NoInterfaceFound)
    ensures r == Stop(ConnectModelFirst) <==> forall k :: 0 <= k < |es| ==> !Feeds(ns, es[k], id, ModelKind)
    ensures r == Stop(NoInterfaceFound) <==>
      ModelOf(ns, es, id).Some? && forall q: nat :: !StrictOccursAt(ModelOf(ns, es, id).value.data.component.code, q)
    ensures r.Ask? ==> ModelOf(ns, es, id).Some?
    ensures r.Ask? ==>
      var code := ModelOf(ns, es, id).value.data.component.code;
      && r.prompt == ControllerPrompt(code, r.prompt.interfaceCode)
      && exists ident :: LeftmostStrictDeclaration(code, r.prompt.interfaceCode, ident) && r.name == Some(ident + Suffix)
  {
    match ModelOf(ns, es, id)
    case None => Stop(ConnectModelFirst)
    case Some(model) =>
      var code := model.data.component.code;
      StrictMatchIsLeftmostDeclaration(code);
      match StrictMatch(code)
      case None => Stop(NoInterfaceFound)
      case Some(m) =>
        StrictMatchIsLeftmost(code);
        Ask(ControllerPrompt(code, m.text), Some(m.ident + Suffix))
  }

  /**
   * The nodes after the handler, when the controller's closure writes to
   * `target`. A stop changes nothing. Otherwise the rename happens before
   * the generator is asked, so it stays when the generator fails; the code
   * changes only when it answers, and then to exactly the answer.
   */
  function After(ns: seq<Node>, es: seq<Edge>, id: string, target: string, generate: Prompt -> Result<string>): (r: seq<Node>)
    ensures Decide(ns, es, id).Stop? ==> r == ns
    ensures SameShape(ns, r)
    ensures forall i :: 0 <= i < |ns| ==>
      r[i].data.component.name ==
        if Decide(ns, es, id).Ask? && ns[i].id == id then Decide(ns, es, id).name.value
        else ns[i].data.component.name
    ensures forall i :: 0 <= i < |ns| ==>
      r[i].data.component.code ==
        if OutcomeOf(Decide(ns, es, id), generate).Generated? && ns[i].id == target
        then OutcomeOf(Decide(ns, es, id), generate).code
        else ns[i].data.component.code
  {
    match Decide(ns, es, id)
    case Stop(_) => ns
    case Ask(prompt, name) => RenameThenWrite(ns, id, name.value, target, generate(prompt))
  }

  /** `generateControllerCode()` for the controller node `id` whose props are `data`. */
  method GenerateControllerCode(store: Store, id: string, data: NodeData, generate: Prompt -> Result<string>)
    returns (outcome: Outcome)
    modifies store`nodes
    ensures outcome == OutcomeOf(Decide(old(store.nodes), store.edges, id), generate)
    ensures store.nodes == After(old(store.nodes), store.edges, id, data.codeChangeTarget, generate)
    ensures old(store.Valid()) ==> store.Valid()
  {
    var modelNode := store.GetConnectedNode(id, ModelKind);
    if modelNode.None? {
      return Blocked(ConnectModelFirst);
    }
    var modelCode := modelNode.value.data.component.code;
    var interfaceMatch := StrictMatch(modelCode);
    if interfaceMatch.None? {
      return Blocked(NoInterfaceFound);
    }
    ghost var es := store.edges;
    store.UpdateComponent(id, NamePatch(interfaceMatch.value.ident + Suffix));
    assert store.edges == es;
    var prompt := ControllerPrompt(modelCode, interfaceMatch.value.text);
    var generatedCode := generate(prompt);
    if generatedCode.Err? {
      return Failed(prompt);
    }
    store.OnCodeChange(data, generatedCode.value);
    assert store.edges == es;
    outcome := Generated(prompt, generatedCode.value);
  }
}
