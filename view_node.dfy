/**
 * `generateViewCode` of src/components/nodes/ViewNode.tsx: find the
 * controller feeding this view, then the model feeding that controller; take
 * the first interface declaration with a non-empty body from the model's
 * code, rename the view after it, then ask the generator with the
 * controller's code and store the answer as the view's code.
 */
module ViewNode {
  import opened Wrappers
  import opened Types
  import opened FlowStore
  import opened InterfacePattern
  import opened Generation

  const Suffix: string := "View"

  /** The controller node `getConnectedNode(id, 'controller')` returns. */
  function ControllerOf(ns: seq<Node>, es: seq<Edge>, id: string): Option<Node> {
    ConnectedNode(ns, es, id, ControllerKind)
  }

  /** The model two hops up: `getConnectedNode(controllerNode.id, 'model')`. */
  function ModelOf(ns: seq<Node>, es: seq<Edge>, id: string): Option<Node> {
    match ControllerOf(ns, es, id)
    case None => None
    case Some(controller) => ConnectedNode(ns, es, controller.id, ModelKind)
  }

  /**
   * The guard chain before the `await`. It stops exactly when no controller
   * feeds the view, when no model feeds that controller, or when the model's
   * code holds no declaration the strict pattern accepts. Otherwise the
   * prompt carries the controller's whole code and the leftmost declaration
   * of the model's code (neither the view's nor the controller's own code
   * is searched), and the new name is its identifier followed by `View`.
   */
  function Decide(ns: seq<Node>, es: seq<Edge>, id: string): (r: Decision)
    ensures r.Ask? || r == Stop(ConnectControllerFirst) || r == Stop(ControllerNeedsModel) || r == Stop(NoInterfaceFound)
    ensures r == Stop(ConnectControllerFirst) <==> forall k :: 0 <= k < |es| ==> !Feeds(ns, es[k], id, ControllerKind)
    ensures r == Stop(ControllerNeedsModel) <==>
      && ControllerOf(ns, es, id).Some?
      && forall k :: 0 <= k < |es| ==> !Feeds(ns, es[k], ControllerOf(ns, es, id).value.id, ModelKind)
    ensures r == Stop(NoInterfaceFound) <==>
      ModelOf(ns, es, id).Some? && forall q: nat :: !StrictOccursAt(ModelOf(ns, es, id).value.data.component.code, q)
    ensures r.Ask? ==> ControllerOf(ns, es, id).Some? && ModelOf(ns, es, id).Some?
    ensures r.Ask? ==>
      var code := ModelOf(ns, es, id).value.data.component.code;
      && r.prompt == ViewPrompt(ControllerOf(ns, es, id).value.data.component.code, r.prompt.interfaceCode)
      && exists ident :: LeftmostStrictDeclaration(code, r.prompt.interfaceCode, ident) && r.name == Some(ident + Suffix)
  {
    match ControllerOf(ns, es, id)
    case None => Stop(ConnectControllerFirst)
    case Some(controller) =>
      match ConnectedNode(ns, es, controller.id, ModelKind)
      case None => Stop(ControllerNeedsModel)
      case Some(model) =>
        var code := model.data.component.code;
        StrictMatchIsLeftmostDeclaration(code);
        match StrictMatch(code)
        case None => Stop(NoInterfaceFound)
        case Some(m) =>
          StrictMatchIsLeftmost(code);
          Ask(ViewPrompt(controller.data.component.code, m.text), Some(m.ident + Suffix))
  }

  /**
   * The nodes after the handler, when the view's closure writes to
   * `target`. A stop changes nothing. Otherwise the rename happens before
   * the generator is asked, so it stays when the generator fails; the code
   * changes only when it answers, and then to exactly the answer.
   */
  function After(ns: seq<Node>, es: seq<Edge>, id: string, target: string, generate: Prompt -> Result<string>): (r: seq<Node>)
    ensures Decide(ns, es, id).Stop? ==> r == ns
    ensures SameShape(ns, r)
    ensures forall i :: 0 <= i < |ns| ==>
      r[i].data.component.name ==
        if Decide(ns, es, id).Ask? && ns[i].id == id then Decide(ns, es, id).name.value
        else ns[i].data.component.name
    ensures forall i :: 0 <= i < |ns| ==>
      r[i].data.component.code ==
        if OutcomeOf(Decide(ns, es, id), generate).Generated? && ns[i].id == target
        then OutcomeOf(Decide(ns, es, id), generate).code
        else ns[i].data.component.code
  {
    match Decide(ns, es, id)
    case Stop(_) => ns
    case Ask(prompt, name) => RenameThenWrite(ns, id, name.value, target, generate(prompt))
  }

  /** `generateViewCode()` for the view node `id` whose props are `data`. */
  method GenerateViewCode(store: Store, id: string, data: NodeData, generate: Prompt -> Result<string>)
    returns (outcome: Outcome)
    modifies store`nodes
    ensures outcome == OutcomeOf(Decide(old(store.nodes), store.edges, id), generate)
    ensures store.nodes == After(old(store.nodes), store.edges, id, data.codeChangeTarget, generate)
    ensures old(store.Valid()) ==> store.Valid()
  {
    var controllerNode := store.GetConnectedNode(id, ControllerKind);
    if controllerNode.None? {
      return Blocked(ConnectControllerFirst);
    }
    var modelNode := store.GetConnectedNode(controllerNode.value.id, ModelKind);
    if modelNode.None? {
      return Blocked(ControllerNeedsModel);
    }
    var interfaceMatch := StrictMatch(modelNode.value.data.component.code);
    if interfaceMatch.None? {
      return Blocked(NoInterfaceFound);
    }
    var prompt := ViewPrompt(controllerNode.value.data.component.code, interfaceMatch.value.text);
    ghost var es := store.edges;
    store.UpdateComponent(id, NamePatch(interfaceMatch.value.ident + Suffix));
    assert store.edges == es;
    var generatedCode := generate(prompt);
    if generatedCode.Err? {
      return Failed(prompt);
    }
    store.OnCodeChange(data, generatedCode.value);
    assert store.edges == es;
    outcome := Generated(prompt, generatedCode.value);
  }
}
