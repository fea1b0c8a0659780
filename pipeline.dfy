/**
 * How the three handlers fit together on the canvas: the code the model
 * handler stores is code in which the controller and view handlers find the
 * same interface declaration the user wrote.
 */
module Pipeline {
  import opened Wrappers
  import opened Types
  import opened FlowStore
  import opened InterfacePattern
  import opened Generation
  import ModelNode
  import ControllerNode
  import ViewNode

  /** The model handler's generation succeeds for this interface text. */
  predicate ModelGenerated(interfaceCode: string, generate: Prompt -> Result<string>) {
    OutcomeOf(ModelNode.Decide(interfaceCode), generate).Generated?
  }

  /** The code the model handler leaves on its node after a successful generation. */
  function ModelCodeAfter(interfaceCode: string, generate: Prompt -> Result<string>): string
    requires ModelGenerated(interfaceCode, generate)
  {
    ModelNode.StoredCode(interfaceCode, OutcomeOf(ModelNode.Decide(interfaceCode), generate).code)
  }

  /** After the model handler, the node `getConnectedNode` finds is the same node, now holding the stored code. */
  lemma ConnectedModelAfterGeneration(ns: seq<Node>, es: seq<Edge>, nodeId: string, modelId: string,
                                      interfaceCode: string, generate: Prompt -> Result<string>)
    requires ModelGenerated(interfaceCode, generate)
    requires ConnectedNode(ns, es, nodeId, ModelKind).Some? && ConnectedNode(ns, es, nodeId, ModelKind).value.id == modelId
    ensures var after := ModelNode.After(ns, modelId, modelId, interfaceCode, generate);
      && ConnectedNode(after, es, nodeId, ModelKind).Some?
      && ConnectedNode(after, es, nodeId, ModelKind).value.id == modelId
      && ConnectedNode(after, es, nodeId, ModelKind).value.data.component.code == ModelCodeAfter(interfaceCode, generate)
  {
    var d := ModelNode.Decide(interfaceCode);
    var code := ModelCodeAfter(interfaceCode, generate);
    var coded := PatchNodes(ns, modelId, CodePatch(code));
    ConnectedNodeAfterPatch(ns, es, modelId, CodePatch(code), nodeId, ModelKind);
    if d.name.Some? {
      ConnectedNodeAfterPatch(coded, es, modelId, NamePatch(d.name.value), nodeId, ModelKind);
    }
  }

  /**
   * A controller fed by a model whose interface text declares an interface
   * with a non-empty body: once the model handler has succeeded, the
   * controller handler asks with the stored code and that declaration, and
   * names the controller after it.
   */
  lemma ControllerSeesModelInterface(ns: seq<Node>, es: seq<Edge>, controllerId: string, modelId: string,
                                     interfaceCode: string, generate: Prompt -> Result<string>)
    requires ModelGenerated(interfaceCode, generate)
    requires StrictMatch(interfaceCode).Some?
    requires ControllerNode.ModelOf(ns, es, controllerId).Some? && ControllerNode.ModelOf(ns, es, controllerId).value.id == modelId
    ensures var after := ModelNode.After(ns, modelId, modelId, interfaceCode, generate);
      var m := StrictMatch(interfaceCode).value;
      ControllerNode.Decide(after, es, controllerId)
        == Ask(ControllerPrompt(ModelCodeAfter(interfaceCode, generate), m.text), Some(m.ident + ControllerNode.Suffix))
  {
    var code := ModelCodeAfter(interfaceCode, generate);
    ConnectedModelAfterGeneration(ns, es, controllerId, modelId, interfaceCode, generate);
    ModelNode.StoredCodeKeepsDeclaration(interfaceCode, OutcomeOf(ModelNode.Decide(interfaceCode), generate).code);
  }

  /** After the model handler, a node whose id differs from the model's is found unchanged. */
  lemma ConnectedOtherAfterGeneration(ns: seq<Node>, es: seq<Edge>, nodeId: string, sourceType: string, modelId: string,
                                      interfaceCode: string, generate: Prompt -> Result<string>)
    requires ModelGenerated(interfaceCode, generate)
    requires ConnectedNode(ns, es, nodeId, sourceType).Some? && ConnectedNode(ns, es, nodeId, sourceType).value.id != modelId
    ensures ConnectedNode(ModelNode.After(ns, modelId, modelId, interfaceCode, generate), es, nodeId, sourceType)
         == ConnectedNode(ns, es, nodeId, sourceType)
  {
    var d := ModelNode.Decide(interfaceCode);
    var code := ModelCodeAfter(interfaceCode, generate);
    var coded := PatchNodes(ns, modelId, CodePatch(code));
    ConnectedNodeAfterPatch(ns, es, modelId, CodePatch(code), nodeId, sourceType);
    if d.name.Some? {
      ConnectedNodeAfterPatch(coded, es, modelId, NamePatch(d.name.value), nodeId, sourceType);
    }
  }

  /**
   * A view fed by a controller fed by such a model: once the model handler
   * has succeeded, the view handler asks with the controller's code and the
   * declaration from the model's stored code, and names the view after it.
   */
  lemma ViewSeesModelInterface(ns: seq<Node>, es: seq<Edge>, viewId: string, modelId: string,
                               interfaceCode: string, generate: Prompt -> Result<string>)
    requires ModelGenerated(interfaceCode, generate)
    requires StrictMatch(interfaceCode).Some?
    requires ViewNode.ControllerOf(ns, es, viewId).Some? && ViewNode.ControllerOf(ns, es, viewId).value.id != modelId
    requires ViewNode.ModelOf(ns, es, viewId).Some? && ViewNode.ModelOf(ns, es, viewId).value.id == modelId
    ensures var after := ModelNode.After(ns, modelId, modelId, interfaceCode, generate);
      var m := StrictMatch(interfaceCode).value;
      var controllerCode := ViewNode.ControllerOf(ns, es, viewId).value.data.component.code;
      ViewNode.Decide(after, es, viewId)
        == Ask(ViewPrompt(controllerCode, m.text), Some(m.ident + ViewNode.Suffix))
  {
    var controller := ViewNode.ControllerOf(ns, es, viewId).value;
    ConnectedOtherAfterGeneration(ns, es, viewId, ControllerKind, modelId, interfaceCode, generate);
    ConnectedModelAfterGeneration(ns, es, controller.id, modelId, interfaceCode, generate);
    ModelNode.StoredCodeKeepsDeclaration(interfaceCode, OutcomeOf(ModelNode.Decide(interfaceCode), generate).code);
  }
}
