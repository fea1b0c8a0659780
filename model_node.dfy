/**
 * `generateAICode` of src/components/nodes/ModelNode.tsx: refuse a blank
 * interface text, ask the generator for a model of it, store the interface
 * text followed by the answer as the model's code, then rename the model
 * after the first identifier the loose pattern finds in the interface text.
 */
module ModelNode {
  import opened Wrappers
  import opened Text
  import opened Types
  import opened FlowStore
  import opened InterfacePattern
  import opened Generation

  const Suffix: string := "Model"

  /** The code stored on success: the interface text, a blank line, the generated text. */
  function StoredCode(interfaceCode: string, generated: string): (r: string)
    ensures |r| == |interfaceCode| + 2 + |generated|
    ensures r[..|interfaceCode|] == interfaceCode && r[|interfaceCode| + 2..] == generated
    ensures r[|interfaceCode|..|interfaceCode| + 2] == "\n\n"
  {
    interfaceCode + "\n\n" + generated
  }

  /**
   * What the handler decides about the interface text it holds. It stops
   * exactly when the text is empty or whitespace only; otherwise it asks
   * with the text, and the name it will give is the identifier of the
   * leftmost loose declaration followed by `Model`, or none when the text
   * has no loose declaration. (The source runs the loose pattern after the
   * `await`; the text does not change in between, so the answer is the same.)
   */
  function Decide(interfaceCode: string): (r: Decision)
    ensures r.Ask? || r == Stop(DefineInterfaceFirst)
    ensures r == Stop(DefineInterfaceFirst) <==> IsBlank(interfaceCode)
    ensures r.Ask? ==> r.prompt == ModelPrompt(interfaceCode)
    ensures r.Ask? ==> (r.name.None? <==> forall q: nat :: !LooseOccursAt(interfaceCode, q))
    ensures r.Ask? && r.name.Some? ==>
      exists ident :: LeftmostLooseIdent(interfaceCode, ident) && r.name == Some(ident + Suffix)
  {
    TrimEmptyIffBlank(interfaceCode);
    LooseMatchIsLeftmostDeclaration(interfaceCode);
    if Trim(interfaceCode) == [] then Stop(DefineInterfaceFirst)
    else
      match LooseMatch(interfaceCode)
      case None => Ask(ModelPrompt(interfaceCode), None)
      case Some(m) =>
        LooseMatchIdentIsLeftmost(interfaceCode);
        Ask(ModelPrompt(interfaceCode), Some(m.ident + Suffix))
  }

  /**
   * The nodes after the handler, when the model's closure writes to
   * `target`. Nothing changes unless the generator answers; then the code of
   * `target` becomes the stored code, and node `id` is renamed only when the
   * loose pattern found a name.
   */
  function After(ns: seq<Node>, id: string, target: string, interfaceCode: string, generate: Prompt -> Result<string>): (r: seq<Node>)
    ensures !OutcomeOf(Decide(interfaceCode), generate).Generated? ==> r == ns
    ensures SameShape(ns, r)
    ensures var d := Decide(interfaceCode); var o := OutcomeOf(d, generate);
      forall i :: 0 <= i < |ns| ==>
        r[i].data.component.code ==
          if o.Generated? && ns[i].id == target then StoredCode(interfaceCode, o.code) else ns[i].data.component.code
    ensures var d := Decide(interfaceCode); var o := OutcomeOf(d, generate);
      forall i :: 0 <= i < |ns| ==>
        r[i].data.component.name ==
          if o.Generated? && d.name.Some? && ns[i].id == id then d.name.value else ns[i].data.component.name
  {
    var d := Decide(interfaceCode);
    match OutcomeOf(d, generate)
    case Generated(_, generated) => WriteThenRename(ns, target, StoredCode(interfaceCode, generated), id, d.name)
    case _ => ns
  }

  /**
   * Storing the generated text after the interface text keeps the
   * declaration the controller and view handlers look for: the strict
   * pattern finds in the stored code what it finds in the interface text.
   */
  lemma StoredCodeKeepsDeclaration(interfaceCode: string, generated: string)
    requires StrictMatch(interfaceCode).Some?
    ensures StrictMatch(StoredCode(interfaceCode, generated)) == StrictMatch(interfaceCode)
  {
    StoredCodeAppends(interfaceCode, generated);
    StrictMatchPrefixStable(interfaceCode, "\n\n" + generated);
  }

  /** The stored code is the interface text with the rest appended after it. */
  lemma StoredCodeAppends(interfaceCode: string, generated: string)
    ensures StoredCode(interfaceCode, generated) == interfaceCode + ("\n\n" + generated)
  {
    assert interfaceCode + "\n\n" + generated == interfaceCode + ("\n\n" + generated);
  }

  /** `generateAICode()` for the model node `id` whose props are `data` and whose editor holds `interfaceCode`. */
  method GenerateAICode(store: Store, id: string, data: NodeData, interfaceCode: string, generate: Prompt -> Result<string>)
    returns (outcome: Outcome)
    modifies store`nodes
    ensures outcome == OutcomeOf(Decide(interfaceCode), generate)
    ensures store.nodes == After(old(store.nodes), id, data.codeChangeTarget, interfaceCode, generate)
    ensures old(store.Valid()) ==> store.Valid()
  {
    if Trim(interfaceCode) == [] {
      return Blocked(DefineInterfaceFirst);
    }
    var prompt := ModelPrompt(interfaceCode);
    var generatedCode := generate(prompt);
    if generatedCode.Err? {
      return Failed(prompt);
    }
    store.OnCodeChange(data, StoredCode(interfaceCode, generatedCode.value));
    var interfaceMatch := LooseMatch(interfaceCode);
    if interfaceMatch.Some? {
      store.UpdateComponent(id, NamePatch(interfaceMatch.value.ident + Suffix));
    }
    outcome := Generated(prompt, generatedCode.value);
  }
}
