/**
 * What the three code-generating node handlers share: the prompt each one
 * hands to the code generator, the alert each guard raises, the decision a
 * handler takes before it awaits the generator, and what it reports.
 *
 * The generator itself (`generateCode` in src/services/ai.ts) is not
 * modelled: its answer to a prompt is a parameter `generate`, and an
 * `Err` stands for the rejected promise the handlers catch.
 */
module Generation {
  import opened Wrappers
  import opened Types
  import opened FlowStore

  /** The arguments of `generateModelPrompt`, `generateControllerPrompt` and `generateViewPrompt`. */
  datatype Prompt =
    | ModelPrompt(interfaceCode: string)
    | ControllerPrompt(modelCode: string, interfaceCode: string)
    | ViewPrompt(controllerCode: string, interfaceCode: string)

  /** The guard failures a handler reports with `alert` before anything is changed. */
  datatype Alert =
    | ConnectModelFirst       // controller: no model connected
    | ConnectControllerFirst  // view: no controller connected
    | ControllerNeedsModel    // view: the controller has no model connected
    | NoInterfaceFound        // controller and view: no strict declaration in the model's code
    | DefineInterfaceFirst    // model: the interface text is blank

  /**
   * What a handler decides before the `await`: stop with an alert, or ask
   * the generator with `prompt` and name the component `name` (when known).
   */
  datatype Decision = Stop(alert: Alert) | Ask(prompt: Prompt, name: Option<string>)

  /** What the handler ends with: an alert from a guard, the caught failure, or the generated code. */
  datatype Outcome = Blocked(alert: Alert) | Failed(prompt: Prompt) | Generated(prompt: Prompt, code: string)

  function OutcomeOf(d: Decision, generate: Prompt -> Result<string>): (r: Outcome)
    ensures d.Stop? <==> r.Blocked?
    ensures r.Blocked? ==> r.alert == d.alert
    ensures r.Failed? <==> d.Ask? && generate(d.prompt).Err?
    ensures r.Generated? <==> d.Ask? && generate(d.prompt).Ok?
    ensures !r.Blocked? ==> r.prompt == d.prompt
    ensures r.Generated? ==> generate(d.prompt) == Ok(r.code)
  {
    match d
    case Stop(a) => Blocked(a)
    case Ask(prompt, _) =>
      match generate(prompt)
      case Err(_) => Failed(prompt)
      case Ok(code) => Generated(prompt, code)
  }

  /**
   * Every node keeps its id, type, position, label, closure, component id
   * and component type; only component names and codes may differ.
   */
  predicate SameShape(ns: seq<Node>, ms: seq<Node>) {
    && |ns| == |ms|
    && forall i :: 0 <= i < |ns| ==>
      && ms[i].id == ns[i].id && ms[i].kind == ns[i].kind && ms[i].position == ns[i].position
      && ms[i].data.labelText == ns[i].data.labelText
      && ms[i].data.codeChangeTarget == ns[i].data.codeChangeTarget
      && ms[i].data.component.id == ns[i].data.component.id
      && ms[i].data.component.kind == ns[i].data.component.kind
  }

  /**
   * The nodes after a handler that renames node `id` to `name` first and
   * then, if the generator answered, writes the answer to node `target`
   * (the controller and view handlers).
   */
  function RenameThenWrite(ns: seq<Node>, id: string, name: string, target: string, answer: Result<string>): (r: seq<Node>)
    ensures SameShape(ns, r)
    ensures forall i :: 0 <= i < |ns| ==>
      r[i].data.component.name == (if ns[i].id == id then name else ns[i].data.component.name)
    ensures forall i :: 0 <= i < |ns| ==>
      r[i].data.component.code == (if ns[i].id == target && answer.Ok? then answer.value else ns[i].data.component.code)
  {
    var renamed := PatchNodes(ns, id, NamePatch(name));
    match answer
    case Err(_) => renamed
    case Ok(code) => PatchNodes(renamed, target, CodePatch(code))
  }

  /**
   * The nodes after a handler that writes `code` to node `target` first and
   * then, when it has a name, renames node `id` (the model handler).
   */
  function WriteThenRename(ns: seq<Node>, target: string, code: string, id: string, name: Option<string>): (r: seq<Node>)
    ensures SameShape(ns, r)
    ensures forall i :: 0 <= i < |ns| ==>
      r[i].data.component.code == (if ns[i].id == target then code else ns[i].data.component.code)
    ensures forall i :: 0 <= i < |ns| ==>
      r[i].data.component.name == (if ns[i].id == id && name.Some? then name.value else ns[i].data.component.name)
  {
    var coded := PatchNodes(ns, target, CodePatch(code));
    if name.Some? then PatchNodes(coded, id, NamePatch(name.value)) else coded
  }
}
