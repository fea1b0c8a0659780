# Component graph engine of XII, in Dafny

XII lets a user place typed component nodes (model, controller, app
settings) on a canvas, wire them with directed edges, have an AI code
generator fill each node's code, and collect the code into a file map. This
project models the part of it that has rules worth stating:

- the graph store (`src/store/useStore.ts`): a `Store` class holding the
  node, edge, component and generated-file collections, with `addNode`,
  `onConnect`, `updateComponent`, the per-node `onCodeChange` closure,
  the first-match upstream query `getConnectedNode` and `generateFiles`;
- the three code-generating node handlers (`ControllerNode.tsx`,
  `ViewNode.tsx`, `ModelNode.tsx`): their guard chains over the graph, the
  two interface-matching regular expressions, the names they derive and the
  order in which they update the store around the generator call;
- two small state machines: the app-settings record with its key-by-key
  merge (`AppSettingsNode.tsx`) and the inline label editor
  (`EditableLabel.tsx`).

Modules, one per file: `Wrappers` (Option, Result), `Text` (JavaScript
`trim`, decimal rendering of clock readings, capitalisation), `Types` (the
records of `src/types/index.ts` and the node/edge/connection shapes they live
in), `FlowStore`, `InterfacePattern` (both regular expressions as leftmost
matchers, each proved sound and complete against a description of the text
it accepts), `Generation` (prompts, alerts, decisions, outcomes shared by the
handlers), `ControllerNode`, `ViewNode`, `ModelNode`, `Pipeline` (how the
handlers fit together), `AppSettingsNode`, `EditableLabel`.

Modelling choices:

- `Date.now()` is read twice by `addNode` (node id, component id); the two
  readings are parameters `nodeNow` and `componentNow`.
- The `onCodeChange` closure stored in a node's data is represented by the
  one thing it captures, the id of the node it was created for
  (`NodeData.codeChangeTarget`). `Store.Valid()` says every node's closure
  targets the node itself; `addNode` establishes it and every action keeps it.
- The generator (`generateCode` and the prompt templates of
  `src/services/ai.ts`) is a parameter `generate: Prompt -> Result<string>`;
  `Err` is the rejected promise the handlers catch. A prompt is modelled by
  the arguments handed to the template function.
- Each handler is a method on the store plus two specification functions:
  `Decide` (the guard chain up to the `await`, stated against the graph and
  against the declarative description of the regular expression) and
  `After` (the nodes afterwards). The method's contract ties its effect to
  `After` and its result to `OutcomeOf(Decide(..), generate)`.
- `\s` is JavaScript's whitespace set (tab through carriage return, space,
  no-break space, the Unicode space separators, line and paragraph
  separators, the byte-order mark); `\w` is `[A-Za-z0-9_]`.
- React state is modelled as class fields. In the settings panel, the
  record the handlers close over (`rendered`) is kept apart from the state
  (`settings`), because `setSettings` uses a functional update while the
  record sent to the store is built from the render's snapshot.

What the code does, which a reader might expect otherwise:

- `updateComponent` does not copy a new component name into the node's
  label; the label keeps what `addNode` gave it.
- Removing nodes goes through the canvas library's `applyNodeChanges`; no
  cascade delete of edges or components is visible in the store.
- `onConnect` checks only that both ends are present and non-empty, not
  that they name existing nodes.
- `getConnectedNode` returns only the first qualifying upstream node, in
  edge order, not all of them.
- Node types are the strings `model`, `controller`, `view` as the handlers
  compare them, with controller and view as separate types.
- The view handler (`ViewNode.tsx`) is modelled as written, although the
  shown canvas never creates a `view` node: the sidebar offers only `model`,
  `controller` (labelled "Controller + View") and `app-settings`
  (src/components/Sidebar.tsx:20-36), and the canvas registers no `view`
  node type (src/App.tsx:17-21). `addNode` itself accepts any type, so the
  store can hold a `view` node; nothing in the shown UI calls
  `generateViewCode`.

## Model

| member | source | states |
|---|---|---|
| Text.TrimEmptyIffBlank | src/components/EditableLabel.tsx:22 | `trim()` of a text is empty exactly when every character of it is JavaScript whitespace |
| Text.Trim | src/components/EditableLabel.tsx:22 | `trim()` returns the text with its whitespace-only start and whitespace-only end cut off: a slice of the text, blank before and after it, that neither starts nor ends with whitespace |
| Text.Decimal | src/store/useStore.ts:26-27 | `${Date.now()}` renders a reading as a non-empty string of decimal digits with no leading zero unless the reading is 0 |
| Text.DecimalRoundTrip | src/store/useStore.ts:26-27 | the decimal text a clock reading is rendered as in an id reads back as that reading |
| Text.Capitalize | src/store/useStore.ts:38 | `charAt(0).toUpperCase() + slice(1)`: same length, same tail, a lowercase ASCII first letter becomes the uppercase letter at the same place in the alphabet, and any other first character stays |
| FlowStore.NewNode | src/store/useStore.ts:25-46 | the node `addNode` builds: given type and position, label `New <type>`, component name `New` + capitalised type, empty code, node id `<type>-` followed by the decimal node clock reading (which reads back as that reading), component id `component-` followed by the decimal component clock reading, closure bound to the node's own id |
| FlowStore.ApplyPatch | src/store/useStore.ts:81 | `{ ...component, ...data }`: each field the patch gives takes the patch's value, every other field keeps the component's |
| FlowStore.PatchNodes | src/store/useStore.ts:73-87 | `updateComponent`'s map: same length and order; a node whose id matches gets its component merged with the patch; id, type, position, label and closure of every node, and every other node's component, stay |
| FlowStore.PatchNodesUnknownId | src/store/useStore.ts:73-87 | an id no node has changes nothing |
| FlowStore.PatchNodesThen | src/store/useStore.ts:73-87 | two updates of the same id are one update in which the later patch's fields win |
| FlowStore.PatchNodesCommute | src/store/useStore.ts:73-87 | updates whose patches share no field give the same nodes in either order |
| FlowStore.FindNodeIndex | src/store/useStore.ts:99 | `nodes.find` by id: the index of a node with that id, with no such node before it; none exactly when no node has the id |
| FlowStore.FirstFeedingEdge | src/store/useStore.ts:93-95 | `edges.find`: the first edge into the node whose source node has the requested type; none exactly when no edge qualifies |
| FlowStore.ConnectedNode | src/store/useStore.ts:89-100 | `getConnectedNode`: a result has the requested type, is a node of the store, is the first node with its id, and is the source of an edge into the node with no qualifying edge before it; there is no result exactly when no edge qualifies |
| FlowStore.Store.GetConnectedNode | src/store/useStore.ts:89-100 | the store's query over its own nodes and edges: a result has the requested type, is a node of the store found first by its id, and is the source of an edge into the node with no qualifying edge before it; no result exactly when no edge qualifies |
| FlowStore.ConnectedNodeAppendEdges | src/store/useStore.ts:93-97 | appending edges never changes a defined answer of `getConnectedNode` |
| FlowStore.ConnectedNodeAfterPatch | src/store/useStore.ts:89-100 | after `updateComponent` the query finds the same node, updated, and no answer stays no answer |
| FlowStore.FilesOf | src/store/useStore.ts:102-109 | the file map of no nodes is empty; the last node's key always holds that node's code |
| FlowStore.FilesOfKeys | src/store/useStore.ts:102-109 | the file map's keys are exactly the nodes' `<type>/<name>.ts` keys |
| FlowStore.FilesOfSize | src/store/useStore.ts:102-109 | the file map has no more entries than there are nodes |
| FlowStore.FilesOfLastWins | src/store/useStore.ts:104-106 | a key maps to the code of the last node in order that has that key |
| FlowStore.FilesOfSameEntries | src/store/useStore.ts:102-109 | the file map depends only on each node's component type, name and code, in order |
| FlowStore.Store.constructor | src/store/useStore.ts:19-23 | the store starts with no nodes, edges, components or files |
| FlowStore.Store.AddNode | src/store/useStore.ts:25-52 | exactly one new node and its component are appended, the existing entries stay, and the closure invariant is kept |
| FlowStore.Store.OnConnect | src/store/useStore.ts:66-71 | a connection with a missing or empty end leaves the edges as they were; otherwise the edges become what `addEdge` returns |
| FlowStore.Store.UpdateComponent | src/store/useStore.ts:73-87 | only `nodes` changes, to the patched nodes; edges, components and files stay; the closure invariant is kept |
| FlowStore.Store.ClosureWritesOwnNode | src/store/useStore.ts:41-43 | in a store where every closure targets its own node, calling node i's closure sets node i's code and leaves every node with another id as it was |
| FlowStore.Store.OnCodeChange | src/store/useStore.ts:41-43 | calling a node's closure is `updateComponent` of the node it was created for with a code-only patch |
| FlowStore.Store.GenerateFiles | src/store/useStore.ts:102-109 | the loop leaves `generatedFiles` equal to the file map of the current nodes, replacing the old map wholesale |
| InterfacePattern.RunEnd | src/components/nodes/ControllerNode.tsx:25 | a greedy `\s*`, `\s+` or `\w+` stops at the end of the longest run of its class |
| InterfacePattern.IndexFrom | src/components/nodes/ControllerNode.tsx:25 | `[^}]+}` ends at the first `}` after its start |
| InterfacePattern.StrictMatchAt | src/components/nodes/ControllerNode.tsx:25 | the strict pattern tried at one position: nothing unless `interface` starts there; a match starts there, fits in the text, has a non-empty identifier, is longer than the keyword and ends with `}` |
| InterfacePattern.StrictMatchAtSound | src/components/nodes/ControllerNode.tsx:25 | what the strict matcher accepts at a position is keyword, whitespace, identifier, optional whitespace, `{`, a non-empty body without `}`, `}` occurring there |
| InterfacePattern.StrictMatchAtComplete | src/components/nodes/ControllerNode.tsx:25 | every such text occurring at a position is what the strict matcher returns there, with its identifier |
| InterfacePattern.StrictMatch | src/components/nodes/ControllerNode.tsx:25 | `match` without the `g` flag: the match at the smallest position where the pattern matches, or none |
| InterfacePattern.StrictMatchIsLeftmostDeclaration | src/components/nodes/ControllerNode.tsx:25-30 | there is no strict match exactly when no declaration occurs; a match is a declaration occurring in the text with none starting earlier |
| InterfacePattern.StrictMatchIsLeftmost | src/components/nodes/ControllerNode.tsx:25-30 | the strict match's text occurs in the text as a declaration with the match's identifier, and no declaration starts earlier |
| InterfacePattern.StrictMatchPrefixStable | src/components/nodes/ControllerNode.tsx:25 | appending text after a text with a strict match does not change the match |
| InterfacePattern.LooseMatchAt | src/components/nodes/ModelNode.tsx:28 | the loose pattern tried at one position: nothing unless `interface` starts there; a match starts there, fits in the text and has a non-empty identifier |
| InterfacePattern.LooseMatchAtSound | src/components/nodes/ModelNode.tsx:28 | what the loose matcher accepts at a position is keyword, whitespace and a whole identifier occurring there |
| InterfacePattern.LooseMatchAtComplete | src/components/nodes/ModelNode.tsx:28 | every such text with a whole identifier is what the loose matcher returns there |
| InterfacePattern.LooseMatch | src/components/nodes/ModelNode.tsx:28 | the loose match at the smallest position where one exists, or none |
| InterfacePattern.LooseMatchIsLeftmostDeclaration | src/components/nodes/ModelNode.tsx:28-29 | there is no loose match exactly when no loose declaration occurs; a match is one with its identifier as long as it goes and none starting earlier |
| InterfacePattern.LooseMatchIdentIsLeftmost | src/components/nodes/ModelNode.tsx:28-29 | the loose match's identifier is that of a declaration occurring in the text, taken as far as `\w+` goes, with no loose declaration starting earlier |
| InterfacePattern.LooseFindsStrict | src/components/nodes/ModelNode.tsx:28 | wherever the strict pattern matches, the loose one matches no later, and at the same position with the same identifier |
| InterfacePattern.StrictMatchExample | src/components/nodes/ControllerNode.tsx:25 | `interface User { id: string }` is matched whole with identifier `User` |
| InterfacePattern.EmptyBodyExample | src/components/nodes/ControllerNode.tsx:25-30 | `interface X {}` has no strict match (the body must be non-empty) but a loose match on `interface X` |
| Generation.OutcomeOf | src/components/nodes/ControllerNode.tsx:19-40 | a guard stop reports its alert; otherwise the generator's answer to the prompt decides between the caught failure and the generated code |
| Generation.RenameThenWrite | src/components/nodes/ControllerNode.tsx:33-37 | renaming first and writing the answer second: the rename stands whether or not the generator answered; only names and codes change |
| Generation.WriteThenRename | src/components/nodes/ModelNode.tsx:26-31 | writing the code first and renaming second, when there is a name; only names and codes change |
| ControllerNode.Decide | src/components/nodes/ControllerNode.tsx:17-35 | the controller stops exactly when no model feeds it or the model's code holds no strict declaration; otherwise it asks with the model's whole code and the leftmost declaration, and the new name is its identifier + `Controller` |
| ControllerNode.After | src/components/nodes/ControllerNode.tsx:17-40 | a stop changes nothing; the rename stays when the generator fails; the code changes only on success, to exactly the answer |
| ControllerNode.GenerateControllerCode | src/components/nodes/ControllerNode.tsx:14-44 | the handler's result and new nodes are those of `Decide` and `After`, the edges stay and the closure invariant is kept |
| ViewNode.Decide | src/components/nodes/ViewNode.tsx:17-41 | the view stops exactly when no controller feeds it, when none feeds that controller from a model, or when the model's code holds no strict declaration; otherwise it asks with the controller's code and the leftmost declaration of the model two hops up, and the new name is its identifier + `View` |
| ViewNode.After | src/components/nodes/ViewNode.tsx:17-46 | a stop changes nothing; the rename stays when the generator fails; the code changes only on success, to exactly the answer |
| ViewNode.GenerateViewCode | src/components/nodes/ViewNode.tsx:14-50 | the handler's result and new nodes are those of `Decide` and `After`, the edges stay and the closure invariant is kept |
| ModelNode.StoredCode | src/components/nodes/ModelNode.tsx:26 | the stored code is the interface text, a blank line, then the generated text |
| ModelNode.Decide | src/components/nodes/ModelNode.tsx:17-32 | the model stops exactly when the interface text is whitespace only; otherwise it asks with that text, and the name is the whole identifier of its leftmost loose declaration + `Model`, or none exactly when no loose declaration occurs |
| ModelNode.After | src/components/nodes/ModelNode.tsx:24-35 | nothing changes unless the generator answers; then the code becomes the stored code and the name changes only when a name was found |
| ModelNode.StoredCodeKeepsDeclaration | src/components/nodes/ModelNode.tsx:26 | the stored code has the same strict match as the interface text whenever the interface text has one |
| ModelNode.GenerateAICode | src/components/nodes/ModelNode.tsx:16-39 | the handler's result and new nodes are those of `Decide` and `After`, the edges stay and the closure invariant is kept |
| Pipeline.ConnectedModelAfterGeneration | src/components/nodes/ControllerNode.tsx:17-24 | after the model handler succeeds, `getConnectedNode` from a node it feeds finds the same model, now holding the stored code |
| Pipeline.ConnectedOtherAfterGeneration | src/components/nodes/ViewNode.tsx:17-22 | the model handler does not change which other node `getConnectedNode` finds, nor that node |
| Pipeline.ControllerSeesModelInterface | src/components/nodes/ControllerNode.tsx:17-35 | after the model handler succeeds on an interface text with a strict declaration, a controller fed by that model asks with that declaration and is named after it |
| Pipeline.ViewSeesModelInterface | src/components/nodes/ViewNode.tsx:17-41 | likewise for a view two hops down: it asks with its controller's code and the model's declaration and is named after it |
| AppSettingsNode.With | src/components/nodes/AppSettingsNode.tsx:31 | `{ ...prev, [key]: value }`: the key holds the new value and every other key keeps its value |
| AppSettingsNode.WithSameKey | src/components/nodes/AppSettingsNode.tsx:31 | of two writes to one key the later wins; writing the same value twice is writing it once |
| AppSettingsNode.WithOtherKeys | src/components/nodes/AppSettingsNode.tsx:31 | writes to different keys commute |
| AppSettingsNode.WithCurrent | src/components/nodes/AppSettingsNode.tsx:31 | writing back a key's current value changes nothing |
| AppSettingsNode.PrimaryEdit | src/components/nodes/AppSettingsNode.tsx:93 | the primary colour input replaces only the primary colour; the secondary colour and every other key stay |
| AppSettingsNode.SecondaryEdit | src/components/nodes/AppSettingsNode.tsx:102 | the secondary colour input replaces only the secondary colour; the primary colour and every other key stay |
| AppSettingsNode.SettingsPanel.constructor | src/components/nodes/AppSettingsNode.tsx:19-28 | the initial record: `ai-mvc-app`, `AI MVC Application`, the fixed description, `/vite.svg`, theme `#6366f1` / `#8b5cf6`; nothing sent to the store yet |
| AppSettingsNode.SettingsPanel.Render | src/components/nodes/AppSettingsNode.tsx:19 | after a render the handlers see the current state |
| AppSettingsNode.SettingsPanel.UpdateSettings | src/components/nodes/AppSettingsNode.tsx:30-33 | the state gets the key replaced; the store is sent a whole record, the render's snapshot with the key replaced, which is the new state when the snapshot was current |
| AppSettingsNode.SettingsPanel.EditPrimary | src/components/nodes/AppSettingsNode.tsx:93 | the new theme is the chosen primary colour with the snapshot's secondary colour |
| AppSettingsNode.SettingsPanel.EditSecondary | src/components/nodes/AppSettingsNode.tsx:102 | the new theme is the snapshot's primary colour with the chosen secondary colour |
| EditableLabel.Emission | src/components/EditableLabel.tsx:21-24 | submit passes the untrimmed edit text to `onChange` exactly when it is not whitespace only, and nothing otherwise |
| EditableLabel.LabelEditor.constructor | src/components/EditableLabel.tsx:10-12 | a new label is not editing and its edit text is the value it shows |
| EditableLabel.LabelEditor.Rerender | src/components/EditableLabel.tsx:10-12 | a new `value` prop does not reset the edit text |
| EditableLabel.LabelEditor.Click | src/components/EditableLabel.tsx:65 | clicking the label starts editing |
| EditableLabel.LabelEditor.Type | src/components/EditableLabel.tsx:40 | typing sets the edit text to the input's text |
| EditableLabel.LabelEditor.Submit | src/components/EditableLabel.tsx:21-26 | submit emits per `Emission` and always leaves editing; nothing blank is ever emitted |
| EditableLabel.LabelEditor.Cancel | src/components/EditableLabel.tsx:28-31 | cancel restores the edit text to the shown value, leaves editing and emits nothing |
| EditableLabel.LabelEditor.KeyDown | src/components/EditableLabel.tsx:41-44 | Enter submits, Escape cancels, any other key changes nothing |

## Left out

- `onNodesChange` and `onEdgesChange` (src/store/useStore.ts:54-64): they hand the change list to the canvas library's `applyNodeChanges`/`applyEdgeChanges`, whose behaviour is not part of this model.
- FlowStore.Store.OnConnect: the canvas library's `addEdge` (edge construction, duplicate handling) is a function parameter; the contract states the guard only.
- Uniqueness of node and component ids: they come from `Date.now()`, which promises none, so nothing relies on it; `getConnectedNode` is modelled with `find`'s first-match semantics for repeated ids.
- The generator client and prompt templates (src/services/ai.ts), including the fence stripping of its answer: network I/O, replaced by the `generate` parameter.
- Node positions are stored and returned, never computed; they are modelled as a pair of reals, not as floating-point numbers.
- Text.Capitalize: `toUpperCase` is modelled for the ASCII letters only; other lowercase letters stay as they are.
- The `alert` calls, `console.error`, and the `isGenerating`/`isExpanded` flags of the node handlers: transient UI; the alert is reported as the handler's `Blocked` outcome instead.
- Interleaving across the `await` in the handlers: each handler runs as one step, with no other action between its lookup and its store updates.
- A node whose data lacks `onCodeChange` (the call is optional-chained): every node the store creates has one, so the model assumes it.
- ModelNode rendering: `appSettings` is not part of the store in src/store/useStore.ts, so reading `appSettings.darkMode` (src/components/nodes/ModelNode.tsx:42, and likewise src/App.tsx:55) throws a TypeError at render; only the handler is modelled, as if the node rendered.
- AppSettingsNode.SettingsPanel.UpdateSettings: `updateAppSettings` is not defined in src/store/useStore.ts, so the call at src/components/nodes/AppSettingsNode.tsx:32 throws a TypeError right after `setSettings`; the model keeps the state update and lets `pushed` record the record that call would hand over, not any effect on the store.
- Types.Component and Types.ComponentPatch leave out the optional `props`, `methods` and `state` fields of `ComponentType` (src/types/index.ts:6-8): no modelled operation sets or reads them, and the object spread of `updateComponent` would only carry them along.
- The router node, toolbar packaging, loading spinner, drag-and-drop placement, code editor and sidebar: outside the modelled engine.
