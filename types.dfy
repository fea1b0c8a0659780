/**
 * The records the graph store keeps: the component payload and its partial
 * update (from src/types/index.ts), and the node, edge and connection shapes
 * of the canvas library that the store stores them in.
 */
module Types {
  import opened Wrappers

  /** Canvas coordinates; stored and handed back, never interpreted. */
  datatype Position = Position(x: real, y: real)

  /** `ComponentType`: the typed, named, code-bearing payload of a node. */
  datatype Component = Component(id: string, kind: string, name: string, code: string)

  /** `Partial<ComponentType>`: each present field replaces the component's field. */
  datatype ComponentPatch = ComponentPatch(
    id: Option<string>, kind: Option<string>, name: Option<string>, code: Option<string>)

  /**
   * `NodeData`. The `onCodeChange` closure is represented by the one thing it
   * captures: the id of the node it was created for.
   */
  datatype NodeData = NodeData(labelText: string, component: Component, codeChangeTarget: string)

  /** A canvas node; `kind` is its `type`, the string `getConnectedNode` compares. */
  datatype Node = Node(id: string, kind: string, position: Position, data: NodeData)

  /** A directed edge from the node with id `source` to the node with id `target`. */
  datatype Edge = Edge(id: string, source: string, target: string)

  /** What the canvas reports when the user drags a connection; either end may be missing. */
  datatype Connection = Connection(source: Option<string>, target: Option<string>)

  const ModelKind: string := "model"
  const ViewKind: string := "view"
  const ControllerKind: string := "controller"

  /** `{ name }` */
  function NamePatch(name: string): ComponentPatch {
    ComponentPatch(None, None, Some(name), None)
  }

  /** `{ code }` */
  function CodePatch(code: string): ComponentPatch {
    ComponentPatch(None, None, None, Some(code))
  }
}
