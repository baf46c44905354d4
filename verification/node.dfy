/** Infrastructure nodes: gateways, switches and access points. A node is frozen once it
    is built: it has no setters, so a Dafny datatype value models it exactly. */
module NetworkNode {
  import Decimal

  /** The node kinds (enum values AP = 1, SW = 2, GW = 3). */
  datatype NodeType = AP | SW | GW

  /** A position on the simulation grid. */
  type Position = (int, int)

  datatype Node = Node(id: int, name: string, nodeType: NodeType, position: Position)

  /** The node constructor. The defaults are a switch at (0, 0), and an empty name
      becomes the decimal text of the id. */
  function NewNode(id: int, name: string := "", nodeType: NodeType := SW,
                   position: Position := (0, 0)): (n: Node)
    ensures n.id == id && n.nodeType == nodeType && n.position == position
    ensures name != "" ==> n.name == name
    ensures name == "" ==> n.name == Decimal.IntToString(id)
    ensures n.name != ""
  {
    Node(id, if name == "" then Decimal.IntToString(id) else name, nodeType, position)
  }

  /** Building a node from its own fields gives the same node back: building it again
      changes nothing, and a default name can be read back as the id. */
  lemma NewNodeStable(id: int, name: string, nodeType: NodeType, position: Position)
    ensures var n := NewNode(id, name, nodeType, position);
      NewNode(n.id, n.name, n.nodeType, n.position) == n
    ensures name == "" ==> Decimal.ParseInt(NewNode(id, name, nodeType, position).name) == id
  {
    Decimal.IntRoundTrip(id);
  }
}
