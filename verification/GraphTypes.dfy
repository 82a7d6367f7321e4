/** The knowledge graph's nodes and edges, and small helpers on sequences. */
module GraphTypes {

  datatype Option<+T> = None | Some(value: T)

  datatype NodeType = Rule | Decision | OpenItem

  datatype NodeStatus = Active | Invalidated

  datatype EdgeType = Supersedes | Refutes | Resolves | RelatesTo {
    function PreferenceOrder(): nat {
      match this
      case RelatesTo => 0
      case Resolves => 1
      case Refutes => 2
      case Supersedes => 3
    }

    function CommunityWeight(): (w: real)
      ensures w > 0.0
    {
      match this
      case RelatesTo => 1.0
      case Resolves => 0.8
      case Supersedes => 0.6
      case Refutes => 0.3
    }
  }

  datatype Node = Node(id: string, nodeType: NodeType, title: string, description: string, eventId: string,
                       agentId: string, sessionId: string, files: seq<string>, status: NodeStatus)

  datatype Edge = Edge(id: string, edgeType: EdgeType, source: string, target: string, reasoning: string)

  /** An edge between two node positions of the in-memory graph. */
  datatype Arc = Arc(src: nat, tgt: nat, edge: Edge)

  /** A mutating tool call of a session. */
  datatype ScratchEdit = ScratchEdit(eventId: string, tool: string, files: seq<string>, timestamp: real)

  /** A verification tool call of a session, with its outcome. */
  datatype ScratchCheck = ScratchCheck(eventId: string, tool: string, files: seq<string>, passed: bool, timestamp: real)

  type Byte = b: nat | b < 256

  ghost predicate NoDup<T>(s: seq<T>) {
    forall i, j | 0 <= i < j < |s| :: s[i] != s[j]
  }

  lemma NoDupSnoc<T>(s: seq<T>, x: T)
    requires NoDup(s) && x !in s
    ensures NoDup(s + [x])
  {
  }

  function Elements<T(==)>(s: seq<T>): set<T> { set x | x in s }

  lemma Associates<T>(a: seq<T>, b: seq<T>, c: seq<T>)
    ensures a + (b + c) == (a + b) + c
  {
  }
}
