/** Stand-in for the external max-flow library: a graph handle that records the edges and terminal
    pairs it is given. Grid node ids are identified with their (row, column) positions. */
module MaxFlow {
  import opened Imaging
  import opened Weights

  /** An undirected neighbour edge p -- q with forward capacity cap and reverse capacity rcap. */
  datatype Edge = Edge(p: Coord, q: Coord, cap: real, rcap: real)

  /** The terminal pair of a node: capacity from the source and capacity to the sink. */
  datatype TEdge = TEdge(node: Coord, source: Cap, sink: Cap)

  class GraphFloat {
    var edges: seq<Edge>
    var tedges: seq<TEdge>

    /** A fresh graph with its grid of nodes and nothing emitted yet. */
    constructor ()
      ensures edges == [] && tedges == []
    {
      edges, tedges := [], [];
    }

    method AddEdge(p: Coord, q: Coord, cap: real, rcap: real)
      modifies this
      ensures edges == old(edges) + [Edge(p, q, cap, rcap)]
      ensures tedges == old(tedges)
    {
      edges := edges + [Edge(p, q, cap, rcap)];
    }

    method AddTedge(node: Coord, source: Cap, sink: Cap)
      modifies this
      ensures tedges == old(tedges) + [TEdge(node, source, sink)]
      ensures edges == old(edges)
    {
      tedges := tedges + [TEdge(node, source, sink)];
    }
  }
}
