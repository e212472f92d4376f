/**
 * The directed page graph the crawler builds (a networkx DiGraph in the
 * source): nodes are URLs; a node may carry an `html` attribute (the body of a
 * fetched page) and a `domain` attribute; edges are ordered URL pairs, at most
 * one per pair.
 */
module PageGraph {

  type Url = string

  datatype Graph = Graph(nodes: set<Url>, html: map<Url, string>, domain: map<Url, string>, edges: set<(Url, Url)>)
  {
    /** Attributes belong to nodes, and every edge's endpoints are nodes. */
    predicate Valid() {
      && html.Keys <= nodes
      && domain.Keys <= nodes
      && forall e | e in edges :: e.0 in nodes && e.1 in nodes
    }

    /** `add_node(u, domain=d, html=h)`: adds `u` if missing and sets both attributes. */
    function AddPage(u: Url, d: string, h: string): (g: Graph)
      ensures Valid() ==> g.Valid()
      ensures g.nodes == nodes + {u} && g.edges == edges
      ensures g.html == html[u := h] && g.domain == domain[u := d]
    {
      Graph(nodes + {u}, html[u := h], domain[u := d], edges)
    }

    /** `add_node(u, domain=d)`: adds `u` if missing and sets its domain; an
        `html` attribute it already has is kept. */
    function AddLink(u: Url, d: string): (g: Graph)
      ensures Valid() ==> g.Valid()
      ensures g.nodes == nodes + {u} && g.edges == edges
      ensures g.html == html && g.domain == domain[u := d]
    {
      Graph(nodes + {u}, html, domain[u := d], edges)
    }

    /** `add_edge(s, t)`: adds the edge, and the endpoints if they are missing
        (without attributes). */
    function AddEdge(s: Url, t: Url): (g: Graph)
      ensures Valid() ==> g.Valid()
      ensures g.nodes == nodes + {s, t} && g.edges == edges + {(s, t)}
      ensures g.html == html && g.domain == domain
    {
      Graph(nodes + {s, t}, html, domain, edges + {(s, t)})
    }

    /** `subgraph(keep).copy()`: the nodes of `keep` that are in the graph,
        with their attributes, and the edges between them. */
    function Induced(keep: set<Url>): (g: Graph)
      ensures g.Valid()
      ensures g.nodes == nodes * keep
      ensures forall e :: e in g.edges <==> e in edges && e.0 in g.nodes && e.1 in g.nodes
      ensures forall n :: n in g.html <==> n in html && n in g.nodes
      ensures forall n | n in g.html :: g.html[n] == html[n]
      ensures forall n :: n in g.domain <==> n in domain && n in g.nodes
      ensures forall n | n in g.domain :: g.domain[n] == domain[n]
    {
      var kept := nodes * keep;
      Graph(kept,
            map n | n in html && n in kept :: html[n],
            map n | n in domain && n in kept :: domain[n],
            set e | e in edges && e.0 in kept && e.1 in kept)
    }
  }

  /** `nx.DiGraph()` */
  const Empty := Graph({}, map[], map[], {})
}
