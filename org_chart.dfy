/**
 * The mini org chart of the selected stakeholder (app.py lines 104-142): the second- and
 * first-degree managers, the stakeholder, and every row whose first-degree manager is the
 * stakeholder, added through `add_node`, which skips missing names and names already added,
 * plus the manager edges and one edge per reporting row.
 */
module OrgChart {
  import opened Wrappers
  import opened Seqs
  import opened Rows

  const SecondManagerColor := "lightgray"
  const FirstManagerColor := "#4A90E2"
  const ClientColor := "#6AA84F"
  const ReporteeColor := "#FFF2CC"

  /**
   * A chart node; its id is the person's name and `caption` is its label (`label` is a Dafny keyword).
   * Shape and font are the same for every node and are not kept.
   */
  datatype Node = Node(id: string, caption: string, color: string)

  /** A directed edge from a manager to a person they manage. */
  datatype Edge = Edge(source: string, target: string)

  /** The arguments of one `add_node` call. */
  datatype NodeRequest = NodeRequest(name: Option<string>, title: Option<string>, color: string)

  /** `name if not title else f"{name}\n{title}"`. */
  function Label(name: string, title: Option<string>): string {
    if Truthy(title) then name + "\n" + title.value else name
  }

  function Ids(nodes: seq<Node>): seq<string> {
    seq(|nodes|, i requires 0 <= i < |nodes| => nodes[i].id)
  }

  function IdSet(nodes: seq<Node>): set<string> {
    set id | id in Ids(nodes)
  }

  function Names(reqs: seq<NodeRequest>): seq<Option<string>> {
    seq(|reqs|, i requires 0 <= i < |reqs| => reqs[i].name)
  }

  function NodeFor(req: NodeRequest): Node
    requires req.name.Some?
  {
    Node(req.name.value, Label(req.name.value, req.title), req.color)
  }

  /**
   * One `add_node` call. `added` is the seen-set the source keeps beside the node list;
   * when it holds the ids of `nodes`, as it always does in the builder, the call has the effect of Insert.
   */
  method AddNode(nodes: seq<Node>, added: set<string>, name: Option<string>, title: Option<string>, color: string)
    returns (nodes': seq<Node>, added': set<string>)
    ensures name.Some? && name.value !in added ==>
      nodes' == nodes + [NodeFor(NodeRequest(name, title, color))] && added' == added + {name.value}
    ensures name.None? || name.value in added ==> nodes' == nodes && added' == added
    ensures added == IdSet(nodes) ==>
      nodes' == Insert(nodes, NodeRequest(name, title, color)) && added' == IdSet(nodes')
  {
    if name.Some? && name.value !in added {
      nodes' := nodes + [NodeFor(NodeRequest(name, title, color))];
      added' := added + {name.value};
      assert Ids(nodes') == Ids(nodes) + [name.value];
    } else {
      nodes', added' := nodes, added;
    }
  }

  /** The node list after one `add_node` call. */
  function Insert(nodes: seq<Node>, req: NodeRequest): seq<Node> {
    if req.name.Some? && req.name.value !in Ids(nodes) then nodes + [NodeFor(req)] else nodes
  }

  /** The node list after `add_node` calls with the arguments reqs, in order, starting from no nodes. */
  function AddNodes(reqs: seq<NodeRequest>): seq<Node> {
    if reqs == [] then [] else Insert(AddNodes(reqs[..|reqs| - 1]), reqs[|reqs| - 1])
  }

  /** The node ids are the present requested names, each once, in the order of their first request. */
  lemma {:induction false} AddNodesIds(reqs: seq<NodeRequest>)
    ensures Ids(AddNodes(reqs)) == Unique(Present(Names(reqs)))
  {
    if reqs != [] {
      var p, q := reqs[..|reqs| - 1], reqs[|reqs| - 1];
      assert reqs == p + [q];
      AddNodesIds(p);
      AddNodesSnoc(p, q);
      var nodes := AddNodes(p);
      assert Names(reqs) == Names(p) + [q.name];
      PresentSnoc(Names(p), q.name);
      if q.name.Some? {
        UniqueSnoc(Present(Names(p)), q.name.value);
        assert Present(Names(reqs)) == Present(Names(p)) + [q.name.value];
        if q.name.value !in Ids(nodes) {
          assert AddNodes(reqs) == nodes + [NodeFor(q)];
          assert Ids(nodes + [NodeFor(q)]) == Ids(nodes) + [q.name.value];
          assert Unique(Present(Names(reqs))) == Unique(Present(Names(p))) + [q.name.value];
        } else {
          assert AddNodes(reqs) == nodes;
          assert Unique(Present(Names(reqs))) == Unique(Present(Names(p)));
        }
      } else {
        assert Present(Names(reqs)) == Present(Names(p));
        assert AddNodes(reqs) == nodes;
      }
    }
  }

  lemma AddNodesSnoc(reqs: seq<NodeRequest>, q: NodeRequest)
    ensures AddNodes(reqs + [q]) == Insert(AddNodes(reqs), q)
  {
    assert (reqs + [q])[..|reqs|] == reqs;
  }

  /**
   * First write wins: every node is built from the earliest request that names it,
   * whatever later requests for the same name ask for.
   */
  lemma {:induction false} AddNodesFirstWriteWins(reqs: seq<NodeRequest>)
    ensures forall k :: 0 <= k < |AddNodes(reqs)| ==>
      Some(AddNodes(reqs)[k].id) in Names(reqs) &&
      AddNodes(reqs)[k] == NodeFor(reqs[IndexOf(Names(reqs), Some(AddNodes(reqs)[k].id))])
  {
    if reqs != [] {
      var p, q := reqs[..|reqs| - 1], reqs[|reqs| - 1];
      assert reqs == p + [q];
      AddNodesFirstWriteWins(p);
      AddNodesIds(p);
      var nodes, nodes' := AddNodes(p), AddNodes(reqs);
      var names := Names(reqs);
      assert names == Names(p) + [q.name];
      forall k | 0 <= k < |nodes'|
        ensures Some(nodes'[k].id) in names && nodes'[k] == NodeFor(reqs[IndexOf(names, Some(nodes'[k].id))])
      {
        if k < |nodes| {
          FirstWriteKept(p, q, k);
        } else {
          assert q.name.Some? && q.name.value !in Ids(nodes);
          assert Some(q.name.value) !in Names(p);
          assert IndexOf(names, q.name) == |p|;
        }
      }
    }
  }

  /** A node already built keeps the request that built it when one more request follows. */
  lemma FirstWriteKept(p: seq<NodeRequest>, q: NodeRequest, k: nat)
    requires k < |AddNodes(p)|
    requires Some(AddNodes(p)[k].id) in Names(p)
    requires AddNodes(p)[k] == NodeFor(p[IndexOf(Names(p), Some(AddNodes(p)[k].id))])
    ensures k < |AddNodes(p + [q])| && AddNodes(p + [q])[k] == AddNodes(p)[k]
    ensures Some(AddNodes(p)[k].id) in Names(p + [q])
    ensures IndexOf(Names(p + [q]), Some(AddNodes(p)[k].id)) == IndexOf(Names(p), Some(AddNodes(p)[k].id))
    ensures AddNodes(p)[k] == NodeFor((p + [q])[IndexOf(Names(p), Some(AddNodes(p)[k].id))])
  {
    var id := AddNodes(p)[k].id;
    AddNodesSnoc(p, q);
    assert Names(p + [q]) == Names(p) + [q.name];
    IndexOfPrefix(Names(p), [q.name], Some(id));
  }

  /** The mask `df["1st degree Manager"] == client`. */
  function ReportsTo(client: string): Row -> bool {
    (r: Row) => r.manager1 == Some(client)
  }

  /** `reportees_df`: the rows whose first-degree manager is client, in frame order. */
  function Reportees(df: seq<Row>, client: string): (reps: seq<Row>)
    ensures forall r :: r in reps <==> r in df && r.manager1 == Some(client)
  {
    Filter(df, ReportsTo(client))
  }

  /** The reportees of a split frame are those of the first part followed by those of the second. */
  lemma ReporteesKeepOrder(a: seq<Row>, b: seq<Row>, client: string)
    ensures Reportees(a + b, client) == Reportees(a, client) + Reportees(b, client)
  {
    FilterAppend(a, b, ReportsTo(client));
  }

  function ReporteeRequests(reps: seq<Row>): seq<NodeRequest> {
    seq(|reps|, i requires 0 <= i < |reps| => NodeRequest(reps[i].clientName, None, ReporteeColor))
  }

  /** The `add_node` calls of the builder, in order: mgr_2, mgr_1, the client, then each reportee. */
  function ChartRequests(row: Row, reps: seq<Row>): seq<NodeRequest> {
    [ NodeRequest(row.manager2, None, SecondManagerColor),
      NodeRequest(row.manager1, None, FirstManagerColor),
      NodeRequest(row.clientName, None, ClientColor) ] + ReporteeRequests(reps)
  }

  function ChartNodes(df: seq<Row>, row: Row): seq<Node>
    requires row.clientName.Some?
  {
    AddNodes(ChartRequests(row, Reportees(df, row.clientName.value)))
  }

  /** The number of upward edges: mgr_2 to mgr_1 when both are present, mgr_1 to the client when mgr_1 is. */
  function UpCount(row: Row): nat {
    (if row.manager2.Some? && row.manager1.Some? then 1 else 0) + (if row.manager1.Some? then 1 else 0)
  }

  function UpwardEdges(row: Row): seq<Edge>
    requires row.clientName.Some?
  {
    (if row.manager2.Some? && row.manager1.Some? then [Edge(row.manager2.value, row.manager1.value)] else [])
    + (if row.manager1.Some? then [Edge(row.manager1.value, row.clientName.value)] else [])
  }

  function ReporteeEdges(client: string, reps: seq<Row>): seq<Edge>
    requires AllNamed(reps)
  {
    seq(|reps|, i requires 0 <= i < |reps| => assert reps[i] in reps; Edge(client, reps[i].clientName.value))
  }

  function ChartEdges(df: seq<Row>, row: Row): seq<Edge>
    requires row.clientName.Some? && AllNamed(df)
  {
    UpwardEdges(row) + ReporteeEdges(row.clientName.value, Reportees(df, row.clientName.value))
  }

  /** The colour a person's node gets: that of the earliest of the builder's add_node calls naming them. */
  function RoleColor(row: Row, n: string): string {
    if row.manager2 == Some(n) then SecondManagerColor
    else if row.manager1 == Some(n) then FirstManagerColor
    else if row.clientName == Some(n) then ClientColor
    else ReporteeColor
  }

  lemma ChartRequestNames(row: Row, reps: seq<Row>)
    ensures Names(ChartRequests(row, reps)) == [row.manager2, row.manager1, row.clientName] + ClientNames(reps)
  {
  }

  /**
   * No two nodes share an id; a node exists exactly for a present mgr_2, a present mgr_1, the client,
   * and the name of each reporting row; there are at most three nodes more than reporting rows.
   */
  lemma ChartNodeIds(df: seq<Row>, row: Row)
    requires row.clientName.Some?
    ensures Distinct(Ids(ChartNodes(df, row)))
    ensures forall n :: n in Ids(ChartNodes(df, row)) <==>
      row.manager2 == Some(n) || row.manager1 == Some(n) || row.clientName == Some(n) ||
      exists r :: r in Reportees(df, row.clientName.value) && r.clientName == Some(n)
    ensures row.clientName.value in Ids(ChartNodes(df, row))
    ensures |ChartNodes(df, row)| <= 3 + |MaskIndices(df, ReportsTo(row.clientName.value))|
  {
    var c := row.clientName.value;
    var reps := Reportees(df, c);
    var reqs := ChartRequests(row, reps);
    AddNodesIds(reqs);
    ChartRequestNames(row, reps);
    FilterCount(df, ReportsTo(c));
    assert |Ids(ChartNodes(df, row))| == |ChartNodes(df, row)|;
    forall n
      ensures Some(n) in Names(reqs) <==>
        row.manager2 == Some(n) || row.manager1 == Some(n) || row.clientName == Some(n) || Some(n) in ClientNames(reps)
    {
    }
    forall n
      ensures Some(n) in ClientNames(reps) <==> exists r :: r in reps && r.clientName == Some(n)
    {
      NameInColumn(reps, n);
    }
  }

  /**
   * Every node is labelled with its id and coloured by the earliest add_node call that named it,
   * in the order mgr_2, mgr_1, client, reportees.
   */
  lemma ChartNodeColors(df: seq<Row>, row: Row)
    requires row.clientName.Some?
    ensures forall k :: 0 <= k < |ChartNodes(df, row)| ==>
      ChartNodes(df, row)[k].caption == ChartNodes(df, row)[k].id &&
      ChartNodes(df, row)[k].color == RoleColor(row, ChartNodes(df, row)[k].id)
  {
    var c := row.clientName.value;
    var reps := Reportees(df, c);
    var reqs := ChartRequests(row, reps);
    var nodes := ChartNodes(df, row);
    AddNodesFirstWriteWins(reqs);
    ChartRequestNames(row, reps);
    forall k | 0 <= k < |nodes|
      ensures nodes[k].caption == nodes[k].id && nodes[k].color == RoleColor(row, nodes[k].id)
    {
      var id := nodes[k].id;
      var i := IndexOf(Names(reqs), Some(id));
      assert Names(reqs)[0] == row.manager2 && Names(reqs)[1] == row.manager1 && Names(reqs)[2] == row.clientName;
      assert nodes[k] == NodeFor(reqs[i]);
      if row.manager2 == Some(id) {
        assert i == 0;
      } else if row.manager1 == Some(id) {
        assert i == 1;
      } else if row.clientName == Some(id) {
        assert i == 2;
      } else {
        assert i >= 3 && reqs[i] == ReporteeRequests(reps)[i - 3];
      }
    }
  }

  /**
   * The edge list: mgr_2 to mgr_1 first when both are present, then mgr_1 to the client when mgr_1 is
   * present, then one edge from the client per reporting row, in frame order, whether or not that
   * row's node was a duplicate.
   */
  lemma ChartEdgesShape(df: seq<Row>, row: Row)
    requires row.clientName.Some? && AllNamed(df)
    ensures |ChartEdges(df, row)| == UpCount(row) + |MaskIndices(df, ReportsTo(row.clientName.value))|
    ensures row.manager2.Some? && row.manager1.Some? ==>
      ChartEdges(df, row)[0] == Edge(row.manager2.value, row.manager1.value)
    ensures row.manager1.Some? ==>
      ChartEdges(df, row)[UpCount(row) - 1] == Edge(row.manager1.value, row.clientName.value)
    ensures forall k :: 0 <= k < |Reportees(df, row.clientName.value)| ==>
      ChartEdges(df, row)[UpCount(row) + k].source == row.clientName.value &&
      Some(ChartEdges(df, row)[UpCount(row) + k].target) == Reportees(df, row.clientName.value)[k].clientName
  {
    FilterCount(df, ReportsTo(row.clientName.value));
  }

  /** With no managers and no reporting rows the chart is the client's node alone, with no edges. */
  lemma LoneClient(df: seq<Row>, row: Row)
    requires row.clientName.Some? && AllNamed(df)
    requires row.manager1.None? && row.manager2.None?
    requires forall r :: r in df ==> r.manager1 != row.clientName
    ensures ChartNodes(df, row) == [Node(row.clientName.value, row.clientName.value, ClientColor)]
    ensures ChartEdges(df, row) == []
  {
    var c := row.clientName.value;
    FilterNone(df, ReportsTo(c));
    assert Reportees(df, c) == [];
    UpwardRequests(row);
  }

  /** A client listed as their own first-degree manager keeps mgr_1's colour, and gets two self-edges. */
  lemma SelfManagedClient(df: seq<Row>, row: Row)
    requires row.clientName.Some? && AllNamed(df)
    requires row in df && row.manager1 == row.clientName && row.manager2 != row.clientName
    ensures exists k :: (0 <= k < |ChartNodes(df, row)| &&
      ChartNodes(df, row)[k] == Node(row.clientName.value, row.clientName.value, FirstManagerColor))
    ensures ChartEdges(df, row)[UpCount(row) - 1] == Edge(row.clientName.value, row.clientName.value)
    ensures exists k :: (UpCount(row) <= k < |ChartEdges(df, row)| &&
      ChartEdges(df, row)[k] == Edge(row.clientName.value, row.clientName.value))
  {
    var c := row.clientName.value;
    var nodes := ChartNodes(df, row);
    ChartSummary(df, row);
    var k := IndexOf(Ids(nodes), c);
    assert nodes[k] == Node(c, c, FirstManagerColor) by {
      ChartNodeColors(df, row);
      assert nodes[k].id == c;
    }
    var reps := Reportees(df, c);
    var j := IndexOf(reps, row);
    assert ChartEdges(df, row)[UpCount(row) - 1] == Edge(c, c) && ChartEdges(df, row)[UpCount(row) + j] == Edge(c, c) by {
      ChartEdgesShape(df, row);
    }
  }

  /** When mgr_1 and mgr_2 are the same person there is one node for them, coloured as mgr_2. */
  lemma SameManagers(df: seq<Row>, row: Row)
    requires row.clientName.Some? && AllNamed(df)
    requires row.manager1.Some? && row.manager2 == row.manager1
    ensures exists k :: (0 <= k < |ChartNodes(df, row)| &&
      ChartNodes(df, row)[k] == Node(row.manager1.value, row.manager1.value, SecondManagerColor) &&
      forall j :: 0 <= j < |ChartNodes(df, row)| && j != k ==> ChartNodes(df, row)[j].id != row.manager1.value)
    ensures ChartEdges(df, row)[0] == Edge(row.manager1.value, row.manager1.value)
  {
    var m := row.manager1.value;
    ChartNodeIds(df, row);
    ChartNodeColors(df, row);
    ChartEdgesShape(df, row);
    var nodes := ChartNodes(df, row);
    var k := IndexOf(Ids(nodes), m);
    assert nodes[k].id == m;
    forall j | 0 <= j < |nodes| && j != k
      ensures nodes[j].id != m
    {
      assert Ids(nodes)[j] == nodes[j].id;
    }
  }

  /** Every request names a present person. */
  predicate AllPresent(reqs: seq<NodeRequest>) {
    forall i :: 0 <= i < |reqs| ==> reqs[i].name.Some?
  }

  /** The node of every request, in order. */
  function NodesFor(reqs: seq<NodeRequest>): seq<Node>
    requires AllPresent(reqs)
  {
    seq(|reqs|, i requires 0 <= i < |reqs| => NodeFor(reqs[i]))
  }

  /** When every request names a present person and no name repeats, every add_node call adds its node. */
  lemma {:induction false} AddNodesAllFresh(reqs: seq<NodeRequest>)
    requires AllPresent(reqs) && Distinct(Names(reqs))
    ensures AddNodes(reqs) == NodesFor(reqs)
  {
    if reqs != [] {
      var p, q := reqs[..|reqs| - 1], reqs[|reqs| - 1];
      FreshLast(reqs);
      AddNodesAllFresh(p);
      NotRequestedNotAdded(p, q.name.value);
      assert AddNodes(reqs) == Insert(AddNodes(p), q);
    }
  }

  /** A name no request carries gets no node. */
  lemma NotRequestedNotAdded(reqs: seq<NodeRequest>, n: string)
    requires Some(n) !in Names(reqs)
    ensures n !in Ids(AddNodes(reqs))
  {
    AddNodesIds(reqs);
  }

  /**
   * The requests before the last keep both conditions, the last name is not among them, and the
   * nodes of all requests are those of the earlier ones followed by the last one's.
   */
  lemma FreshLast(reqs: seq<NodeRequest>)
    requires reqs != [] && AllPresent(reqs) && Distinct(Names(reqs))
    ensures AllPresent(reqs[..|reqs| - 1]) && Distinct(Names(reqs[..|reqs| - 1]))
    ensures reqs[|reqs| - 1].name.Some? && reqs[|reqs| - 1].name !in Names(reqs[..|reqs| - 1])
    ensures NodesFor(reqs) == NodesFor(reqs[..|reqs| - 1]) + [NodeFor(reqs[|reqs| - 1])]
  {
    var p := reqs[..|reqs| - 1];
    assert Names(p) == Names(reqs)[..|p|];
    assert Names(reqs)[|p|] == reqs[|reqs| - 1].name;
  }

  /** The rows of the worked example below. */
  function ChainRows(alice: string, bob: string, carol: string, dave: string): seq<Row> {
    [Row(Some(alice), Some(bob), Some(carol)), Row(Some(bob), Some(carol), None), Row(Some(dave), Some(alice), Some(bob))]
  }

  lemma ChainReportees(alice: string, bob: string, carol: string, dave: string)
    requires alice != bob && alice != carol
    ensures Reportees(ChainRows(alice, bob, carol, dave), alice) == [ChainRows(alice, bob, carol, dave)[2]]
  {
    var df := ChainRows(alice, bob, carol, dave);
    FilterCons(df[2], [], ReportsTo(alice));
    FilterCons(df[1], [df[2]], ReportsTo(alice));
    FilterCons(df[0], [df[1], df[2]], ReportsTo(alice));
    assert [df[0]] + [df[1], df[2]] == df && [df[1]] + [df[2]] == [df[1], df[2]] && [df[2]] + [] == [df[2]];
  }

  /**
   * A worked example, for any four distinct names: rows (alice, mgr_1 bob, mgr_2 carol),
   * (bob, mgr_1 carol) and (dave, mgr_1 alice, mgr_2 bob); the chart of alice.
   */
  lemma ChainExample(alice: string, bob: string, carol: string, dave: string)
    requires alice != bob && alice != carol && alice != dave && bob != carol && bob != dave && carol != dave
    ensures ChartNodes(ChainRows(alice, bob, carol, dave), ChainRows(alice, bob, carol, dave)[0]) ==
      [Node(carol, carol, SecondManagerColor), Node(bob, bob, FirstManagerColor),
       Node(alice, alice, ClientColor), Node(dave, dave, ReporteeColor)]
    ensures ChartEdges(ChainRows(alice, bob, carol, dave), ChainRows(alice, bob, carol, dave)[0]) ==
      [Edge(carol, bob), Edge(bob, alice), Edge(alice, dave)]
  {
    var df := ChainRows(alice, bob, carol, dave);
    ChainReportees(alice, bob, carol, dave);
    var reqs := ChartRequests(df[0], [df[2]]);
    assert Names(reqs) == [Some(carol), Some(bob), Some(alice), Some(dave)];
    AddNodesAllFresh(reqs);
  }

  function TwinRows(ann: string, bo: string): seq<Row> {
    [Row(Some(ann), None, None), Row(Some(bo), Some(ann), None), Row(Some(bo), Some(ann), None)]
  }

  lemma TwinReportees(ann: string, bo: string)
    requires ann != bo
    ensures Reportees(TwinRows(ann, bo), ann) == TwinRows(ann, bo)[1..]
  {
    var df := TwinRows(ann, bo);
    FilterCons(df[2], [], ReportsTo(ann));
    FilterCons(df[1], [df[2]], ReportsTo(ann));
    FilterCons(df[0], [df[1], df[2]], ReportsTo(ann));
    assert [df[0]] + [df[1], df[2]] == df && [df[1]] + [df[2]] == [df[1], df[2]] && [df[2]] + [] == [df[2]];
  }

  /**
   * Two rows with the same name reporting to the client give one node but two edges: the chart can
   * have fewer report nodes than rows reporting to the client.
   */
  lemma DuplicateReportee(ann: string, bo: string)
    requires ann != bo
    ensures ChartNodes(TwinRows(ann, bo), TwinRows(ann, bo)[0]) == [Node(ann, ann, ClientColor), Node(bo, bo, ReporteeColor)]
    ensures ChartEdges(TwinRows(ann, bo), TwinRows(ann, bo)[0]) == [Edge(ann, bo), Edge(ann, bo)]
  {
    var df := TwinRows(ann, bo);
    TwinReportees(ann, bo);
    var reqs := ChartRequests(df[0], df[1..]);
    assert reqs == [] + [reqs[0]] + [reqs[1]] + [reqs[2]] + [reqs[3]] + [reqs[4]];
    var n3 := [Node(ann, ann, ClientColor)];
    var n4 := n3 + [Node(bo, bo, ReporteeColor)];
    AddNodesSnoc([], reqs[0]);
    AddNodesSnoc([] + [reqs[0]], reqs[1]);
    AddNodesSnoc([] + [reqs[0]] + [reqs[1]], reqs[2]);
    assert AddNodes([] + [reqs[0]] + [reqs[1]] + [reqs[2]]) == n3;
    AddNodesSnoc([] + [reqs[0]] + [reqs[1]] + [reqs[2]], reqs[3]);
    assert Ids(n3) == [ann];
    assert AddNodes([] + [reqs[0]] + [reqs[1]] + [reqs[2]] + [reqs[3]]) == n4;
    AddNodesSnoc([] + [reqs[0]] + [reqs[1]] + [reqs[2]] + [reqs[3]], reqs[4]);
    assert Ids(n4)[1] == bo;
  }

  /** The first three add_node calls of the builder, from no nodes. */
  lemma UpwardRequests(row: Row)
    ensures AddNodes(ChartRequests(row, [])) ==
      Insert(Insert(Insert([], NodeRequest(row.manager2, None, SecondManagerColor)),
                    NodeRequest(row.manager1, None, FirstManagerColor)),
             NodeRequest(row.clientName, None, ClientColor))
  {
    var up := ChartRequests(row, []);
    assert up == [] + [up[0]] + [up[1]] + [up[2]];
    AddNodesSnoc([], up[0]);
    AddNodesSnoc([] + [up[0]], up[1]);
    AddNodesSnoc([] + [up[0]] + [up[1]], up[2]);
  }

  /** One more reporting row adds one add_node call. */
  lemma ReporteeNodeStep(row: Row, reps: seq<Row>, i: nat)
    requires i < |reps|
    ensures AddNodes(ChartRequests(row, reps[..i + 1])) ==
      Insert(AddNodes(ChartRequests(row, reps[..i])), NodeRequest(reps[i].clientName, None, ReporteeColor))
  {
    var reqs := ChartRequests(row, reps[..i]);
    var req := NodeRequest(reps[i].clientName, None, ReporteeColor);
    assert ReporteeRequests(reps[..i + 1]) == ReporteeRequests(reps[..i]) + [req];
    assert ChartRequests(row, reps[..i + 1]) == reqs + [req];
    AddNodesSnoc(reqs, req);
  }

  /** One more reporting row adds one edge from the client. */
  lemma ReporteeEdgeStep(client: string, reps: seq<Row>, i: nat)
    requires AllNamed(reps) && i < |reps|
    ensures AllNamed(reps[..i]) && AllNamed(reps[..i + 1]) && reps[i].clientName.Some?
    ensures ReporteeEdges(client, reps[..i + 1]) ==
      ReporteeEdges(client, reps[..i]) + [Edge(client, reps[i].clientName.value)]
  {
    assert reps[i] in reps;
    forall r | r in reps[..i + 1]
      ensures r in reps
    {
      var j := IndexOf(reps[..i + 1], r);
      assert reps[j] == r;
    }
  }

  /** The facts about the chart that the builder's contract states. */
  lemma ChartSummary(df: seq<Row>, row: Row)
    requires row.clientName.Some? && AllNamed(df)
    ensures Distinct(Ids(ChartNodes(df, row))) && row.clientName.value in Ids(ChartNodes(df, row))
    ensures |ChartEdges(df, row)| == UpCount(row) + |MaskIndices(df, ReportsTo(row.clientName.value))|
  {
    ChartNodeIds(df, row);
    ChartEdgesShape(df, row);
  }

  /** The builder's first part: add_node for mgr_2, mgr_1 and the client, then the upward edges. */
  method AddManagers(row: Row) returns (nodes: seq<Node>, added: set<string>, edges: seq<Edge>)
    requires row.clientName.Some?
    ensures nodes == AddNodes(ChartRequests(row, [])) && added == IdSet(nodes)
    ensures edges == UpwardEdges(row)
  {
    var client, mgr1, mgr2 := row.clientName.value, row.manager1, row.manager2;
    nodes, added, edges := [], {}, [];
    nodes, added := AddNode(nodes, added, mgr2, None, SecondManagerColor);
    nodes, added := AddNode(nodes, added, mgr1, None, FirstManagerColor);
    nodes, added := AddNode(nodes, added, Some(client), None, ClientColor);
    UpwardRequests(row);

    if mgr2.Some? && mgr1.Some? {
      edges := edges + [Edge(mgr2.value, mgr1.value)];
    }
    if mgr1.Some? {
      edges := edges + [Edge(mgr1.value, client)];
    }
  }

  /**
   * The builder: the managers' part, then one add_node call and one edge per reporting row.
   */
  method BuildOrgChart(df: seq<Row>, row: Row) returns (nodes: seq<Node>, edges: seq<Edge>)
    requires row.clientName.Some? && AllNamed(df)
    ensures nodes == ChartNodes(df, row) && edges == ChartEdges(df, row)
    ensures Distinct(Ids(nodes)) && row.clientName.value in Ids(nodes)
    ensures |edges| == UpCount(row) + |MaskIndices(df, ReportsTo(row.clientName.value))|
  {
    var client := row.clientName.value;
    var added;
    nodes, added, edges := AddManagers(row);

    var reportees := Reportees(df, client);
    assert AllNamed(reportees);
    assert reportees[..0] == [];
    for i := 0 to |reportees|
      invariant AllNamed(reportees[..i])
      invariant added == IdSet(nodes)
      invariant nodes == AddNodes(ChartRequests(row, reportees[..i]))
      invariant edges == UpwardEdges(row) + ReporteeEdges(client, reportees[..i])
    {
      var rName := reportees[i].clientName;
      ReporteeNodeStep(row, reportees, i);
      ReporteeEdgeStep(client, reportees, i);
      nodes, added := AddNode(nodes, added, rName, None, ReporteeColor);
      edges := edges + [Edge(client, rName.value)];
    }
    assert reportees[..|reportees|] == reportees;
    ChartSummary(df, row);
  }
}
