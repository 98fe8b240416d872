/**
 * The page flow after a sheet is loaded (app.py lines 93-142): drop the unnamed rows, take the
 * stakeholder chosen from the list, resolve it to its first row and build that row's org chart.
 * The sheet's rows and the chosen name are inputs; the widgets that produce them are not kept.
 */
module App {
  import opened Wrappers
  import opened Seqs
  import opened Rows
  import opened OrgChart

  /** What the page shows below the stakeholder list. */
  datatype Outcome =
    | NothingSelected                                     // `if selected_client:` fails
    | NotFound                                            // `.iloc[0]` of an empty selection raises
    | Shown(row: Row, nodes: seq<Node>, edges: seq<Edge>)

  /**
   * A chosen name that is absent or empty shows nothing; a name no row carries has no row; any other
   * name shows the chart of the first uploaded row carrying it, built from the named rows.
   */
  method ShowOrgChart(raw: seq<Row>, selected: Option<string>) returns (out: Outcome)
    ensures !Truthy(selected) <==> out == NothingSelected
    ensures out == NotFound <==> Truthy(selected) && selected !in ClientNames(raw)
    ensures out.Shown? ==>
      selected in ClientNames(raw) && out.row == raw[IndexOf(ClientNames(raw), selected)] &&
      out.row.clientName == selected &&
      out.nodes == ChartNodes(DropMissingNames(raw), out.row) &&
      out.edges == ChartEdges(DropMissingNames(raw), out.row)
    ensures out.Shown? ==> Distinct(Ids(out.nodes)) && selected.value in Ids(out.nodes)
    ensures Truthy(selected) && selected.value in StakeholderNames(DropMissingNames(raw)) ==> out.Shown?
  {
    var df := DropMissingNames(raw);
    if !Truthy(selected) {
      return NothingSelected;
    }
    var name := selected.value;
    var found := Resolve(df, name);
    ResolveAfterDropMissing(raw, name);
    OfferedNames(raw);
    if found.None? {
      return NotFound;
    }
    var row := found.value;
    var nodes, edges := BuildOrgChart(df, row);
    out := Shown(row, nodes, edges);
  }
}
