# Stakeholder 360: the org-chart and details core

Stakeholder 360 is a Streamlit page. It loads a sheet of stakeholder rows, lets the user pick one
stakeholder by name, and then shows two things: a small org chart around that person and tables
of the person's details. This project models the logic behind that page in Dafny:

- **Rows** (`rows.dfy`): a row keeps the three columns that the chart reads ("Client Name",
  "1st degree Manager" and "2nd Degree Manager"). Each cell is an `Option<string>`, where `None`
  stands for a cell that pandas reads as NaN. The module models three steps:
  - dropping rows that have no client name;
  - listing the distinct names, in the order they first appear;
  - resolving a chosen name to the first row that carries it.
- **Seqs** (`seqs.dfy`): the pandas operations those steps use, written on sequences:
  - boolean-mask selection (`Filter`);
  - `dropna` on a column (`Present`);
  - `unique` (`Unique`);
  - the position of the first match (`IndexOf`).
- **OrgChart** (`org_chart.dfy`): the chart builder.
  - `AddNode` is one `add_node` call: it keeps the node list and the `added` seen-set, skips a
    missing name, and skips a name already added, so the first write wins.
  - `BuildOrgChart` is the imperative builder. It makes the three manager and client calls, adds
    the two conditional upward edges, then loops over the reporting rows.
  - The method is proved against the functions `ChartNodes` and `ChartEdges`. The lemmas prove what
    those functions guarantee: unique ids, first-write-wins colours, the edge shape and count, and
    worked examples.
- **InfoTable** (`info_table.dfy`): the value cells of the details tables. A present value under a
  key that starts with "linkedin" (ignoring case) becomes a link. A missing value becomes "-". Any
  other value is shown as it is. `RenderTable` is the loop over one dictionary.
- **App** (`app.dfy`): the page flow from the uploaded rows and the chosen name to what is shown:
  nothing, no row, or a chart.

Rows keep exactly the order they have in the sheet.

Points the code decides that are easy to miss:

- The builder runs only on the frame after the drop step (`AllNamed`). That is how the page calls
  it, so every reporting row has a name and every report edge has a target.
- `if selected_client:` is Python truthiness. An absent choice and the empty string both show
  nothing (`Truthy`).
- For a name that no row carries, `.iloc[0]` raises. The model reports this as `NotFound`
  (`Resolve` returns `None`). A name taken from the list can never reach that case.
- The list of names is in first-appearance order. The code does not sort it.
- Report nodes are deduplicated, but report edges are not. Two rows with the same name reporting
  to the client give one node and two edges (`OrgChart.DuplicateReportee`). So the chart does
  not always have one report node per reporting row.

## Model

| member | source | states |
|---|---|---|
| Rows.DropMissingNames | app.py:93 | every row left has a client name, and a row is kept exactly when it has one |
| Rows.DropMissingNamesKeepsOrder | app.py:93 | dropping distributes over any split of the frame, so the rows keep their order |
| Rows.DropMissingNamesIdentity | app.py:93 | a fully named frame is unchanged; dropping twice is the same as dropping once |
| Rows.DropMissingNamesCount | app.py:93 | the frame left has exactly as many rows as there are rows with a name |
| Rows.HasClientName | app.py:93 | definition (no contract) of the present-name test of the drop step; its properties are proved by `DropMissingNames` and `DropMissingNamesCount` |
| Rows.AllNamed | app.py:93 | definition (no contract) of the frame after the drop step; `DropMissingNames` ensures it |
| Rows.NameInColumn | app.py:96 | a name occurs in the Client Name column exactly when some row carries it |
| Rows.ClientNames | app.py:96 | definition (no contract); its properties are proved by `NameInColumn`, `StakeholderNames` and `Resolve` |
| Rows.StakeholderNames | app.py:96 | the listed names have no duplicates, and a name is listed exactly when some row carries it |
| Rows.StakeholderNamesInFirstAppearanceOrder | app.py:96 | listed names are in the order of their first row, not sorted |
| Rows.OfferedNames | app.py:93-96 | after the drop step, the list offers exactly the names that some uploaded row carries |
| Rows.Resolve | app.py:101 | the row is found exactly when the name is in the column, and it is the row at the name's first position |
| Rows.IsNamed | app.py:101 | definition (no contract); its properties are proved by `FirstMatch`, `Resolve` and `ResolveAfterDropMissing` |
| Rows.FirstMatch | app.py:101 | the first row of the name mask's selection is the row at the name's first position |
| Rows.ResolveAfterDropMissing | app.py:93-101 | resolving after the drop finds the same row as resolving in the uploaded frame |
| Rows.SelectedNameResolves | app.py:96-101 | a name from the list always resolves, to a row carrying that name, which is the first uploaded row with it |
| Seqs.Filter | app.py:138 | mask selection keeps exactly the elements satisfying the mask and never grows |
| Seqs.FilterAppend | app.py:138 | mask selection distributes over concatenation, so it keeps order |
| Seqs.FilterCons | app.py:138 | proof helper, unfolding the definition: selecting from an element followed by a frame gives that element's part followed by the frame's part |
| Seqs.FilterCount | app.py:138 | the selection's length is the number of positions where the mask holds |
| Seqs.MaskIndicesSnoc | app.py:138 | proof helper, unfolding the definition: one more element adds its position to the mask's positions exactly when the mask holds for it |
| Seqs.FilterNarrowing | app.py:93-101 | selecting by a narrower mask after a wider one is the same as selecting by the narrower mask alone |
| Seqs.FilterAll | app.py:93 | a mask that holds everywhere selects the whole frame |
| Seqs.FilterNone | app.py:138 | a mask that holds nowhere selects nothing |
| Seqs.IndexOf | app.py:101 | the first position holding the value |
| Seqs.IndexOfPrefix | app.py:101 | a value's first position does not change when elements are appended |
| Seqs.Present | app.py:96 | `dropna` on a column keeps exactly the present values |
| Seqs.PresentSnoc | app.py:96 | proof helper, unfolding the definition: `dropna` of the column with one more cell appends that cell's value only when it is present |
| Seqs.PresentOrder | app.py:96 | `dropna` keeps the relative order of first appearances |
| Seqs.Unique | app.py:96 | `unique` has no duplicates and keeps exactly the values of its input |
| Seqs.UniqueSnoc | app.py:96 | proof helper, unfolding the definition: one more value is appended by `unique` only when it was not seen before |
| Seqs.UniqueOrder | app.py:96 | `unique` lists values in the order of their first appearance |
| OrgChart.AddNode | app.py:113-123 | a present, unseen name appends its node and joins the seen-set; otherwise nothing changes; with a seen-set matching the nodes the call is `Insert` |
| OrgChart.NodeFor | app.py:116-122 | definition (no contract) of the node one call builds; its properties are proved by `AddNode`, `AddNodesFirstWriteWins` and `ChartNodeColors` |
| OrgChart.Label | app.py:115 | definition (no contract): the name, followed by a newline and the title when the title is truthy; `AddNode` and `NodeFor` use it |
| OrgChart.Insert | app.py:113-123 | definition (no contract); its properties are proved by `AddNode`, `AddNodesSnoc` and `FirstWriteKept` |
| OrgChart.AddNodes | app.py:113-123 | definition (no contract); its properties are proved by `AddNodesIds`, `AddNodesFirstWriteWins` and `AddNodesAllFresh` |
| OrgChart.AddNodesIds | app.py:113-123 | the node ids after a series of calls are the present names requested, each once, in the order of first request |
| OrgChart.AddNodesSnoc | app.py:113-123 | proof helper, unfolding the definition: one more call adds its node to the nodes of the earlier calls |
| OrgChart.AddNodesFirstWriteWins | app.py:113-123 | every node is built from the earliest call naming it; later calls for the same name change nothing |
| OrgChart.FirstWriteKept | app.py:113-123 | a node already built is left as it is by a later call |
| OrgChart.AddNodesAllFresh | app.py:113-123 | when all requested names are present and distinct, every call adds its node, in order |
| OrgChart.FreshLast | app.py:113-123 | the requests before the last are still all present and distinct, and the last name is not among them |
| OrgChart.NotRequestedNotAdded | app.py:113-123 | a name no call carries gets no node |
| OrgChart.Reportees | app.py:138 | the reporting rows are exactly the rows whose first-degree manager is the client |
| OrgChart.ReportsTo | app.py:138 | definition (no contract); its properties are proved by `Reportees` and `ReporteesKeepOrder` |
| OrgChart.ReporteesKeepOrder | app.py:138-139 | the reporting rows of a split frame are those of each part, in frame order |
| OrgChart.ChartRequestNames | app.py:127-141 | proof helper, unfolding the definition: the names requested, in order, are mgr_2, mgr_1, the client, then each reporting row's name |
| OrgChart.ReporteeRequests | app.py:139-141 | definition (no contract) of the loop's `add_node` arguments; its properties are proved by `ChartRequestNames` and `ReporteeNodeStep` |
| OrgChart.ChartRequests | app.py:127-141 | definition (no contract); its properties are proved by `ChartRequestNames`, `ChartNodeIds` and `ChartNodeColors` |
| OrgChart.ChartNodes | app.py:109-142 | definition (no contract); its properties are proved by `ChartNodeIds`, `ChartNodeColors` and `LoneClient`; `BuildOrgChart` computes it |
| OrgChart.UpCount | app.py:132-135 | definition (no contract) of the number of upward edges; its properties are proved by `ChartEdgesShape` |
| OrgChart.UpwardEdges | app.py:131-135 | definition (no contract); its properties are proved by `ChartEdgesShape`; `AddManagers` computes it |
| OrgChart.ReporteeEdges | app.py:139-142 | definition (no contract); its properties are proved by `ChartEdgesShape` and `ReporteeEdgeStep` |
| OrgChart.ChartEdges | app.py:109-142 | definition (no contract); its properties are proved by `ChartEdgesShape`, `LoneClient` and `DuplicateReportee`; `BuildOrgChart` computes it |
| OrgChart.RoleColor | app.py:127-141 | definition (no contract); its properties are proved by `ChartNodeColors` |
| OrgChart.ChartNodeIds | app.py:113-141 | no two nodes share an id; a node exists exactly for a present mgr_2, a present mgr_1, the client and each reporting row's name; the client always has a node; there are at most three more nodes than reporting rows |
| OrgChart.ChartNodeColors | app.py:113-141 | each node is labelled with its name, and its colour is the first role naming it, in the order mgr_2 gray, mgr_1 blue, client green, reportee yellow |
| OrgChart.ChartEdgesShape | app.py:131-142 | the edge count is [mgr_2 and mgr_1 present] + [mgr_1 present] + the number of reporting rows; mgr_2 to mgr_1 comes first when both are present; mgr_1 to client comes next when mgr_1 is present; then one client edge per reporting row, in order, targeting that row's name |
| OrgChart.LoneClient | app.py:127-142 | with no managers and no reporting rows, the chart is the client's green node alone, with no edges |
| OrgChart.SelfManagedClient | app.py:127-142 | a client who is their own first-degree manager, when mgr_2 is not also the client, gets mgr_1's blue node and two self-edges |
| OrgChart.SameManagers | app.py:127-133 | when mgr_1 equals mgr_2 there is one gray node for that person and a self-edge first |
| OrgChart.ChainReportees | app.py:138 | in the worked example, only dave's row reports to alice |
| OrgChart.ChainExample | app.py:109-142 | the worked example: nodes carol (gray), bob (blue), alice (green), dave (yellow); edges carol to bob, bob to alice, alice to dave |
| OrgChart.TwinReportees | app.py:138 | in the duplicate example, both rows naming bo report to ann |
| OrgChart.DuplicateReportee | app.py:139-142 | two reporting rows with the same name give one node but two edges |
| OrgChart.UpwardRequests | app.py:127-129 | the first three calls are `Insert` of mgr_2, mgr_1 and the client, in that order |
| OrgChart.ReporteeNodeStep | app.py:139-141 | each reporting row adds one `add_node` call to the series |
| OrgChart.ReporteeEdgeStep | app.py:139-142 | proof helper, unfolding the definition: each reporting row appends one edge from the client to its name |
| OrgChart.ChartSummary | app.py:109-142 | the chart's ids are distinct and include the client, and its edge count follows the formula |
| OrgChart.AddManagers | app.py:125-135 | after the three manager and client calls and the upward edges, the nodes are `AddNodes` of the first three requests, the seen-set holds their ids, and the edges are `UpwardEdges` |
| OrgChart.BuildOrgChart | app.py:104-142 | the builder's nodes and edges are `ChartNodes` and `ChartEdges`, with distinct ids, a client node and the stated edge count |
| InfoTable.Lower | app.py:19 | no upper-case ASCII letter and no Kelvin sign is left in the result, and every other character is kept in place (the length is kept only for the characters modelled; see Left out) |
| InfoTable.StartsWith | app.py:19 | definition (no contract) of `str.startswith`; its properties are proved by `LinkKeyCharacterization`, `LinkKeyByPrefix` and `LinkKeyExamples` |
| InfoTable.LowerChar | app.py:19 | definition (no contract); its properties are proved by `Lower`, `LowerIdempotent` and `LinkKeyCharacterization` |
| InfoTable.IsLinkKey | app.py:19 | definition (no contract); its properties are proved by `LinkKeyCharacterization`, `LinkKeyIgnoresCase`, `LinkKeyByPrefix` and `LinkKeyExamples` |
| InfoTable.LinkKeyCharacterization | app.py:19 | a key is a LinkedIn key exactly when it has at least eight characters and they spell "linkedin" letter by letter in either case, with the Kelvin sign also accepted for k |
| InfoTable.LinkText | app.py:20-21 | the link text is "linkedin/" followed by the name for links when it is given and non-empty, and by the value otherwise |
| InfoTable.FormatCell | app.py:18-23 | a cell is a link exactly when its key is a LinkedIn key and the value is present, and the link goes to the value; a missing value shows "-"; any other value is shown unchanged |
| InfoTable.LowerIdempotent | app.py:19 | lower-casing twice is lower-casing once |
| InfoTable.LinkKeyIgnoresCase | app.py:19 | whether a key is a LinkedIn key does not depend on its case |
| InfoTable.LinkKeyByPrefix | app.py:19 | only a key's first eight characters decide whether it is a LinkedIn key |
| InfoTable.LinkKeyExamples | app.py:19 | "LinkedIn URL" and "LINKEDIN" are LinkedIn keys, and so is one spelled with the Kelvin sign; "MathCo LinkedIn Connects" and "Linked In" are not |
| InfoTable.RenderTable | app.py:18-31 | the table has one row per entry, in order, each holding the key and its formatted cell |
| App.ShowOrgChart | app.py:93-142 | an absent or empty choice shows nothing; a name no row carries has no row; otherwise the chart of the first uploaded row with that name is shown, built from the named rows, with distinct ids including the client; every name from the list is shown |
| Wrappers.Truthy | app.py:99 | definition (no contract) of Python truthiness for an optional string, as at line 99 and in `name_for_link or v` at line 20; used by `Label`, and by `LinkText` and `ShowOrgChart`, whose contracts state its two cases |

## Left out

- Page layout, widgets, CSS and the HTML strings (app.py lines 5-16, 24-34, 39-79, 144-163): these
  are presentation. The chosen sheet and the chosen stakeholder are inputs to the model. The
  "-- Select Sheet --" guard and `st.stop()` are not modelled.
- Reading the Excel file (`pd.ExcelFile`, `read_excel`): this is I/O. The rows are given as a
  sequence.
- `df["Vendor CompanyName"].fillna("-")` (line 89): its result is thrown away, so it has no effect
  unless the column is absent, when it raises KeyError.
- A sheet that lacks any column the page reads raises KeyError and the page stops: "Vendor
  CompanyName" at line 89, "Client Name" at lines 93 and 96, "1st degree Manager" and "2nd Degree
  Manager" at lines 105-106 and 138, and the columns of the details tables at lines 173-225.
  `Rows.Row` cannot represent a missing column, so the model assumes every column exists.
- The seven field dictionaries passed to `render_info_table` (lines 172-226): these are fixed column
  lists. `RenderTable` models what is done with any one of them.
- Node shape, font size and the agraph `Config`: they are the same for every node, so `Node` keeps
  only id, label (the field `caption`) and colour.
- Columns other than the three the chart reads are not part of `Rows.Row`.
- Cell values are modelled as strings. Numbers and dates, which an f-string would format, are not.
- InfoTable.Lower: this is not all of Python's `str.lower`. It maps A-Z and the Kelvin sign U+212A,
  the only characters whose lower-case form begins with an ASCII letter of "linkedin" and that can
  change the prefix test. U+0130 lower-cases to "i" followed by U+0307, so it can never complete
  the prefix. Every other character is left unchanged.
- InfoTable.FormatCell: a Python dictionary literal with a repeated key keeps only the last value.
  `RenderTable` takes the entries as a sequence, and the tables in the code repeat no key.
- InfoTable.FormatCell: the name for links is an `Option<string>`. The page passes the row's client
  name, which is never NaN after the drop step, so a NaN name for links is not modelled. A NaN
  would be truthy in Python.
- InfoTable.FormatCell: a present value "-" shows the same as a missing value. So the contract
  states "missing gives -" in one direction only.
- The list offered by the stakeholder dropdown is what `StakeholderNames` returns. Which entry the
  dropdown preselects is a widget behaviour and is not modelled.
- The code neither filters rows across several columns nor sorts the list of names, so neither is
  modelled.
