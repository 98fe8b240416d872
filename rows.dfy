/**
 * One stakeholder row of the uploaded sheet, and the three steps that prepare the rows and pick one:
 * drop the rows without a `Client Name`, list the distinct names, and resolve a chosen name
 * to the first row that carries it (app.py lines 93-101).
 */
module Rows {
  import opened Wrappers
  import opened Seqs

  /**
   * The columns the org chart reads. `None` is a cell pandas reads as NaN; NaN compares unequal
   * to everything, so `None` never equals a name.
   */
  datatype Row = Row(clientName: Option<string>, manager1: Option<string>, manager2: Option<string>)

  predicate HasClientName(r: Row) {
    r.clientName.Some?
  }

  /** Every row carries a client name: what the frame satisfies after the dropna step. */
  predicate AllNamed(df: seq<Row>) {
    forall r :: r in df ==> HasClientName(r)
  }

  /** The `Client Name` column. */
  function ClientNames(df: seq<Row>): seq<Option<string>> {
    seq(|df|, i requires 0 <= i < |df| => df[i].clientName)
  }

  /** A name occurs in the column exactly when some row carries it. */
  lemma NameInColumn(df: seq<Row>, n: string)
    ensures Some(n) in ClientNames(df) <==> exists r :: r in df && r.clientName == Some(n)
  {
    if Some(n) in ClientNames(df) {
      var i := IndexOf(ClientNames(df), Some(n));
      assert df[i] in df && df[i].clientName == Some(n);
    }
    if r :| r in df && r.clientName == Some(n) {
      var i := IndexOf(df, r);
      assert ClientNames(df)[i] == Some(n);
    }
  }

  /** `df.dropna(subset=["Client Name"])`. */
  function DropMissingNames(df: seq<Row>): (r: seq<Row>)
    ensures AllNamed(r)
    ensures forall row :: row in r <==> row in df && HasClientName(row)
  {
    Filter(df, HasClientName)
  }

  /** Dropping works row by row: it distributes over any split of the frame, so the order is kept. */
  lemma DropMissingNamesKeepsOrder(a: seq<Row>, b: seq<Row>)
    ensures DropMissingNames(a + b) == DropMissingNames(a) + DropMissingNames(b)
  {
    FilterAppend(a, b, HasClientName);
  }

  /** A frame in which every row is named is left as it is; in particular dropping twice is dropping once. */
  lemma DropMissingNamesIdentity(df: seq<Row>)
    ensures AllNamed(df) ==> DropMissingNames(df) == df
    ensures DropMissingNames(DropMissingNames(df)) == DropMissingNames(df)
  {
    FilterAll(DropMissingNames(df), HasClientName);
    if AllNamed(df) {
      FilterAll(df, HasClientName);
    }
  }

  /** The frame after dropping has one row per row with a present name. */
  lemma DropMissingNamesCount(df: seq<Row>)
    ensures |DropMissingNames(df)| == |MaskIndices(df, HasClientName)|
  {
    FilterCount(df, HasClientName);
  }

  /** `df["Client Name"].dropna().unique()`: the selectable stakeholders. */
  function StakeholderNames(df: seq<Row>): (names: seq<string>)
    ensures Distinct(names)
    ensures forall n :: n in names <==> Some(n) in ClientNames(df)
  {
    Unique(Present(ClientNames(df)))
  }

  /** The names are listed in the order of their first row, not sorted. */
  lemma StakeholderNamesInFirstAppearanceOrder(df: seq<Row>)
    ensures forall i, j :: 0 <= i < j < |StakeholderNames(df)| ==>
      IndexOf(ClientNames(df), Some(StakeholderNames(df)[i])) < IndexOf(ClientNames(df), Some(StakeholderNames(df)[j]))
  {
    var col := ClientNames(df);
    var names := StakeholderNames(df);
    UniqueOrder(Present(col));
    forall i, j | 0 <= i < j < |names|
      ensures IndexOf(col, Some(names[i])) < IndexOf(col, Some(names[j]))
    {
      PresentOrder(col, names[i], names[j]);
    }
  }

  /** The mask `df["Client Name"] == name`. */
  function IsNamed(name: string): Row -> bool {
    (r: Row) => r.clientName == Some(name)
  }

  /** `df[df["Client Name"] == name].iloc[0]`, with `None` where pandas raises IndexError for no match. */
  function Resolve(df: seq<Row>, name: string): (r: Option<Row>)
    ensures r.Some? <==> Some(name) in ClientNames(df)
    ensures r.Some? ==> r.value == df[IndexOf(ClientNames(df), Some(name))]
  {
    FirstMatch(df, name);
    var hits := Filter(df, IsNamed(name));
    if hits == [] then None else Some(hits[0])
  }

  /** The head of the name mask's selection is the first row with that name. */
  lemma {:induction false} FirstMatch(df: seq<Row>, name: string)
    ensures Filter(df, IsNamed(name)) != [] <==> Some(name) in ClientNames(df)
    ensures Filter(df, IsNamed(name)) != [] ==>
      Filter(df, IsNamed(name))[0] == df[IndexOf(ClientNames(df), Some(name))]
  {
    if df != [] {
      assert ClientNames(df)[0] == df[0].clientName;
      assert ClientNames(df)[1..] == ClientNames(df[1..]);
      assert ClientNames(df) == [df[0].clientName] + ClientNames(df[1..]);
      FirstMatch(df[1..], name);
    }
  }

  /** Resolving in the frame after dropping finds the same row as resolving in the uploaded frame. */
  lemma ResolveAfterDropMissing(raw: seq<Row>, name: string)
    ensures Resolve(DropMissingNames(raw), name) == Resolve(raw, name)
  {
    FilterNarrowing(raw, HasClientName, IsNamed(name));
  }

  /** A name taken from the stakeholder list always resolves, to the first uploaded row with that name. */
  lemma SelectedNameResolves(raw: seq<Row>, name: string)
    requires name in StakeholderNames(DropMissingNames(raw))
    ensures Resolve(DropMissingNames(raw), name).Some?
    ensures Resolve(DropMissingNames(raw), name).value.clientName == Some(name)
    ensures Some(name) in ClientNames(raw)
    ensures Resolve(DropMissingNames(raw), name).value == raw[IndexOf(ClientNames(raw), Some(name))]
  {
    ResolveAfterDropMissing(raw, name);
  }

  /** The list offers exactly the names that some uploaded row carries. */
  lemma OfferedNames(raw: seq<Row>)
    ensures forall n :: n in StakeholderNames(DropMissingNames(raw)) <==> Some(n) in ClientNames(raw)
  {
    forall n
      ensures n in StakeholderNames(DropMissingNames(raw)) <==> Some(n) in ClientNames(raw)
    {
      ResolveAfterDropMissing(raw, n);
    }
  }
}
