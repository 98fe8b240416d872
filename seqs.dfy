/**
 * The pandas operations the viewer applies to a column or a frame, as functions on sequences:
 * a boolean-mask selection (Filter), dropping missing cells of a Series (Present),
 * `Series.unique()` (Unique), and the position of the first occurrence of a value (IndexOf).
 */
module Seqs {
  import opened Wrappers

  predicate Distinct<T(==,!new)>(s: seq<T>) {
    forall i, j :: 0 <= i < j < |s| ==> s[i] != s[j]
  }

  /** `s[mask]` where mask is p applied to every element: the elements satisfying p, in their order in s. */
  function Filter<T(==,!new)>(s: seq<T>, p: T -> bool): (r: seq<T>)
    ensures |r| <= |s|
    ensures forall x :: x in r <==> x in s && p(x)
  {
    if s == [] then [] else (if p(s[0]) then [s[0]] else []) + Filter(s[1..], p)
  }

  /** The positions at which the mask is true. */
  function MaskIndices<T>(s: seq<T>, p: T -> bool): set<int> {
    set i | 0 <= i < |s| && p(s[i])
  }

  /** Masking commutes with concatenation, so the selection keeps the order of s. */
  lemma {:induction false} FilterAppend<T(!new)>(a: seq<T>, b: seq<T>, p: T -> bool)
    ensures Filter(a + b, p) == Filter(a, p) + Filter(b, p)
  {
    if a == [] {
      assert a + b == b;
    } else {
      assert (a + b)[1..] == a[1..] + b;
      FilterAppend(a[1..], b, p);
    }
  }

  lemma FilterCons<T(!new)>(x: T, s: seq<T>, p: T -> bool)
    ensures Filter([x] + s, p) == (if p(x) then [x] else []) + Filter(s, p)
  {
    assert ([x] + s)[1..] == s;
  }

  /** The selection has exactly one element per position at which the mask is true. */
  lemma {:induction false} FilterCount<T(!new)>(s: seq<T>, p: T -> bool)
    ensures |Filter(s, p)| == |MaskIndices(s, p)|
  {
    if s == [] {
      assert MaskIndices(s, p) == {};
    } else {
      var s', x := s[..|s| - 1], s[|s| - 1];
      assert s == s' + [x];
      FilterAppend(s', [x], p);
      FilterCons(x, [], p);
      assert [x] + [] == [x];
      FilterCount(s', p);
      MaskIndicesSnoc(s', x, p);
    }
  }

  /** One more element adds its position to the mask's positions exactly when the mask holds for it. */
  lemma MaskIndicesSnoc<T(!new)>(s: seq<T>, x: T, p: T -> bool)
    ensures |s| !in MaskIndices(s, p)
    ensures MaskIndices(s + [x], p) == MaskIndices(s, p) + (if p(x) then {|s|} else {})
  {
    var t := s + [x];
    forall i | 0 <= i < |s|
      ensures t[i] == s[i]
    {
    }
    assert t[|s|] == x;
  }

  /** Selecting by q after selecting by a weaker p is selecting by q alone. */
  lemma {:induction false} FilterNarrowing<T(!new)>(s: seq<T>, p: T -> bool, q: T -> bool)
    requires forall x :: q(x) ==> p(x)
    ensures Filter(Filter(s, p), q) == Filter(s, q)
  {
    if s != [] {
      FilterNarrowing(s[1..], p, q);
      if p(s[0]) {
        var t := Filter(s, p);
        assert t == [s[0]] + Filter(s[1..], p);
        assert t[0] == s[0] && t[1..] == Filter(s[1..], p);
        assert Filter(t, q) == (if q(s[0]) then [s[0]] else []) + Filter(t[1..], q);
      } else {
        assert !q(s[0]);
        assert Filter(s, p) == [] + Filter(s[1..], p) == Filter(s[1..], p);
      }
      assert Filter(s, q) == (if q(s[0]) then [s[0]] else []) + Filter(s[1..], q);
    }
  }

  /** A mask that selects everything leaves the sequence as it is. */
  lemma {:induction false} FilterAll<T(!new)>(s: seq<T>, p: T -> bool)
    requires forall x :: x in s ==> p(x)
    ensures Filter(s, p) == s
  {
    if s != [] {
      FilterAll(s[1..], p);
    }
  }

  /** A mask that selects nothing gives the empty selection. */
  lemma {:induction false} FilterNone<T(!new)>(s: seq<T>, p: T -> bool)
    requires forall x :: x in s ==> !p(x)
    ensures Filter(s, p) == []
  {
    if s != [] {
      FilterNone(s[1..], p);
    }
  }

  /** The position of the first occurrence of x in s. */
  function IndexOf<T(==,!new)>(s: seq<T>, x: T): (i: nat)
    requires x in s
    ensures i < |s| && s[i] == x
    ensures forall j :: 0 <= j < i ==> s[j] != x
  {
    if s[0] == x then 0 else 1 + IndexOf(s[1..], x)
  }

  /** Appending after the first occurrence does not move it. */
  lemma IndexOfPrefix<T(!new)>(s: seq<T>, t: seq<T>, x: T)
    requires x in s
    ensures x in s + t && IndexOf(s + t, x) == IndexOf(s, x)
  {
    var i, k := IndexOf(s + t, x), IndexOf(s, x);
    assert (s + t)[k] == x;
    assert i <= k;
    assert s[i] == x;
  }

  /** The present values of an optional column, in order: `Series.dropna()`. */
  function Present<T(!new)>(s: seq<Option<T>>): (r: seq<T>)
    ensures |r| <= |s|
    ensures forall x :: x in r <==> Some(x) in s
  {
    if s == [] then []
    else
      var s', o := s[..|s| - 1], s[|s| - 1];
      assert s == s' + [o];
      Present(s') + (if o.Some? then [o.value] else [])
  }

  /** The distinct values of s in the order in which they first appear: `Series.unique()`. */
  function Unique<T(==,!new)>(s: seq<T>): (r: seq<T>)
    ensures |r| <= |s|
    ensures Distinct(r)
    ensures forall x :: x in r <==> x in s
  {
    if s == [] then []
    else
      var s', x := s[..|s| - 1], s[|s| - 1];
      assert s == s' + [x];
      var u := Unique(s');
      if x in u then u else u + [x]
  }

  lemma PresentSnoc<T(!new)>(s: seq<Option<T>>, o: Option<T>)
    ensures Present(s + [o]) == Present(s) + (if o.Some? then [o.value] else [])
  {
    assert (s + [o])[..|s|] == s;
  }

  lemma UniqueSnoc<T(!new)>(s: seq<T>, x: T)
    ensures Unique(s + [x]) == if x in Unique(s) then Unique(s) else Unique(s) + [x]
  {
    assert (s + [x])[..|s|] == s;
  }

  /** Unique lists the values in the order of their first occurrence in s. */
  lemma {:induction false} UniqueOrder<T(!new)>(s: seq<T>)
    ensures forall i, j :: 0 <= i < j < |Unique(s)| ==> IndexOf(s, Unique(s)[i]) < IndexOf(s, Unique(s)[j])
  {
    if s != [] {
      var s', x := s[..|s| - 1], s[|s| - 1];
      assert s == s' + [x];
      var u := Unique(s');
      UniqueOrder(s');
      forall y | y in s'
        ensures IndexOf(s, y) == IndexOf(s', y)
      {
        IndexOfPrefix(s', [x], y);
      }
      if x !in u {
        assert Unique(s) == u + [x];
        assert IndexOf(s, x) == |s'|;
      }
    }
  }

  /** Dropping the missing cells keeps the relative order of the first occurrences. */
  lemma {:induction false} PresentOrder<T(!new)>(s: seq<Option<T>>, x: T, y: T)
    requires x in Present(s) && y in Present(s)
    requires IndexOf(Present(s), x) < IndexOf(Present(s), y)
    ensures IndexOf(s, Some(x)) < IndexOf(s, Some(y))
  {
    var s', o := s[..|s| - 1], s[|s| - 1];
    assert s == s' + [o];
    var p' := Present(s');
    assert Present(s) == p' + (if o.Some? then [o.value] else []);
    var k := IndexOf(Present(s), x);
    assert k < |p'| && Present(s)[k] == p'[k];
    assert x in p';
    IndexOfPrefix(p', if o.Some? then [o.value] else [], x);
    IndexOfPrefix(s', [o], Some(x));
    if y in p' {
      IndexOfPrefix(p', if o.Some? then [o.value] else [], y);
      IndexOfPrefix(s', [o], Some(y));
      PresentOrder(s', x, y);
    } else {
      assert IndexOf(s, Some(y)) == |s'|;
    }
  }
}
