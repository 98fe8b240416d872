/**
 * The two-column details tables (app.py lines 5-34): each entry of a section's dictionary becomes a
 * row whose value cell is a LinkedIn link, the placeholder "-" or the value itself.
 * The HTML around the cells, the section title and its colour are presentation and are not kept.
 */
module InfoTable {
  import opened Wrappers

  /** A value cell: an anchor to href showing text, or plain text. */
  datatype Cell = Link(href: string, text: string) | Text(s: string)

  /** The prefix a key must start with, after lower-casing, for its value to become a link. */
  const LinkPrefix := "linkedin"

  /** The placeholder shown for a missing value. */
  const Missing := "-"

  /** The character-wise lower-casing of Python's `str.lower` as far as it can yield an ASCII letter. */
  function LowerChar(c: char): char {
    if 'A' <= c <= 'Z' then (c as int + 32) as char
    else if c == '\U{212A}' then 'k'  // KELVIN SIGN lower-cases to the ASCII letter k
    else c
  }

  /** No upper-case ASCII letter and no Kelvin sign is left, and every other character stays where it was. */
  function Lower(s: string): (r: string)
    ensures |r| == |s|
    ensures forall i :: 0 <= i < |r| ==> !('A' <= r[i] <= 'Z') && r[i] != '\U{212A}'
    ensures forall i :: 0 <= i < |s| && !('A' <= s[i] <= 'Z') && s[i] != '\U{212A}' ==> r[i] == s[i]
  {
    seq(|s|, i requires 0 <= i < |s| => LowerChar(s[i]))
  }

  predicate StartsWith(s: string, prefix: string) {
    |prefix| <= |s| && s[..|prefix|] == prefix
  }

  /** `k.lower().startswith("linkedin")`. */
  predicate IsLinkKey(key: string) {
    StartsWith(Lower(key), LinkPrefix)
  }

  /** The text of a link: "linkedin/" followed by `name_for_link or v`. */
  function LinkText(value: string, nameForLink: Option<string>): (t: string)
    ensures Truthy(nameForLink) ==> t == "linkedin/" + nameForLink.value
    ensures !Truthy(nameForLink) ==> t == "linkedin/" + value
  {
    "linkedin/" + (if Truthy(nameForLink) then nameForLink.value else value)
  }

  /**
   * The value cell of one entry. A present value under a LinkedIn key becomes a link to that value,
   * labelled with the name for links when one is given and non-empty and with the value otherwise;
   * the link test comes first. A missing value becomes "-"; any other value is shown unchanged.
   */
  function FormatCell(key: string, value: Option<string>, nameForLink: Option<string>): (c: Cell)
    ensures c.Link? <==> IsLinkKey(key) && value.Some?
    ensures c.Link? ==> c.href == value.value && c.text == LinkText(value.value, nameForLink)
    ensures value.None? ==> c == Text(Missing)
    ensures value.Some? && !IsLinkKey(key) ==> c == Text(value.value)
  {
    if IsLinkKey(key) && value.Some? then Link(value.value, LinkText(value.value, nameForLink))
    else if value.None? then Text(Missing)
    else Text(value.value)
  }

  /** Lower-casing a second time changes nothing. */
  lemma LowerIdempotent(s: string)
    ensures Lower(Lower(s)) == Lower(s)
  {
    forall i | 0 <= i < |s|
      ensures LowerChar(LowerChar(s[i])) == LowerChar(s[i])
    {
    }
  }

  /** Whether a key is a LinkedIn key does not depend on its letter case. */
  lemma LinkKeyIgnoresCase(key: string)
    ensures IsLinkKey(Lower(key)) <==> IsLinkKey(key)
  {
    LowerIdempotent(key);
  }

  /** Only the first eight characters of a key decide whether it is a LinkedIn key. */
  lemma LinkKeyByPrefix(key: string, rest: string)
    ensures |key| >= |LinkPrefix| ==> (IsLinkKey(key + rest) <==> IsLinkKey(key[..|LinkPrefix|]))
    ensures IsLinkKey(key) ==> IsLinkKey(key + rest)
  {
    if |key| >= |LinkPrefix| {
      assert Lower(key + rest)[..|LinkPrefix|] == Lower(key[..|LinkPrefix|]);
    }
    if IsLinkKey(key) {
      assert Lower(key + rest)[..|LinkPrefix|] == Lower(key)[..|LinkPrefix|];
    }
  }

  /**
   * A key character matches a lower-case prefix letter when it is that letter, its upper-case
   * ASCII form, or, for k, the Kelvin sign.
   */
  predicate CaseMatch(c: char, p: char) {
    c == p || c as int == p as int - 32 || (p == 'k' && c == '\U{212A}')
  }

  /** The LinkedIn keys, stated without lower-casing: eight characters matching "linkedin" letter by letter, in any case. */
  lemma LinkKeyCharacterization(key: string)
    ensures IsLinkKey(key) <==>
      |key| >= |LinkPrefix| && forall i :: 0 <= i < |LinkPrefix| ==> CaseMatch(key[i], LinkPrefix[i])
  {
  }

  /**
   * The keys of the source's tables: "LinkedIn URL" gives a link, while "MathCo LinkedIn Connects",
   * which holds the word elsewhere, does not; a Kelvin sign in place of the k still matches.
   */
  lemma LinkKeyExamples()
    ensures IsLinkKey("LinkedIn URL")
    ensures !IsLinkKey("MathCo LinkedIn Connects")
    ensures IsLinkKey("LINKEDIN")
    ensures !IsLinkKey("Linked In")
    ensures IsLinkKey("lin\U{212A}edIn")
  {
    assert Lower("LinkedIn URL")[..8] == LinkPrefix;
    assert Lower("MathCo LinkedIn Connects")[0] == 'm';
    assert Lower("LINKEDIN")[..8] == LinkPrefix;
    assert Lower("Linked In")[6] == ' ';
    assert Lower("lin\U{212A}edIn")[..8] == LinkPrefix;
  }

  /**
   * The rows of one table, in the dictionary's order: each key beside its formatted value.
   */
  method RenderTable(entries: seq<(string, Option<string>)>, nameForLink: Option<string>)
    returns (rows: seq<(string, Cell)>)
    ensures |rows| == |entries|
    ensures forall i :: 0 <= i < |entries| ==>
      rows[i] == (entries[i].0, FormatCell(entries[i].0, entries[i].1, nameForLink))
  {
    rows := [];
    for i := 0 to |entries|
      invariant |rows| == i
      invariant forall j :: 0 <= j < i ==>
        rows[j] == (entries[j].0, FormatCell(entries[j].0, entries[j].1, nameForLink))
    {
      var (key, value) := entries[i];
      rows := rows + [(key, FormatCell(key, value, nameForLink))];
    }
  }
}
