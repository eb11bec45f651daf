/** The data table's global search (`globalFilterFn`): a row matches when
    one of its fields, shown as text, lower-cased and normalised, contains
    the normalised search. The text `String(value)` gives for a field is a
    parameter of the model. */
module GlobalFilter {
  import opened Text
  import Seqs

  /** A field of a row: `null`/`undefined`, or a value with the text
      `String(value)` produces for it. */
  datatype FieldValue = Absent | Present(shown: string)

  /** `replace(/\s+/g, " ").replace(/_/g, " ").trim()`. */
  function Normalize(s: string): string
  {
    Trim(ReplaceChar(CollapseSpaces(s), '_', ' '))
  }

  /** The normalised search: `filterValue.toLowerCase().trim()`, then
      normalised. */
  function SearchKey(filter: string): string
  {
    Normalize(Trim(Lower(filter)))
  }

  /** The normalised text of a field value. */
  function ValueKey(shown: string): string
  {
    Normalize(Lower(shown))
  }

  /** One field matches: it is present and its normalised text contains the
      key. */
  predicate FieldMatches(v: FieldValue, key: string)
  {
    v.Present? && Contains(ValueKey(v.shown), key)
  }

  /** `Object.values(row).some(...)`. */
  predicate SomeFieldMatches(row: seq<FieldValue>, key: string)
    decreases |row|
  {
    row != [] && (FieldMatches(row[0], key) || SomeFieldMatches(row[1..], key))
  }

  /** `globalFilterFn`: an empty search keeps every row; otherwise some
      field must match. */
  predicate RowMatches(row: seq<FieldValue>, filter: string)
  {
    filter == [] || SomeFieldMatches(row, SearchKey(filter))
  }

  /** A non-empty search keeps a row exactly when one of its fields
      matches. */
  lemma {:induction false} RowMatchesIffSomeField(row: seq<FieldValue>, filter: string)
    requires filter != []
    ensures RowMatches(row, filter) <==> exists i :: 0 <= i < |row| && FieldMatches(row[i], SearchKey(filter))
  {
    SomeIffExists(row, SearchKey(filter));
  }

  lemma {:induction false} SomeIffExists(row: seq<FieldValue>, key: string)
    ensures SomeFieldMatches(row, key) <==> exists i :: 0 <= i < |row| && FieldMatches(row[i], key)
    decreases |row|
  {
    if row != [] {
      SomeIffExists(row[1..], key);
      if exists i :: 0 <= i < |row| && FieldMatches(row[i], key) {
        var i :| 0 <= i < |row| && FieldMatches(row[i], key);
        if i > 0 {
          assert row[1..][i - 1] == row[i];
        }
      }
    }
  }

  /** The empty search keeps every row, even one without fields. */
  lemma EmptySearchKeepsAll(row: seq<FieldValue>)
    ensures RowMatches(row, "")
  {
  }

  /** Absent fields never match, so a non-empty search drops a row whose
      fields are all absent. */
  lemma AbsentFieldsNeverMatch(row: seq<FieldValue>, filter: string)
    requires filter != []
    requires forall i :: 0 <= i < |row| ==> row[i] == Absent
    ensures !RowMatches(row, filter)
  {
    RowMatchesIffSomeField(row, filter);
  }

  /** A search of whitespace only is not empty, so it keeps exactly the rows
      with at least one present field. */
  lemma BlankSearchNeedsAField(row: seq<FieldValue>, filter: string)
    requires filter != [] && Blank(filter)
    ensures RowMatches(row, filter) <==> exists i :: 0 <= i < |row| && row[i].Present?
  {
    RowMatchesIffSomeField(row, filter);
    BlankIffAllSpace(filter);
    assert Blank(Lower(filter)) by {
      forall i | 0 <= i < |Lower(filter)|
        ensures IsSpace(Lower(filter)[i])
      {
        LowerCharKeepsSpace(filter[i]);
      }
      BlankIffAllSpace(Lower(filter));
    }
    assert SearchKey(filter) == [];
    forall i | 0 <= i < |row| && row[i].Present?
      ensures FieldMatches(row[i], [])
    {
      ContainsSelf(ValueKey(row[i].shown));
    }
  }

  /** The search ignores letter case. */
  lemma SearchIgnoresCase(row: seq<FieldValue>, filter: string)
    ensures RowMatches(row, Lower(filter)) <==> RowMatches(row, filter)
  {
    LowerIdempotent(filter);
    assert SearchKey(Lower(filter)) == SearchKey(filter);
  }

  /** So does the text of a field. */
  lemma ValueIgnoresCase(shown: string, key: string)
    ensures FieldMatches(Present(Lower(shown)), key) <==> FieldMatches(Present(shown), key)
  {
    LowerIdempotent(shown);
  }

  /** Characters that a normalised key can contain: no underscore, and
      plain spaces as the only whitespace. */
  predicate KeyChar(c: char)
  {
    c != '_' && (IsSpace(c) ==> c == ' ')
  }

  /** A normalised string has no surrounding whitespace, no underscore, and
      no whitespace but the plain space. */
  lemma NormalizeShape(s: string)
    ensures Trimmed(Normalize(s))
    ensures forall i :: 0 <= i < |Normalize(s)| ==> KeyChar(Normalize(s)[i])
  {
    var c := CollapseSpaces(s);
    CollapseSpacesShape(s);
    var u := ReplaceChar(c, '_', ' ');
    assert forall i :: 0 <= i < |u| ==> KeyChar(u[i]);
    TrimShape(u);
    TrimKeepsKeyChars(u);
  }

  /** Trimming keeps only characters of the string it trims. */
  lemma TrimKeepsKeyChars(u: string)
    requires forall i :: 0 <= i < |u| ==> KeyChar(u[i])
    ensures forall i :: 0 <= i < |Trim(u)| ==> KeyChar(Trim(u)[i])
  {
    var t := TrimStart(u);
    TrimStartShape(u);
    TrimEndShape(t);
    assert forall i :: 0 <= i < |t| ==> t[i] == u[|u| - |t| + i];
    assert forall i :: 0 <= i < |Trim(u)| ==> Trim(u)[i] == t[i];
  }

  /** A search without whitespace treats its underscores as spaces: "a_b"
      searches for "a b". */
  lemma UnderscoreSearchesSpace(w: string)
    requires forall i :: 0 <= i < |w| ==> !IsSpace(w[i])
    ensures Normalize(w) == Trim(ReplaceChar(w, '_', ' '))
  {
    NoSpaceCollapse(w);
  }

  /** Collapsing changes nothing in a string without whitespace. */
  lemma {:induction false} NoSpaceCollapse(w: string)
    requires forall i :: 0 <= i < |w| ==> !IsSpace(w[i])
    ensures CollapseSpaces(w) == w
    decreases |w|
  {
    if w != [] {
      assert forall i :: 0 <= i < |w[1..]| ==> w[1..][i] == w[i + 1];
      NoSpaceCollapse(w[1..]);
    }
  }

  /** Collapsing changes nothing in a string whose only whitespace is
      single plain spaces. */
  lemma {:induction false} SingleSpacesCollapse(s: string)
    requires forall i :: 0 <= i < |s| && IsSpace(s[i]) ==> s[i] == ' '
    requires forall i :: 0 <= i < |s| - 1 ==> !(IsSpace(s[i]) && IsSpace(s[i + 1]))
    ensures CollapseSpaces(s) == s
    decreases |s|
  {
    if s != [] {
      assert forall i :: 0 <= i < |s[1..]| ==> s[1..][i] == s[i + 1];
      if IsSpace(s[0]) {
        assert TrimStart(s) == TrimStart(s[1..]);
        assert s[1..] == [] || !IsSpace(s[1..][0]);
        assert TrimStart(s[1..]) == s[1..];
      }
      SingleSpacesCollapse(s[1..]);
    }
  }

  /** In a search without whitespace and without two underscores in a row,
      writing spaces for the underscores changes nothing: "a_b" and "a b"
      search for the same text. */
  lemma UnderscoreLikeSpace(w: string)
    requires forall i :: 0 <= i < |w| ==> !IsSpace(w[i])
    requires forall i :: 0 <= i < |w| - 1 ==> !(w[i] == '_' && w[i + 1] == '_')
    ensures Normalize(ReplaceChar(w, '_', ' ')) == Normalize(w)
  {
    NoSpaceCollapse(w);
    var u := ReplaceChar(w, '_', ' ');
    SingleSpacesCollapse(u);
    assert ReplaceChar(u, '_', ' ') == u;
  }

  /** Runs of whitespace are collapsed before underscores become spaces, so
      a value with an underscore beside a space keeps two spaces after
      normalising, and the search "a b" does not find "a _b". */
  lemma UnderscoreBesideSpaceKeepsTwoSpaces()
    ensures ValueKey("a _b") == "a  b"
    ensures SearchKey("a b") == "a b"
  {
    assert Lower("a _b") == "a _b";
    assert CollapseSpaces("b") == "b";
    assert CollapseSpaces("_b") == "_b";
    assert TrimStart(" _b") == "_b";
    assert CollapseSpaces(" _b") == " _b";
    assert CollapseSpaces("a _b") == "a _b";
    assert ReplaceChar("a _b", '_', ' ') == "a  b";
    assert Trim("a  b") == "a  b";
    assert Lower("a b") == "a b";
    assert Trim("a b") == "a b";
    assert CollapseSpaces(" b") == " b";
    assert CollapseSpaces("a b") == "a b";
    assert ReplaceChar("a b", '_', ' ') == "a b";
  }
}
