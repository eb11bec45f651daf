/** Serial normalisation and the flexible serial match of the inventory
    reconciliation (`normalizarSerial`, `serialCoincide`). */
module Serials {
  import opened Text
  import Seqs

  /** The characters `normalizarSerial` deletes: U+0000 to U+001F and
      U+007F to U+009F. */
  predicate IsControl(c: char)
  {
    c <= '\U{001F}' || ('\U{007F}' <= c <= '\U{009F}')
  }

  /** A character `normalizarSerial` keeps. */
  predicate NotControl(c: char)
  {
    !IsControl(c)
  }

  /** `normalizarSerial`: the empty string stays empty; otherwise trim,
      lower-case, collapse whitespace runs to one space, and delete control
      characters, in that order. */
  function NormalizeSerial(s: string): string
  {
    if s == [] then [] else Seqs.Filter(CollapseSpaces(Lower(Trim(s))), NotControl)
  }

  /** `serialCoincide`: the normalised forms are equal, or equal once every
      whitespace character is removed from both. */
  predicate SerialsMatch(a: string, b: string)
  {
    var na := NormalizeSerial(a);
    var nb := NormalizeSerial(b);
    na == nb || RemoveSpaces(na) == RemoveSpaces(nb)
  }

  /** A character that survives both normalisation and whitespace removal. */
  predicate Significant(c: char)
  {
    !IsSpace(c) && !IsControl(c)
  }

  /** An independent description of what the match compares: the
      lower-cased serial with every whitespace and control character
      removed. */
  function MatchKey(s: string): string
  {
    Seqs.Filter(Lower(s), Significant)
  }

  // ---------------------------------------------------------------------
  // Normalisation
  // ---------------------------------------------------------------------

  /** The normalised serial contains no control character, and the empty
      serial normalises to the empty string. */
  lemma NormalizeHasNoControl(s: string)
    ensures forall k :: 0 <= k < |NormalizeSerial(s)| ==> !IsControl(NormalizeSerial(s)[k])
    ensures s == [] ==> NormalizeSerial(s) == []
  {
    if s != [] {
      Seqs.FilterSatisfies(CollapseSpaces(Lower(Trim(s))), NotControl);
    }
  }

  /** A normalised serial is already lower-case. */
  lemma NormalizeIsLowerCase(s: string)
    ensures forall k :: 0 <= k < |NormalizeSerial(s)| ==> LowerChar(NormalizeSerial(s)[k]) == NormalizeSerial(s)[k]
  {
    if s != [] {
      var c := CollapseSpaces(Lower(Trim(s)));
      CollapseIsLowerCase(Lower(Trim(s)));
      Seqs.FilterIsOrderedSelection(c, NotControl);
    }
  }

  /** Collapsing whitespace keeps a lower-case string lower-case. */
  lemma {:induction false} CollapseIsLowerCase(s: string)
    requires forall k :: 0 <= k < |s| ==> LowerChar(s[k]) == s[k]
    ensures forall k :: 0 <= k < |CollapseSpaces(s)| ==> LowerChar(CollapseSpaces(s)[k]) == CollapseSpaces(s)[k]
    decreases |s|
  {
    if s != [] {
      if IsSpace(s[0]) {
        TrimStartShape(s);
        CollapseIsLowerCase(TrimStart(s));
      } else {
        CollapseIsLowerCase(s[1..]);
      }
    }
  }

  /** Removing whitespace from a normalised serial gives its match key. */
  lemma {:induction false} NormalizeThenRemoveSpaces(s: string)
    ensures RemoveSpaces(NormalizeSerial(s)) == MatchKey(s)
  {
    if s == [] {
      assert Lower(s) == [];
    } else {
      var c := CollapseSpaces(Lower(Trim(s)));
      Seqs.FilterFilter(c, NotControl, NotSpace, Significant);
      FilterCollapse(Lower(Trim(s)), Significant);
      TrimLower(s);
      FilterTrim(Lower(s), Significant);
    }
  }

  // ---------------------------------------------------------------------
  // Matching
  // ---------------------------------------------------------------------

  /** Two serials match exactly when their match keys are equal: the
      comparison ignores letter case, whitespace anywhere and control
      characters, and nothing else. */
  lemma MatchIffSameKey(a: string, b: string)
    ensures SerialsMatch(a, b) <==> MatchKey(a) == MatchKey(b)
  {
    NormalizeThenRemoveSpaces(a);
    NormalizeThenRemoveSpaces(b);
  }

  /** Every serial matches itself. */
  lemma MatchReflexive(a: string)
    ensures SerialsMatch(a, a)
  {
  }

  /** The match does not depend on argument order. */
  lemma MatchSymmetric(a: string, b: string)
    ensures SerialsMatch(a, b) <==> SerialsMatch(b, a)
  {
  }

  /** Serials with equal normalised forms match. */
  lemma EqualNormalFormsMatch(a: string, b: string)
    requires NormalizeSerial(a) == NormalizeSerial(b)
    ensures SerialsMatch(a, b)
  {
  }

  /** The match is transitive, so it is an equivalence. */
  lemma MatchTransitive(a: string, b: string, c: string)
    requires SerialsMatch(a, b) && SerialsMatch(b, c)
    ensures SerialsMatch(a, c)
  {
    MatchIffSameKey(a, b);
    MatchIffSameKey(b, c);
    MatchIffSameKey(a, c);
  }

  /** A serial matches its own lower-case form. */
  lemma MatchIgnoresCase(a: string)
    ensures SerialsMatch(a, Lower(a))
  {
    MatchIffSameKey(a, Lower(a));
    LowerIdempotent(a);
  }

  /** The match key of a concatenation is the concatenation of the keys. */
  lemma KeyAppend(a: string, b: string)
    ensures MatchKey(a + b) == MatchKey(a) + MatchKey(b)
  {
    assert Lower(a + b) == Lower(a) + Lower(b);
    Seqs.FilterAppend(Lower(a), Lower(b), Significant);
  }

  /** A whitespace or control character has the empty match key. */
  lemma KeyOfInsignificant(w: char)
    requires IsSpace(w) || IsControl(w)
    ensures MatchKey([w]) == []
  {
    LowerCharKeepsSpace(w);
    assert Lower([w]) == [LowerChar(w)];
  }

  /** A serial matches itself with any whitespace or control character
      inserted anywhere. */
  lemma MatchIgnoresInsertedSpace(a: string, b: string, w: char)
    requires IsSpace(w) || IsControl(w)
    ensures SerialsMatch(a + b, a + [w] + b)
  {
    MatchIffSameKey(a + b, a + [w] + b);
    KeyAppend(a, b);
    KeyAppend(a + [w], b);
    KeyAppend(a, [w]);
    KeyOfInsignificant(w);
  }
}
