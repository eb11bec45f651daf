/** The string primitives the dashboard relies on: JavaScript's `trim`,
    `toLowerCase`, `startsWith`, `endsWith`, `includes`, and the regular
    expression rewrites `replace(/\s+/g, " ")`, `replace(/_/g, " ")` and
    `replace(/\s/g, "")`. Strings are sequences of Unicode characters,
    one `char` per scalar value.

    The functions carry few postconditions of their own; what they
    guarantee is stated by the lemmas after them, which callers invoke where
    needed. */
module Text {
  import Seqs

  /** The characters matched by `\s` and removed by `trim`: the ECMAScript
      WhiteSpace and LineTerminator code points. */
  predicate IsSpace(c: char)
  {
    || ('\t' <= c <= '\r')
    || c == ' '
    || c == '\U{00A0}'
    || c == '\U{1680}'
    || ('\U{2000}' <= c <= '\U{200A}')
    || c == '\U{2028}'
    || c == '\U{2029}'
    || c == '\U{202F}'
    || c == '\U{205F}'
    || c == '\U{3000}'
    || c == '\U{FEFF}'
  }

  /** A character that `\s` does not match. */
  predicate NotSpace(c: char)
  {
    !IsSpace(c)
  }

  /** `toLowerCase` on one character, for basic Latin and Latin-1 letters. */
  function LowerChar(c: char): char
  {
    if 'A' <= c <= 'Z' then (c as int + 32) as char
    else if '\U{00C0}' <= c <= '\U{00DE}' && c != '\U{00D7}' then (c as int + 32) as char
    else c
  }

  /** `toLowerCase` on a string: character by character. */
  function Lower(s: string): string
  {
    seq(|s|, i requires 0 <= i < |s| => LowerChar(s[i]))
  }

  /** `s` starts with `p`. */
  predicate StartsWith(s: string, p: string)
  {
    |p| <= |s| && s[..|p|] == p
  }

  /** `s` ends with `p`. */
  predicate EndsWith(s: string, p: string)
  {
    |p| <= |s| && s[|s| - |p|..] == p
  }

  /** `s.includes(p)`: `p` occurs somewhere in `s`. */
  predicate Contains(s: string, p: string)
    decreases |s|
  {
    StartsWith(s, p) || (|s| > 0 && Contains(s[1..], p))
  }

  /** No whitespace at either end. */
  predicate Trimmed(s: string)
  {
    s == [] || (!IsSpace(s[0]) && !IsSpace(s[|s| - 1]))
  }

  /** `trimStart`: drops the leading whitespace. */
  function TrimStart(s: string): string
  {
    if |s| > 0 && IsSpace(s[0]) then TrimStart(s[1..]) else s
  }

  /** `trimEnd`: drops the trailing whitespace. */
  function TrimEnd(s: string): string
  {
    if |s| > 0 && IsSpace(s[|s| - 1]) then TrimEnd(s[..|s| - 1]) else s
  }

  /** `trim`. */
  function Trim(s: string): string
  {
    TrimEnd(TrimStart(s))
  }

  /** `x.trim() === ""`. */
  predicate Blank(s: string)
  {
    Trim(s) == []
  }

  /** `replace(/\s+/g, " ")`: every maximal run of whitespace becomes one
      space. */
  function CollapseSpaces(s: string): string
    decreases |s|
  {
    if s == [] then []
    else if IsSpace(s[0]) then
      TrimStartShape(s);
      [' '] + CollapseSpaces(TrimStart(s))
    else [s[0]] + CollapseSpaces(s[1..])
  }

  /** `replace(/x/g, y)` for a single character `x`. */
  function ReplaceChar(s: string, x: char, y: char): string
  {
    seq(|s|, i requires 0 <= i < |s| => if s[i] == x then y else s[i])
  }

  /** `replace(/\s/g, "")`: every whitespace character removed. */
  function RemoveSpaces(s: string): string
  {
    Seqs.Filter(s, NotSpace)
  }

  // ---------------------------------------------------------------------
  // Trimming
  // ---------------------------------------------------------------------

  /** `trimStart` removes a prefix of whitespace and stops at the first
      non-space character. */
  lemma {:induction false} TrimStartShape(s: string)
    ensures |TrimStart(s)| <= |s| && TrimStart(s) == s[|s| - |TrimStart(s)|..]
    ensures forall i :: 0 <= i < |s| - |TrimStart(s)| ==> IsSpace(s[i])
    ensures TrimStart(s) == [] || !IsSpace(TrimStart(s)[0])
    decreases |s|
  {
    if |s| > 0 && IsSpace(s[0]) {
      TrimStartShape(s[1..]);
    }
  }

  /** `trimEnd` removes a suffix of whitespace and stops at the last
      non-space character. */
  lemma {:induction false} TrimEndShape(s: string)
    ensures |TrimEnd(s)| <= |s| && TrimEnd(s) == s[..|TrimEnd(s)|]
    ensures forall i :: |TrimEnd(s)| <= i < |s| ==> IsSpace(s[i])
    ensures TrimEnd(s) == [] || !IsSpace(TrimEnd(s)[|TrimEnd(s)| - 1])
    decreases |s|
  {
    if |s| > 0 && IsSpace(s[|s| - 1]) {
      TrimEndShape(s[..|s| - 1]);
    }
  }

  /** `trim` leaves no whitespace at either end, never lengthens, and keeps a
      string that has none. */
  lemma TrimShape(s: string)
    ensures Trimmed(Trim(s))
    ensures |Trim(s)| <= |s|
    ensures Trimmed(s) ==> Trim(s) == s
  {
    var t := TrimStart(s);
    TrimStartShape(s);
    TrimEndShape(t);
    var u := TrimEnd(t);
    if u != [] {
      assert u[0] == t[0];
    }
  }

  /** Trimming a trimmed string changes nothing. */
  lemma TrimIdempotent(s: string)
    ensures Trim(Trim(s)) == Trim(s)
  {
    TrimShape(s);
    TrimShape(Trim(s));
  }

  /** A string is blank exactly when every character of it is whitespace. */
  lemma BlankIffAllSpace(s: string)
    ensures Blank(s) <==> forall i :: 0 <= i < |s| ==> IsSpace(s[i])
  {
    var t := TrimStart(s);
    TrimStartShape(s);
    TrimEndShape(t);
    if !forall i :: 0 <= i < |s| ==> IsSpace(s[i]) {
      var i :| 0 <= i < |s| && !IsSpace(s[i]);
      assert |s| - |t| <= i;
      assert t[i - (|s| - |t|)] == s[i];
    }
  }

  /** A trimmed, non-empty string is not blank. */
  lemma TrimmedNotBlank(s: string)
    requires Trimmed(s) && s != []
    ensures !Blank(s)
  {
    TrimShape(s);
  }

  // ---------------------------------------------------------------------
  // Lower-casing
  // ---------------------------------------------------------------------

  /** Lower-casing never turns a whitespace character into another
      character or back. */
  lemma LowerCharKeepsSpace(c: char)
    ensures IsSpace(LowerChar(c)) <==> IsSpace(c)
  {
  }

  /** Lower-casing twice is lower-casing once. */
  lemma LowerIdempotent(s: string)
    ensures Lower(Lower(s)) == Lower(s)
  {
  }

  /** `trimStart` commutes with lower-casing. */
  lemma {:induction false} TrimStartLower(s: string)
    ensures TrimStart(Lower(s)) == Lower(TrimStart(s))
    decreases |s|
  {
    if |s| > 0 {
      LowerCharKeepsSpace(s[0]);
      if IsSpace(s[0]) {
        assert Lower(s)[1..] == Lower(s[1..]);
        TrimStartLower(s[1..]);
      }
    }
  }

  /** `trimEnd` commutes with lower-casing. */
  lemma {:induction false} TrimEndLower(s: string)
    ensures TrimEnd(Lower(s)) == Lower(TrimEnd(s))
    decreases |s|
  {
    if |s| > 0 {
      LowerCharKeepsSpace(s[|s| - 1]);
      if IsSpace(s[|s| - 1]) {
        assert Lower(s)[..|s| - 1] == Lower(s[..|s| - 1]);
        TrimEndLower(s[..|s| - 1]);
      }
    }
  }

  /** `x.trim().toLowerCase() == x.toLowerCase().trim()`. */
  lemma TrimLower(s: string)
    ensures Trim(Lower(s)) == Lower(Trim(s))
  {
    TrimStartLower(s);
    TrimEndLower(TrimStart(s));
  }

  // ---------------------------------------------------------------------
  // Whitespace rewriting
  // ---------------------------------------------------------------------

  /** A character filter that drops all whitespace (and possibly more). */
  ghost predicate DropsSpaces(p: char -> bool)
  {
    forall c :: p(c) ==> !IsSpace(c)
  }

  /** Filtering one character and a string. */
  lemma FilterCons(c: char, s: string, p: char -> bool)
    ensures Seqs.Filter([c] + s, p) == (if p(c) then [c] else []) + Seqs.Filter(s, p)
  {
    assert ([c] + s)[1..] == s;
  }

  /** Leading whitespace contributes nothing to a filter that drops it. */
  lemma {:induction false} FilterTrimStart(s: string, p: char -> bool)
    requires DropsSpaces(p)
    ensures Seqs.Filter(TrimStart(s), p) == Seqs.Filter(s, p)
    decreases |s|
  {
    if |s| > 0 && IsSpace(s[0]) {
      assert s == [s[0]] + s[1..];
      FilterCons(s[0], s[1..], p);
      FilterTrimStart(s[1..], p);
    }
  }

  /** Trailing whitespace contributes nothing to a filter that drops it. */
  lemma {:induction false} FilterTrimEnd(s: string, p: char -> bool)
    requires DropsSpaces(p)
    ensures Seqs.Filter(TrimEnd(s), p) == Seqs.Filter(s, p)
    decreases |s|
  {
    if |s| > 0 && IsSpace(s[|s| - 1]) {
      var init := s[..|s| - 1];
      assert s == init + [s[|s| - 1]];
      Seqs.FilterAppend(init, [s[|s| - 1]], p);
      FilterTrimEnd(init, p);
    }
  }

  /** Trimming contributes nothing to a filter that drops whitespace. */
  lemma FilterTrim(s: string, p: char -> bool)
    requires DropsSpaces(p)
    ensures Seqs.Filter(Trim(s), p) == Seqs.Filter(s, p)
  {
    FilterTrimStart(s, p);
    FilterTrimEnd(TrimStart(s), p);
  }

  /** Collapsing whitespace runs contributes nothing to a filter that drops
      whitespace: every other character survives, in order. */
  lemma {:induction false} FilterCollapse(s: string, p: char -> bool)
    requires DropsSpaces(p)
    ensures Seqs.Filter(CollapseSpaces(s), p) == Seqs.Filter(s, p)
    decreases |s|
  {
    if s != [] {
      if IsSpace(s[0]) {
        TrimStartShape(s);
        var rest := TrimStart(s);
        FilterCollapse(rest, p);
        FilterTrimStart(s, p);
        FilterCons(' ', CollapseSpaces(rest), p);
      } else {
        FilterCollapse(s[1..], p);
        assert s == [s[0]] + s[1..];
        FilterCons(s[0], s[1..], p);
        FilterCons(s[0], CollapseSpaces(s[1..]), p);
      }
    }
  }

  /** After collapsing, the only whitespace left is the plain space, the
      result starts with whitespace exactly when the original did, and it is
      empty only for the empty string. */
  lemma {:induction false} CollapseSpacesShape(s: string)
    ensures forall i :: 0 <= i < |CollapseSpaces(s)| && IsSpace(CollapseSpaces(s)[i]) ==> CollapseSpaces(s)[i] == ' '
    ensures CollapseSpaces(s) == [] <==> s == []
    ensures s != [] ==> (IsSpace(CollapseSpaces(s)[0]) <==> IsSpace(s[0]))
    decreases |s|
  {
    if s != [] {
      if IsSpace(s[0]) {
        TrimStartShape(s);
        CollapseSpacesShape(TrimStart(s));
      } else {
        CollapseSpacesShape(s[1..]);
      }
    }
  }

  /** After collapsing, no two whitespace characters are adjacent. */
  lemma {:induction false} CollapseSpacesSingle(s: string)
    ensures forall i :: 0 <= i < |CollapseSpaces(s)| - 1 ==>
      !(IsSpace(CollapseSpaces(s)[i]) && IsSpace(CollapseSpaces(s)[i + 1]))
    decreases |s|
  {
    if s != [] {
      if IsSpace(s[0]) {
        TrimStartShape(s);
        var rest := TrimStart(s);
        CollapseSpacesSingle(rest);
        CollapseSpacesShape(rest);
        var c := CollapseSpaces(rest);
        assert CollapseSpaces(s) == [' '] + c;
        assert forall i :: 1 <= i < |c| + 1 ==> CollapseSpaces(s)[i] == c[i - 1];
      } else {
        CollapseSpacesSingle(s[1..]);
        var c := CollapseSpaces(s[1..]);
        assert CollapseSpaces(s) == [s[0]] + c;
        assert forall i :: 1 <= i < |c| + 1 ==> CollapseSpaces(s)[i] == c[i - 1];
      }
    }
  }

  /** A string contains itself and the empty string. */
  lemma ContainsSelf(s: string)
    ensures Contains(s, s)
    ensures Contains(s, "")
  {
  }
}
