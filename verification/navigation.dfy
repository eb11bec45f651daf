/** The navigation hook (`useNavigation`): which menu entries are active
    for the current path, and the section title shown in the header. The
    current path is a parameter. */
module Navigation {
  import opened Wrappers
  import opened Text

  // ---------------------------------------------------------------------
  // Active entries
  // ---------------------------------------------------------------------

  /** `isActive(path)`: never for an empty current path; the root entry
      only on the root itself; any other entry when the current path starts
      with it. */
  predicate IsActive(pathname: string, path: string)
  {
    if pathname == [] then false
    else if path == "/" then pathname == "/"
    else StartsWith(pathname, path)
  }

  /** `isSubmenuActive(items)`: `items.some(item => isActive(item.path))`. */
  predicate IsSubmenuActive(pathname: string, items: seq<string>)
    decreases |items|
  {
    items != [] && (IsActive(pathname, items[0]) || IsSubmenuActive(pathname, items[1..]))
  }

  /** The root entry is active exactly on the root page, although every
      path starts with "/". */
  lemma RootActiveOnlyAtRoot(pathname: string)
    ensures IsActive(pathname, "/") <==> pathname == "/"
  {
  }

  /** Any other entry is active exactly when the current path is not empty
      and starts with it. */
  lemma ActiveIsPrefix(pathname: string, path: string)
    requires path != "/"
    ensures IsActive(pathname, path) <==> pathname != [] && StartsWith(pathname, path)
  {
  }

  /** An entry other than the root stays active when shortened to a prefix
      that is not the root. */
  lemma ActiveClosedUnderPrefix(pathname: string, path: string, n: nat)
    requires path != "/" && n <= |path| && path[..n] != "/"
    requires IsActive(pathname, path)
    ensures IsActive(pathname, path[..n])
  {
    assert pathname[..n] == path[..n];
  }

  /** A submenu is active exactly when one of its entries is; an empty
      submenu never is. */
  lemma {:induction false} SubmenuActiveIffSome(pathname: string, items: seq<string>)
    ensures IsSubmenuActive(pathname, items) <==> exists i :: 0 <= i < |items| && IsActive(pathname, items[i])
    decreases |items|
  {
    if items != [] {
      SubmenuActiveIffSome(pathname, items[1..]);
      if exists i :: 0 <= i < |items| && IsActive(pathname, items[i]) {
        var i :| 0 <= i < |items| && IsActive(pathname, items[i]);
        if i > 0 {
          assert items[1..][i - 1] == items[i];
        }
      }
    }
  }

  // ---------------------------------------------------------------------
  // Section titles
  // ---------------------------------------------------------------------

  /** The title of a known process slug (the keys of the route table, each
      with its metadata title). */
  function ProcessTitle(slug: string): Option<string>
  {
    if slug == "pendientes" then Some("Pendientes")
    else if slug == "indicador-de-equipos" then Some("Indicador de Equipos")
    else if slug == "Cruce-CMDB" then Some("Cruce CMDB")
    else if slug == "TodoList" then Some("TodoList")
    else if slug == "inventario" then Some("Inventario Bodega")
    else if slug == "proceso-3" then Some("Proceso 3")
    else if slug == "proceso-4" then Some("Proceso 4")
    else if slug == "proceso-5" then Some("Proceso 5")
    else if slug == "proceso-6" then Some("Proceso 6")
    else None
  }

  /** Drops the leading slashes. */
  function DropSlashes(s: string): string
  {
    if s != [] && s[0] == '/' then DropSlashes(s[1..]) else s
  }

  /** The characters up to the first slash. */
  function TakeSegment(s: string): string
  {
    if s == [] || s[0] == '/' then [] else [s[0]] + TakeSegment(s[1..])
  }

  /** `pathname.split("/").filter(Boolean)[0] || ""`: the first non-empty
      segment of the path, or "" when it has none. */
  function FirstSegment(pathname: string): string
  {
    TakeSegment(DropSlashes(pathname))
  }

  /** The characters `\w` matches. */
  predicate IsWordChar(c: char)
  {
    ('a' <= c <= 'z') || ('A' <= c <= 'Z') || ('0' <= c <= '9') || c == '_'
  }

  /** `toUpperCase` on a word character. */
  function UpperChar(c: char): char
  {
    if 'a' <= c <= 'z' then (c as int - 32) as char else c
  }

  /** `replace(/\b\w/g, c => c.toUpperCase())`: every word character that
      starts a word is upper-cased. */
  function TitleCase(s: string): string
  {
    seq(|s|, i requires 0 <= i < |s| =>
      if IsWordChar(s[i]) && (i == 0 || !IsWordChar(s[i - 1])) then UpperChar(s[i]) else s[i])
  }

  /** The title of a "/proceso-..." path with no table entry: the path
      without its slash, hyphens turned into spaces, words capitalised. */
  function DynamicProcessTitle(pathname: string): string
    requires pathname != []
  {
    TitleCase(ReplaceChar(pathname[1..], '-', ' '))
  }

  /** `getSectionName`. */
  function SectionName(pathname: string): string
  {
    if pathname == [] then "Dashboard"
    else
      var slug := FirstSegment(pathname);
      if slug != [] && ProcessTitle(slug).Some? then ProcessTitle(slug).value
      else if StartsWith(pathname, "/proceso-") then DynamicProcessTitle(pathname)
      else if StartsWith(pathname, "/todolist-") then "TodoList"
      else if pathname == "/" then "Home"
      else if pathname == "/dashboard" then "Dashboard"
      else if pathname == "/pendientes" then "Pendientes"
      else if pathname == "/inventario" then "Inventario Bodega"
      else if pathname == "/indicador-de-equipos" then "Indicador de Equipos"
      else if pathname == "/Cruce-CMDB" then "Cruce CMDB"
      else "Dashboard"
  }

  /** The number of leading slashes. */
  function LeadingSlashes(s: string): (n: nat)
    ensures n <= |s|
  {
    if s != [] && s[0] == '/' then 1 + LeadingSlashes(s[1..]) else 0
  }

  /** `DropSlashes` drops exactly the leading run of slashes. */
  lemma {:induction false} DropSlashesShape(s: string)
    ensures DropSlashes(s) == s[LeadingSlashes(s)..]
    ensures forall k :: 0 <= k < LeadingSlashes(s) ==> s[k] == '/'
    ensures LeadingSlashes(s) == |s| || s[LeadingSlashes(s)] != '/'
    decreases |s|
  {
    if s != [] && s[0] == '/' {
      DropSlashesShape(s[1..]);
      assert forall k :: 1 <= k < LeadingSlashes(s) ==> s[k] == s[1..][k - 1];
    }
  }

  /** `TakeSegment` takes the longest slash-free prefix. */
  lemma {:induction false} TakeSegmentShape(s: string)
    ensures |TakeSegment(s)| <= |s| && s[..|TakeSegment(s)|] == TakeSegment(s)
    ensures forall k :: 0 <= k < |TakeSegment(s)| ==> TakeSegment(s)[k] != '/'
    ensures |TakeSegment(s)| == |s| || s[|TakeSegment(s)|] == '/'
    ensures TakeSegment(s) == [] ==> s == [] || s[0] == '/'
    decreases |s|
  {
    if s != [] && s[0] != '/' {
      TakeSegmentShape(s[1..]);
    }
  }

  /** The first segment of "/" + a slash-free word + a rest that is empty
      or starts with a slash is the word. */
  lemma {:induction false} FirstSegmentOf(word: string, rest: string)
    requires word != [] && forall k :: 0 <= k < |word| ==> word[k] != '/'
    requires rest == [] || rest[0] == '/'
    ensures FirstSegment("/" + word + rest) == word
  {
    var p := "/" + word + rest;
    assert p[1..] == word + rest;
    assert DropSlashes(p) == DropSlashes(word + rest);
    assert DropSlashes(word + rest) == word + rest;
    TakeWord(word, rest);
  }

  /** Taking a segment stops exactly at the end of a slash-free word. */
  lemma {:induction false} TakeWord(word: string, rest: string)
    requires forall k :: 0 <= k < |word| ==> word[k] != '/'
    requires rest == [] || rest[0] == '/'
    ensures TakeSegment(word + rest) == word
    decreases |word|
  {
    if word == [] {
      assert word + rest == rest;
    } else {
      assert (word + rest)[1..] == word[1..] + rest;
      TakeWord(word[1..], rest);
    }
  }

  /** The section name is never empty; it is "Dashboard" for an empty path
      and "Home" for the root, and "Dashboard" for any other path that no
      earlier rule recognises. */
  lemma SectionNameDefaults(pathname: string)
    ensures SectionName(pathname) != []
    ensures pathname == [] ==> SectionName(pathname) == "Dashboard"
    ensures pathname == "/" ==> SectionName(pathname) == "Home"
    ensures pathname != "/" && ProcessTitle(FirstSegment(pathname)).None?
            && !StartsWith(pathname, "/proceso-") && !StartsWith(pathname, "/todolist-") ==>
              SectionName(pathname) == "Dashboard"
  {
    if pathname != "/" && ProcessTitle(FirstSegment(pathname)).None?
       && !StartsWith(pathname, "/proceso-") && !StartsWith(pathname, "/todolist-") {
      SectionNameFallback(pathname);
    }
    if pathname == "/" {
      assert DropSlashes("/") == DropSlashes("");
    }
    if pathname != [] && StartsWith(pathname, "/proceso-") && !(FirstSegment(pathname) != [] && ProcessTitle(FirstSegment(pathname)).Some?) {
      assert |pathname[1..]| >= 8;
    }
  }

  /** A known slug gives its table title, whatever deeper segments follow
      it. */
  lemma SectionFromTable(slug: string, rest: string)
    requires ProcessTitle(slug).Some?
    requires rest == [] || rest[0] == '/'
    ensures SectionName("/" + slug + rest) == ProcessTitle(slug).value
  {
    assert forall k :: 0 <= k < |slug| ==> slug[k] != '/';
    FirstSegmentOf(slug, rest);
  }

  /** The first segment of a path with one leading slash and no other is
      the rest of the path. */
  lemma SlugPath(path: string)
    requires |path| >= 2 && path[0] == '/'
    requires forall k :: 1 <= k < |path| ==> path[k] != '/'
    ensures FirstSegment(path) == path[1..]
  {
    FirstSegmentOf(path[1..], "");
    assert "/" + path[1..] + "" == path;
  }

  /** The four switch paths named after table slugs have those slugs as
      first segment, which the table knows, and so are answered from the
      table. */
  lemma PendientesSegment()
    ensures FirstSegment("/pendientes") == "pendientes"
  {
    SlugPath("/pendientes");
    assert "/pendientes"[1..] == "pendientes";
  }

  lemma PendientesTitle()
    ensures ProcessTitle("pendientes").Some?
  {
  }

  lemma PendientesPath()
    ensures ProcessTitle(FirstSegment("/pendientes")).Some?
  {
    PendientesSegment();
    PendientesTitle();
  }

  lemma InventarioSegment()
    ensures FirstSegment("/inventario") == "inventario"
  {
    SlugPath("/inventario");
    assert "/inventario"[1..] == "inventario";
  }

  lemma InventarioTitle()
    ensures ProcessTitle("inventario").Some?
  {
  }

  lemma InventarioPath()
    ensures ProcessTitle(FirstSegment("/inventario")).Some?
  {
    InventarioSegment();
    InventarioTitle();
  }

  lemma IndicadorSegment()
    ensures FirstSegment("/indicador-de-equipos") == "indicador-de-equipos"
  {
    SlugPath("/indicador-de-equipos");
    assert "/indicador-de-equipos"[1..] == "indicador-de-equipos";
  }

  lemma IndicadorTitle()
    ensures ProcessTitle("indicador-de-equipos").Some?
  {
  }

  lemma IndicadorPath()
    ensures ProcessTitle(FirstSegment("/indicador-de-equipos")).Some?
  {
    IndicadorSegment();
    IndicadorTitle();
  }

  lemma CruceSegment()
    ensures FirstSegment("/Cruce-CMDB") == "Cruce-CMDB"
  {
    SlugPath("/Cruce-CMDB");
    assert "/Cruce-CMDB"[1..] == "Cruce-CMDB";
  }

  lemma CruceTitle()
    ensures ProcessTitle("Cruce-CMDB").Some?
  {
  }

  lemma CrucePath()
    ensures ProcessTitle(FirstSegment("/Cruce-CMDB")).Some?
  {
    CruceSegment();
    CruceTitle();
  }

  /** A path that is not the root, whose first segment is not a table
      slug, and that is neither a dynamic process nor a to-do list path, is
      titled "Dashboard" by the switch's default. The switch cases for the
      table's own slugs are never reached, since the table answers first. */
  lemma SectionNameFallback(pathname: string)
    requires pathname != "/"
    requires ProcessTitle(FirstSegment(pathname)).None?
    requires !StartsWith(pathname, "/proceso-") && !StartsWith(pathname, "/todolist-")
    ensures SectionName(pathname) == "Dashboard"
  {
    PendientesPath();
    InventarioPath();
    IndicadorPath();
    CrucePath();
    assert pathname != "/pendientes" && pathname != "/inventario";
    assert pathname != "/indicador-de-equipos" && pathname != "/Cruce-CMDB";
  }

  /** Every path that starts with "/todolist-" is titled "TodoList", since
      no table slug starts with "todolist-". */
  lemma TodoListPaths(pathname: string)
    requires StartsWith(pathname, "/todolist-")
    ensures SectionName(pathname) == "TodoList"
  {
    var seg := FirstSegment(pathname);
    assert DropSlashes(pathname) == pathname[1..];
    assert pathname[1] == 't';
    assert seg == [] || seg[0] == 't';
  }

  /** A "/proceso-..." path with no table entry is titled from the path
      itself. */
  lemma DynamicProcessPaths(pathname: string)
    requires StartsWith(pathname, "/proceso-")
    requires ProcessTitle(FirstSegment(pathname)).None?
    ensures SectionName(pathname) == DynamicProcessTitle(pathname)
  {
  }

  /** `TitleCase` upper-cases exactly the first letter of each word and
      keeps the length. */
  lemma TitleCaseShape(s: string, i: nat)
    requires i < |s|
    ensures |TitleCase(s)| == |s|
    ensures TitleCase(s)[i] != s[i] <==> 'a' <= s[i] <= 'z' && (i == 0 || !IsWordChar(s[i - 1]))
  {
  }

  /** A "/proceso-" path ending in one digit with no table entry is titled
      "Proceso " and the digit. */
  lemma ProcesoDigit(d: char)
    requires '0' <= d <= '9' && !('3' <= d <= '6')
    ensures SectionName("/proceso-" + [d]) == "Proceso " + [d]
  {
    var word := "proceso-" + [d];
    assert "/proceso-" + [d] == "/" + word + "";
    FirstSegmentOf(word, "");
    assert ProcessTitle(word).None? by {
      assert word[8] == d;
    }
    DynamicProcessPaths("/proceso-" + [d]);
    assert ("/proceso-" + [d])[1..] == word;
    ProcesoDigitTitle(d);
  }

  /** Capitalising "proceso-" and a digit with hyphens spaced out. */
  lemma ProcesoDigitTitle(d: char)
    requires '0' <= d <= '9'
    ensures TitleCase(ReplaceChar("proceso-" + [d], '-', ' ')) == "Proceso " + [d]
  {
    var spaced := ReplaceChar("proceso-" + [d], '-', ' ');
    assert spaced == "proceso " + [d];
    var t := TitleCase(spaced);
    assert t[0] == 'P';
    assert forall i :: 1 <= i < 9 ==> t[i] == spaced[i];
  }
}
