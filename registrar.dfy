/** The page register of the application: sections keyed by their href,
    each with a display name and its pages (page href to page name), the
    sidebar menu built from it, and the reverse lookup from a page's href
    to its names. */
module Registrar {
  import opened Strings

  /** A section: its display name, its page hrefs in registration order,
      and the page name of each page href. */
  datatype Section = Section(name: string, order: seq<string>, pages: map<string, string>)
  {
    predicate Valid() {
      && (forall i, j :: 0 <= i < j < |order| ==> order[i] != order[j])
      && pages.Keys == (set p | p in order)
    }
  }

  /** The full href of page `p` of section `s`. */
  function Href(s: string, p: string): string {
    "/" + s + "/" + p
  }

  /** The outcome of `get_names(href)`: no such page, the section and page
      names, or the `ValueError` of unpacking three or more segments. */
  datatype Lookup = NotFound | Found(sectionName: string, pageName: string) | Raises

  /** `get_names(href)` against the register. The first character is
      skipped unread, so a found href is that character followed by the
      section href, `/` and the page href. */
  function GetNames(register: map<string, Section>, href: string): (r: Lookup)
    ensures r.Found? ==> |href| > 0 && exists s, p :: (s in register && p in register[s].pages &&
      '/' !in s && '/' !in p && href[1..] == s + "/" + p &&
      r == Found(register[s].name, register[s].pages[p]))
  {
    var rest := if |href| > 0 then href[1..] else "";
    if !Contains(rest, "/") then NotFound
    else
      var parts := Split(rest, "/");
      if |parts| != 2 then Raises
      else if parts[0] !in register || parts[1] !in register[parts[0]].pages then NotFound
      else
        var s, p := parts[0], parts[1];
        assert rest == s + "/" + p by {
          assert parts[1..] == [p];
        }
        assert s in parts && p in parts;
        ContainsChar(s, '/');
        ContainsChar(p, '/');
        Found(register[s].name, register[s].pages[p])
  }

  /** A single character occurs as a one-character text exactly when it is
      in the text. */
  lemma ContainsChar(s: string, c: char)
    ensures Contains(s, [c]) <==> c in s
  {
    if c in s {
      var j :| 0 <= j < |s| && s[j] == c;
      assert OccursAt(s, [c], j);
    }
    if Contains(s, [c]) {
      var j :| 0 <= j <= |s| - 1 && OccursAt(s, [c], j);
      assert s[j] == s[j..j + 1][0];
    }
  }

  /** The href of a registered page leads back to its names, provided
      neither href holds a `/`. */
  lemma GetNamesRoundTrip(register: map<string, Section>, s: string, p: string)
    requires s in register && p in register[s].pages
    requires '/' !in s && '/' !in p
    ensures GetNames(register, Href(s, p)) == Found(register[s].name, register[s].pages[p])
  {
    var href := Href(s, p);
    assert href[1..] == s + "/" + p;
    ContainsChar(s, '/');
    ContainsChar(p, '/');
    assert s + "/" + p == s + "/" + p + "";
    assert s + "/"[..0] == s;
    SplitAtFirst(s, "/", p);
    assert Split(p, "/") == [p];
    ContainsChar(href[1..], '/');
  }

  /** The href of a section or page that is not registered is not found,
      provided neither href holds a `/`. */
  lemma UnknownPageIsNotFound(register: map<string, Section>, s: string, p: string)
    requires s !in register || p !in register[s].pages
    requires '/' !in s && '/' !in p
    ensures GetNames(register, Href(s, p)) == NotFound
  {
    var href := Href(s, p);
    assert href[1..] == s + "/" + p;
    ContainsChar(s, '/');
    ContainsChar(p, '/');
    assert s + "/"[..0] == s;
    SplitAtFirst(s, "/", p);
    assert Split(p, "/") == [p];
    ContainsChar(href[1..], '/');
  }

  /** A text without `/` after its first character names no page. */
  lemma NoSlashIsNotFound(register: map<string, Section>, href: string)
    requires |href| > 0 && '/' !in href[1..]
    ensures GetNames(register, href) == NotFound
  {
    ContainsChar(href[1..], '/');
  }

  /** Three or more segments raise at the unpacking. */
  lemma ThreeSegmentsRaise(register: map<string, Section>, a: string, b: string, c: string)
    requires '/' !in a && '/' !in b
    ensures GetNames(register, "/" + a + "/" + b + "/" + c) == Raises
  {
    var rest := a + "/" + b + "/" + c;
    assert ("/" + a + "/" + b + "/" + c)[1..] == rest;
    ContainsChar(a, '/');
    ContainsChar(b, '/');
    assert '/' in rest by {
      assert rest[|a|] == '/';
    }
    ContainsChar(rest, '/');
    assert a + "/"[..0] == a && b + "/"[..0] == b;
    assert rest == a + "/" + (b + "/" + c);
    SplitAtFirst(a, "/", b + "/" + c);
    SplitAtFirst(b, "/", c);
  }

  /** The menu entries of one section's pages added to `m`: page name to
      full href, a later page overwriting an earlier one of the same name. */
  function AddPages(m: map<string, string>, s: string, order: seq<string>, pages: map<string, string>): map<string, string>
    requires forall p :: p in order ==> p in pages
  {
    if |order| == 0 then m
    else
      var p := order[|order| - 1];
      AddPages(m, s, order[..|order| - 1], pages)[pages[p] := Href(s, p)]
  }

  /** The register is well formed over the section hrefs `order`. */
  predicate Covers(order: seq<string>, register: map<string, Section>) {
    forall s :: s in order ==> s in register && register[s].Valid()
  }

  /** `get_sidebar_menu()` over the sections `order` in their order:
      section name to page name to full href; sections sharing a name merge
      into one entry. */
  function Menu(order: seq<string>, register: map<string, Section>): map<string, map<string, string>>
    requires Covers(order, register)
  {
    if |order| == 0 then map[]
    else
      var s := order[|order| - 1];
      var m := Menu(order[..|order| - 1], register);
      var section := register[s];
      var base := if section.name in m then m[section.name] else map[];
      m[section.name := AddPages(base, s, section.order, section.pages)]
  }

  /** One more section href: its pages are added to the entry of its
      name. */
  lemma MenuStep(order: seq<string>, register: map<string, Section>, i: nat)
    requires Covers(order, register) && i < |order|
    ensures Covers(order[..i], register) && Covers(order[..i + 1], register)
    ensures var section, m := register[order[i]], Menu(order[..i], register);
      Menu(order[..i + 1], register) ==
        m[section.name := AddPages(if section.name in m then m[section.name] else map[], order[i], section.order, section.pages)]
  {
    assert forall t :: t in order[..i + 1] ==> t in order;
    assert order[..i + 1][..i] == order[..i];
  }

  /** One more page of a section: its entry is added last. */
  lemma AddPagesStep(m: map<string, string>, s: string, order: seq<string>, pages: map<string, string>, j: nat)
    requires forall p :: p in order ==> p in pages
    requires j < |order|
    ensures AddPages(m, s, order[..j + 1], pages) == AddPages(m, s, order[..j], pages)[pages[order[j]] := Href(s, order[j])]
  {
    assert order[..j + 1][..j] == order[..j];
    assert forall p :: p in order[..j + 1] ==> p in order;
  }

  /** Every entry added for a section is one of its pages. */
  lemma {:induction false} AddPagesSound(m: map<string, string>, s: string, order: seq<string>, pages: map<string, string>, name: string)
    requires forall p :: p in order ==> p in pages
    requires name in AddPages(m, s, order, pages)
    ensures (name in m && AddPages(m, s, order, pages)[name] == m[name]) ||
      exists p :: p in order && pages[p] == name && AddPages(m, s, order, pages)[name] == Href(s, p)
    decreases |order|
  {
    if |order| > 0 {
      var p := order[|order| - 1];
      var front := order[..|order| - 1];
      if pages[p] != name {
        AddPagesSound(m, s, front, pages, name);
        if !(name in m && AddPages(m, s, front, pages)[name] == m[name]) {
          var q :| q in front && pages[q] == name && AddPages(m, s, front, pages)[name] == Href(s, q);
          assert q in order;
        }
      }
    }
  }

  /** Every page of a section gets an entry. */
  lemma {:induction false} AddPagesComplete(m: map<string, string>, s: string, order: seq<string>, pages: map<string, string>)
    requires forall p :: p in order ==> p in pages
    ensures forall n :: n in m ==> n in AddPages(m, s, order, pages)
    ensures forall p :: p in order ==> pages[p] in AddPages(m, s, order, pages)
    decreases |order|
  {
    if |order| > 0 {
      var front := order[..|order| - 1];
      AddPagesComplete(m, s, front, pages);
      forall p | p in order
        ensures pages[p] in AddPages(m, s, order, pages)
      {
        if p != order[|order| - 1] {
          assert p in front;
        }
      }
    }
  }

  /** Every registered page is listed under its section's name and its
      own name. */
  lemma {:induction false} MenuComplete(order: seq<string>, register: map<string, Section>)
    requires Covers(order, register)
    ensures forall s, p :: s in order && p in register[s].pages ==>
      register[s].name in Menu(order, register) && register[s].pages[p] in Menu(order, register)[register[s].name]
    decreases |order|
  {
    if |order| > 0 {
      var last := order[|order| - 1];
      var front := order[..|order| - 1];
      MenuComplete(front, register);
      var m := Menu(front, register);
      var section := register[last];
      var base := if section.name in m then m[section.name] else map[];
      AddPagesComplete(base, last, section.order, section.pages);
      forall s, p | s in order && p in register[s].pages
        ensures register[s].name in Menu(order, register) && register[s].pages[p] in Menu(order, register)[register[s].name]
      {
        if s != last {
          assert s in front;
        }
      }
    }
  }

  /** Every menu entry comes from a registered page: its section and page
      carry the entry's names and it links to that page's href. */
  lemma {:induction false} MenuSound(order: seq<string>, register: map<string, Section>, name: string, pageName: string)
    requires Covers(order, register)
    requires name in Menu(order, register) && pageName in Menu(order, register)[name]
    ensures exists s, p :: (s in order && p in register[s].pages && register[s].name == name &&
      register[s].pages[p] == pageName && Menu(order, register)[name][pageName] == Href(s, p))
    decreases |order|
  {
    var last := order[|order| - 1];
    var front := order[..|order| - 1];
    var m := Menu(front, register);
    var section := register[last];
    var base := if section.name in m then m[section.name] else map[];
    if section.name == name {
      AddPagesSound(base, last, section.order, section.pages, pageName);
      if pageName in base && AddPages(base, last, section.order, section.pages)[pageName] == base[pageName] {
        MenuSound(front, register, name, pageName);
        var s, p :| s in front && p in register[s].pages && register[s].name == name &&
          register[s].pages[p] == pageName && m[name][pageName] == Href(s, p);
        assert s in order;
      } else {
        var p :| p in section.order && section.pages[p] == pageName &&
          AddPages(base, last, section.order, section.pages)[pageName] == Href(last, p);
        assert last in order;
      }
    } else {
      MenuSound(front, register, name, pageName);
      var s, p :| s in front && p in register[s].pages && register[s].name == name &&
        register[s].pages[p] == pageName && m[name][pageName] == Href(s, p);
      assert s in order;
    }
  }

  /** Following a menu link leads back to the names it is listed under,
      provided no href holds a `/`. */
  lemma MenuLinksRoundTrip(order: seq<string>, register: map<string, Section>, name: string, pageName: string)
    requires Covers(order, register)
    requires forall s, p :: s in register && p in register[s].pages ==> '/' !in s && '/' !in p
    requires name in Menu(order, register) && pageName in Menu(order, register)[name]
    ensures GetNames(register, Menu(order, register)[name][pageName]) == Found(name, pageName)
  {
    MenuSound(order, register, name, pageName);
    var s, p :| s in order && p in register[s].pages && register[s].name == name &&
      register[s].pages[p] == pageName && Menu(order, register)[name][pageName] == Href(s, p);
    GetNamesRoundTrip(register, s, p);
  }

  /** The module-level `_page_register`, with its section hrefs in
      insertion order. */
  class Registry {
    var order: seq<string>
    var sections: map<string, Section>

    predicate Valid()
      reads this
    {
      && (forall i, j :: 0 <= i < j < |order| ==> order[i] != order[j])
      && sections.Keys == (set s | s in order)
      && Covers(order, sections)
    }

    constructor()
      ensures Valid() && order == [] && sections == map[]
    {
      order := [];
      sections := map[];
    }

    /** `registrar(section_name, section_href)`: the section is created,
        with no pages, only when its href is not registered yet. */
    method AddSection(name: string, href: string)
      requires Valid()
      modifies this
      ensures Valid()
      ensures href in old(sections) ==> sections == old(sections) && order == old(order)
      ensures href !in old(sections) ==>
        sections == old(sections)[href := Section(name, [], map[])] && order == old(order) + [href]
    {
      if href !in sections {
        sections := sections[href := Section(name, [], map[])];
        order := order + [href];
        assert Section(name, [], map[]).Valid();
        assert forall t :: t in order <==> t in old(order) || t == href;
      }
    }

    /** The decorator's `wrapper2(func)`: records the page under the
        function's name, replacing an earlier page of that name. */
    method Register(sectionHref: string, pageHref: string, pageName: string)
      requires Valid() && sectionHref in sections
      modifies this
      ensures Valid() && order == old(order)
      ensures sectionHref in sections
      ensures sections == old(sections)[sectionHref := sections[sectionHref]]
      ensures sections[sectionHref].name == old(sections[sectionHref].name)
      ensures sections[sectionHref].pages == old(sections[sectionHref].pages)[pageHref := pageName]
      ensures sections[sectionHref].order ==
        if pageHref in old(sections[sectionHref].pages) then old(sections[sectionHref].order)
        else old(sections[sectionHref].order) + [pageHref]
      ensures '/' !in sectionHref && '/' !in pageHref ==>
        GetNames(sections, Href(sectionHref, pageHref)) == Found(old(sections[sectionHref].name), pageName)
    {
      var section := sections[sectionHref];
      var pageOrder := if pageHref in section.pages then section.order else section.order + [pageHref];
      var updated := Section(section.name, pageOrder, section.pages[pageHref := pageName]);
      assert updated.Valid() by {
        assert forall t :: t in pageOrder <==> t in section.order || t == pageHref;
      }
      sections := sections[sectionHref := updated];
      assert sections.Keys == old(sections).Keys;
      if '/' !in sectionHref && '/' !in pageHref {
        GetNamesRoundTrip(sections, sectionHref, pageHref);
      }
    }

    /** `get_sidebar_menu()`. */
    method GetSidebarMenu() returns (menu: map<string, map<string, string>>)
      requires Valid()
      ensures menu == Menu(order, sections)
    {
      menu := map[];
      for i := 0 to |order|
        invariant Covers(order[..i], sections)
        invariant menu == Menu(order[..i], sections)
      {
        var s := order[i];
        MenuStep(order, sections, i);
        menu := AddSectionPages(menu, s, sections[s]);
      }
      assert order[..|order|] == order;
    }
  }

  /** The inner loop of `get_sidebar_menu()`: the entry of the section's
      name is created if missing, then each page is added to it. */
  method AddSectionPages(menu: map<string, map<string, string>>, s: string, section: Section)
    returns (r: map<string, map<string, string>>)
    requires section.Valid()
    ensures r == menu[section.name := AddPages(if section.name in menu then menu[section.name] else map[], s, section.order, section.pages)]
  {
    var entry := if section.name in menu then menu[section.name] else map[];
    ghost var base := entry;
    for j := 0 to |section.order|
      invariant entry == AddPages(base, s, section.order[..j], section.pages)
    {
      var p := section.order[j];
      AddPagesStep(base, s, section.order, section.pages, j);
      entry := entry[section.pages[p] := Href(s, p)];
    }
    r := menu[section.name := entry];
    assert section.order[..|section.order|] == section.order;
  }
}
