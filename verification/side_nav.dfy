/**
 * The side navigation: a fixed registry of sections, items and children;
 * two lists of expanded keys that the toggles change; and the rules that
 * decide which entries are rendered, where each links and which is active.
 */
module SideNav {

  // ---------------------------------------------------------------------
  // The registry
  // ---------------------------------------------------------------------

  /** A child entry: the `Omit<NavItem, 'children'>` type, so it has no children. */
  datatype NavChild = NavChild(title: string, slug: string)

  /** An item; an item without children has the empty sequence. */
  datatype NavItem = NavItem(title: string, slug: string, children: seq<NavChild>)

  datatype NavSection = NavSection(title: string, items: seq<NavItem>)

  const DataStructures: NavSection := NavSection("Data Structures", [
    NavItem("Arrays", "arrays", []),
    NavItem("Linked Lists", "linked-lists", []),
    NavItem("Stacks", "stacks", []),
    NavItem("Queues", "queues", []),
    NavItem("Trees", "trees", []),
    NavItem("Graphs", "graphs", []),
    NavItem("Hash Tables", "hash-tables", []),
    NavItem("Heaps", "heaps", [])
  ])

  const Algorithms: NavSection := NavSection("Algorithms", [
    NavItem("Sorting", "sorting", [
      NavChild("Quick Sort", "sorting/quick-sort"),
      NavChild("Merge Sort", "sorting/merge-sort"),
      NavChild("Heap Sort", "sorting/heap-sort"),
      NavChild("Bubble Sort", "sorting/bubble-sort"),
      NavChild("Insertion Sort", "sorting/insertion-sort"),
      NavChild("Selection Sort", "sorting/selection-sort"),
      NavChild("Counting Sort", "sorting/counting-sort")
    ]),
    NavItem("Searching", "searching", [
      NavChild("Binary Search", "searching"),
      NavChild("Linear Search", "searching/linear-search")
    ]),
    NavItem("Dynamic Programming", "dynamic-programming", []),
    NavItem("Greedy", "greedy", []),
    NavItem("Graph Algorithms", "graph-algorithms", [])
  ])

  const NavigationData: seq<NavSection> := [DataStructures, Algorithms]

  // ---------------------------------------------------------------------
  // Expanded-key lists and their toggles
  // ---------------------------------------------------------------------

  predicate Distinct(keys: seq<string>)
  {
    forall i, j :: 0 <= i < j < |keys| ==> keys[i] != keys[j]
  }

  /** `keys.filter((k) => k !== key)`: every copy of key removed, order kept. */
  function Without(keys: seq<string>, key: string): (r: seq<string>)
    ensures forall x :: x in r <==> x in keys && x != key
  {
    if keys == [] then []
    else (if keys[0] == key then [] else [keys[0]]) + Without(keys[1..], key)
  }

  /** `keys.includes(key) ? keys.filter(...) : [...keys, key]`. */
  function Toggled(keys: seq<string>, key: string): (r: seq<string>)
    // key flips its membership; every other key keeps its own
    ensures forall x :: x in r <==> (x in keys) != (x == key)
  {
    if key in keys then Without(keys, key) else keys + [key]
  }

  lemma {:induction false} WithoutKeepsDistinct(keys: seq<string>, key: string)
    requires Distinct(keys)
    ensures Distinct(Without(keys, key))
  {
    if keys != [] {
      var rest := keys[1..];
      assert Distinct(rest) by {
        forall i, j | 0 <= i < j < |rest| ensures rest[i] != rest[j] {
          assert rest[i] == keys[i + 1] && rest[j] == keys[j + 1];
        }
      }
      WithoutKeepsDistinct(rest, key);
      assert keys[0] !in rest;
      assert keys[0] !in Without(rest, key);
    }
  }

  /** A toggle never introduces a duplicate. */
  lemma ToggledKeepsDistinct(keys: seq<string>, key: string)
    requires Distinct(keys)
    ensures Distinct(Toggled(keys, key))
  {
    if key in keys {
      WithoutKeepsDistinct(keys, key);
    }
  }

  lemma {:induction false} WithoutAbsent(keys: seq<string>, key: string)
    requires key !in keys
    ensures Without(keys, key) == keys
  {
    if keys != [] {
      WithoutAbsent(keys[1..], key);
      assert [keys[0]] + keys[1..] == keys;
    }
  }

  lemma {:induction false} WithoutAppend(a: seq<string>, b: seq<string>, key: string)
    ensures Without(a + b, key) == Without(a, key) + Without(b, key)
  {
    if a != [] {
      WithoutAppend(a[1..], b, key);
      assert (a + b)[1..] == a[1..] + b;
    } else {
      assert a + b == b;
    }
  }

  /** Toggling twice restores the membership of every key. */
  lemma ToggleTwiceRestoresMembership(keys: seq<string>, key: string, x: string)
    ensures x in Toggled(Toggled(keys, key), key) <==> x in keys
  {
  }

  /** Toggling an absent key twice restores the exact list. */
  lemma ToggleTwiceAbsent(keys: seq<string>, key: string)
    requires key !in keys
    ensures Toggled(Toggled(keys, key), key) == keys
  {
    WithoutAppend(keys, [key], key);
    WithoutAbsent(keys, key);
    assert Without([key], key) == [];
  }

  /** Toggling a present key twice moves it to the end of the list. */
  lemma ToggleTwicePresent(keys: seq<string>, key: string)
    requires key in keys
    ensures Toggled(Toggled(keys, key), key) == Without(keys, key) + [key]
  {
  }

  /** So for two keys a, b the list [a, b] comes back as [b, a]. */
  lemma ToggleTwiceReorders(a: string, b: string)
    requires a != b
    ensures Toggled(Toggled([a, b], a), a) == [b, a]
    ensures Toggled(Toggled([a, b], a), a) != [a, b]
  {
    ToggleTwicePresent([a, b], a);
    assert [a, b][1..] == [b];
    assert Without([b], a) == [b];
  }

  // ---------------------------------------------------------------------
  // Links and rendering
  // ---------------------------------------------------------------------

  /** The URL prefix of a section, looked up from its title. */
  function BasePath(sectionTitle: string): (r: string)
    ensures r == "data-structures" || r == "algorithms"
    ensures r == "data-structures" <==> sectionTitle == "Data Structures"
  {
    if sectionTitle == "Data Structures" then "data-structures" else "algorithms"
  }

  /** `/${basePath}/${slug}`: it can be cut back into the base path and the slug. */
  function Href(basePath: string, slug: string): (r: string)
    ensures |r| == |basePath| + |slug| + 2
    ensures r[0] == '/' && r[|basePath| + 1] == '/'
    ensures r[1..|basePath| + 1] == basePath && r[|basePath| + 2..] == slug
  {
    "/" + basePath + "/" + slug
  }

  /** One rendered element of the navigation. A `SectionButton` toggles the
      section whose title it shows. An `ItemButton` is a toggle button, not a
      link: pressing it toggles the item slug `toggles`, it never navigates,
      and `activeOn` is only the route on which it is highlighted. The links
      carry their `href`. */
  datatype Entry =
    | SectionButton(title: string, expanded: bool)
    | ItemButton(title: string, toggles: string, activeOn: string, active: bool, expanded: bool)
    | ItemLink(title: string, href: string, active: bool)
    | ChildLink(title: string, href: string, active: bool)

  predicate IsItemEntry(e: Entry)
  {
    e.ItemButton? || e.ItemLink?
  }

  /** The route on which an entry other than a section button is highlighted. */
  function ActivePath(e: Entry): string
    requires !e.SectionButton?
  {
    if e.ItemButton? then e.activeOn else e.href
  }

  /** An entry other than a section button is highlighted exactly when the
      route equals its `/basePath/slug`, character for character. */
  predicate ActiveExactly(e: Entry, pathname: string)
  {
    !e.SectionButton? ==> (e.active <==> pathname == ActivePath(e))
  }

  /** A child is a link to `/basePath/childSlug`, active exactly on that route. */
  function ChildEntry(child: NavChild, basePath: string, pathname: string): (r: Entry)
    ensures r.ChildLink? && r.title == child.title && r.href == Href(basePath, child.slug)
    ensures ActiveExactly(r, pathname)
  {
    var href := Href(basePath, child.slug);
    ChildLink(child.title, href, pathname == href)
  }

  /** The item's own entry: a toggle button when it has children, showing
      whether its slug is expanded; else a link. Either way it is highlighted
      exactly on `/basePath/slug`. */
  function ItemHead(item: NavItem, basePath: string, expandedItems: seq<string>, pathname: string): (r: Entry)
    ensures IsItemEntry(r) && r.title == item.title
    ensures r.ItemButton? <==> |item.children| > 0
    // the button toggles the item's own slug and shows whether that slug is expanded
    ensures r.ItemButton? ==> r.toggles == item.slug && r.expanded == (r.toggles in expandedItems)
    ensures ActivePath(r) == Href(basePath, item.slug) && ActiveExactly(r, pathname)
  {
    var href := Href(basePath, item.slug);
    if |item.children| > 0 then ItemButton(item.title, item.slug, href, pathname == href, item.slug in expandedItems)
    else ItemLink(item.title, href, pathname == href)
  }

  function RenderChildren(children: seq<NavChild>, basePath: string, pathname: string): (r: seq<Entry>)
    ensures forall e :: e in r ==> e.ChildLink? && ActiveExactly(e, pathname)
  {
    if children == [] then []
    else [ChildEntry(children[0], basePath, pathname)] + RenderChildren(children[1..], basePath, pathname)
  }

  function RenderItem(item: NavItem, basePath: string, expandedItems: seq<string>, pathname: string): (r: seq<Entry>)
    ensures forall e :: e in r ==> !e.SectionButton? && ActiveExactly(e, pathname)
  {
    [ItemHead(item, basePath, expandedItems, pathname)]
      + (if |item.children| > 0 && item.slug in expandedItems
         then RenderChildren(item.children, basePath, pathname) else [])
  }

  function RenderItems(items: seq<NavItem>, basePath: string, expandedItems: seq<string>, pathname: string): (r: seq<Entry>)
    ensures forall e :: e in r ==> !e.SectionButton? && ActiveExactly(e, pathname)
  {
    if items == [] then []
    else
      RenderItem(items[0], basePath, expandedItems, pathname)
        + RenderItems(items[1..], basePath, expandedItems, pathname)
  }

  function RenderSection(section: NavSection, expandedSections: seq<string>, expandedItems: seq<string>,
                         pathname: string): (r: seq<Entry>)
    ensures forall e :: e in r ==> ActiveExactly(e, pathname)
  {
    var isExpanded := section.title in expandedSections;
    [SectionButton(section.title, isExpanded)]
      + (if isExpanded then RenderItems(section.items, BasePath(section.title), expandedItems, pathname) else [])
  }

  /** Everything the navigation renders, in order. */
  function RenderNav(sections: seq<NavSection>, expandedSections: seq<string>, expandedItems: seq<string>,
                     pathname: string): (r: seq<Entry>)
    ensures forall e :: e in r ==> ActiveExactly(e, pathname)
  {
    if sections == [] then []
    else
      RenderSection(sections[0], expandedSections, expandedItems, pathname)
        + RenderNav(sections[1..], expandedSections, expandedItems, pathname)
  }

  // ---------------------------------------------------------------------
  // The navigation state
  // ---------------------------------------------------------------------

  class NavState {
    var expandedSections: seq<string>
    var expandedItems: seq<string>

    ghost predicate Valid()
      reads this
    {
      Distinct(expandedSections) && Distinct(expandedItems)
    }

    /** Both sections start expanded, no item does. */
    constructor ()
      ensures Valid()
      ensures expandedSections == ["Data Structures", "Algorithms"]
      ensures expandedItems == []
    {
      expandedSections := ["Data Structures", "Algorithms"];
      expandedItems := [];
    }

    method ToggleSection(title: string)
      requires Valid()
      modifies this
      ensures Valid()
      ensures expandedSections == Toggled(old(expandedSections), title)
      ensures expandedItems == old(expandedItems)
    {
      ToggledKeepsDistinct(expandedSections, title);
      expandedSections := Toggled(expandedSections, title);
    }

    method ToggleItem(slug: string)
      requires Valid()
      modifies this
      ensures Valid()
      ensures expandedItems == Toggled(old(expandedItems), slug)
      ensures expandedSections == old(expandedSections)
    {
      ToggledKeepsDistinct(expandedItems, slug);
      expandedItems := Toggled(expandedItems, slug);
    }
  }

  // ---------------------------------------------------------------------
  // What is rendered
  // ---------------------------------------------------------------------

  /** The section buttons of a rendering, in order. */
  function SectionButtons(entries: seq<Entry>): seq<Entry>
  {
    if entries == [] then []
    else (if entries[0].SectionButton? then [entries[0]] else []) + SectionButtons(entries[1..])
  }

  lemma {:induction false} SectionButtonsAppend(a: seq<Entry>, b: seq<Entry>)
    ensures SectionButtons(a + b) == SectionButtons(a) + SectionButtons(b)
  {
    if a == [] {
      assert a + b == b;
    } else {
      SectionButtonsAppend(a[1..], b);
      assert (a + b)[1..] == a[1..] + b;
    }
  }

  lemma {:induction false} NoSectionButtons(entries: seq<Entry>)
    requires forall e :: e in entries ==> !e.SectionButton?
    ensures SectionButtons(entries) == []
  {
    if entries != [] {
      NoSectionButtons(entries[1..]);
    }
  }

  /** Every section's button is rendered, expanded or not, in registry order,
      showing whether the section is expanded. */
  lemma {:induction false} SectionButtonsInOrder(sections: seq<NavSection>, expandedSections: seq<string>,
                                                 expandedItems: seq<string>, pathname: string)
    ensures SectionButtons(RenderNav(sections, expandedSections, expandedItems, pathname))
         == seq(|sections|, i requires 0 <= i < |sections| =>
                  SectionButton(sections[i].title, sections[i].title in expandedSections))
  {
    if sections != [] {
      var s := sections[0];
      var isExpanded := s.title in expandedSections;
      var items := if isExpanded then RenderItems(s.items, BasePath(s.title), expandedItems, pathname) else [];
      NoSectionButtons(items);
      SectionButtonsAppend([SectionButton(s.title, isExpanded)], items);
      SectionButtonsAppend(RenderSection(s, expandedSections, expandedItems, pathname),
                           RenderNav(sections[1..], expandedSections, expandedItems, pathname));
      SectionButtonsInOrder(sections[1..], expandedSections, expandedItems, pathname);
    }
  }

  // Items

  lemma {:induction false} ItemFromItems(items: seq<NavItem>, basePath: string, expandedItems: seq<string>,
                                         pathname: string, e: Entry)
    requires e in RenderItems(items, basePath, expandedItems, pathname) && IsItemEntry(e)
    ensures exists j :: 0 <= j < |items| && e == ItemHead(items[j], basePath, expandedItems, pathname)
  {
    if e in RenderItem(items[0], basePath, expandedItems, pathname) {
      assert e == ItemHead(items[0], basePath, expandedItems, pathname);
    } else {
      ItemFromItems(items[1..], basePath, expandedItems, pathname, e);
      var j :| 0 <= j < |items[1..]| && e == ItemHead(items[1..][j], basePath, expandedItems, pathname);
      assert items[1..][j] == items[j + 1];
    }
  }

  /** Items render only under an expanded section: an item entry on screen is
      the entry of some item of some expanded section. */
  lemma ItemShownOnlyUnderExpandedSection(sections: seq<NavSection>, expandedSections: seq<string>,
                                          expandedItems: seq<string>, pathname: string, e: Entry)
    requires e in RenderNav(sections, expandedSections, expandedItems, pathname) && IsItemEntry(e)
    ensures exists i, j ::
              0 <= i < |sections| && 0 <= j < |sections[i].items|
              && sections[i].title in expandedSections
              && e == ItemHead(sections[i].items[j], BasePath(sections[i].title), expandedItems, pathname)
  {
    EntryFromNav(sections, expandedSections, expandedItems, pathname, e);
    var i :| 0 <= i < |sections| && e in RenderSection(sections[i], expandedSections, expandedItems, pathname);
    var s := sections[i];
    ItemFromItems(s.items, BasePath(s.title), expandedItems, pathname, e);
  }

  lemma {:induction false} ItemInItems(items: seq<NavItem>, basePath: string, expandedItems: seq<string>,
                                       pathname: string, j: nat)
    requires j < |items|
    ensures ItemHead(items[j], basePath, expandedItems, pathname) in RenderItems(items, basePath, expandedItems, pathname)
  {
    if j > 0 {
      ItemInItems(items[1..], basePath, expandedItems, pathname, j - 1);
      assert items[1..][j - 1] == items[j];
    }
  }

  lemma {:induction false} SectionInNav(sections: seq<NavSection>, expandedSections: seq<string>,
                                        expandedItems: seq<string>, pathname: string, i: nat, e: Entry)
    requires i < |sections| && e in RenderSection(sections[i], expandedSections, expandedItems, pathname)
    ensures e in RenderNav(sections, expandedSections, expandedItems, pathname)
  {
    var head := RenderSection(sections[0], expandedSections, expandedItems, pathname);
    var rest := RenderNav(sections[1..], expandedSections, expandedItems, pathname);
    assert RenderNav(sections, expandedSections, expandedItems, pathname) == head + rest;
    if i == 0 {
      InConcat(e, head, rest);
    } else {
      assert sections[1..][i - 1] == sections[i];
      SectionInNav(sections[1..], expandedSections, expandedItems, pathname, i - 1, e);
      InConcat(e, head, rest);
    }
  }

  lemma InConcat(e: Entry, a: seq<Entry>, b: seq<Entry>)
    requires e in a || e in b
    ensures e in a + b
  {
  }

  /** Every item of an expanded section is rendered: when it has children, a
      toggle button that shows whether its slug is expanded, highlighted on
      `/basePath/slug` and not navigating; otherwise a link to `/basePath/slug`. */
  lemma ItemShownUnderExpandedSection(sections: seq<NavSection>, expandedSections: seq<string>,
                                      expandedItems: seq<string>, pathname: string, i: nat, j: nat)
    requires i < |sections| && j < |sections[i].items| && sections[i].title in expandedSections
    ensures var item := sections[i].items[j];
      var href := Href(BasePath(sections[i].title), item.slug);
      && ItemHead(item, BasePath(sections[i].title), expandedItems, pathname)
           in RenderNav(sections, expandedSections, expandedItems, pathname)
      && ItemHead(item, BasePath(sections[i].title), expandedItems, pathname)
           == (if |item.children| > 0 then ItemButton(item.title, item.slug, href, pathname == href, item.slug in expandedItems)
               else ItemLink(item.title, href, pathname == href))
  {
    var s := sections[i];
    ItemInItems(s.items, BasePath(s.title), expandedItems, pathname, j);
    SectionInNav(sections, expandedSections, expandedItems, pathname, i,
                 ItemHead(s.items[j], BasePath(s.title), expandedItems, pathname));
  }

  /** The item entries of a rendering, in order. */
  function ItemEntries(entries: seq<Entry>): seq<Entry>
  {
    if entries == [] then []
    else (if IsItemEntry(entries[0]) then [entries[0]] else []) + ItemEntries(entries[1..])
  }

  lemma {:induction false} ItemEntriesAppend(a: seq<Entry>, b: seq<Entry>)
    ensures ItemEntries(a + b) == ItemEntries(a) + ItemEntries(b)
  {
    if a == [] {
      assert a + b == b;
    } else {
      var h := if IsItemEntry(a[0]) then [a[0]] else [];
      var x, y := ItemEntries(a[1..]), ItemEntries(b);
      assert ItemEntries(a + b) == h + ItemEntries(a[1..] + b) by {
        assert (a + b)[0] == a[0] && (a + b)[1..] == a[1..] + b;
      }
      assert ItemEntries(a[1..] + b) == x + y by {
        ItemEntriesAppend(a[1..], b);
      }
      assert ItemEntries(a) == h + x;
      assert h + (x + y) == (h + x) + y;
    }
  }

  lemma {:induction false} NoItemEntries(entries: seq<Entry>)
    requires forall e :: e in entries ==> !IsItemEntry(e)
    ensures ItemEntries(entries) == []
  {
    if entries != [] {
      NoItemEntries(entries[1..]);
    }
  }

  /** An item contributes exactly one item entry, its own. */
  lemma ItemEntriesOfItem(item: NavItem, basePath: string, expandedItems: seq<string>, pathname: string)
    ensures ItemEntries(RenderItem(item, basePath, expandedItems, pathname))
         == [ItemHead(item, basePath, expandedItems, pathname)]
  {
    var head := ItemHead(item, basePath, expandedItems, pathname);
    var kids := if |item.children| > 0 && item.slug in expandedItems
                then RenderChildren(item.children, basePath, pathname) else [];
    NoItemEntries(kids);
    ItemEntriesAppend([head], kids);
    assert ItemEntries([head]) == [head];
  }

  /** A section's items are rendered in registry order: its item entries are
      the entries of its items, one each, in order. */
  lemma {:induction false} ItemsInRegistryOrder(items: seq<NavItem>, basePath: string, expandedItems: seq<string>,
                                                pathname: string)
    ensures var r := ItemEntries(RenderItems(items, basePath, expandedItems, pathname));
      |r| == |items| && forall j :: 0 <= j < |items| ==> r[j] == ItemHead(items[j], basePath, expandedItems, pathname)
  {
    if items != [] {
      ItemsInRegistryOrder(items[1..], basePath, expandedItems, pathname);
      ItemEntriesOfItem(items[0], basePath, expandedItems, pathname);
      ItemEntriesAppend(RenderItem(items[0], basePath, expandedItems, pathname),
                        RenderItems(items[1..], basePath, expandedItems, pathname));
      var rest := ItemEntries(RenderItems(items[1..], basePath, expandedItems, pathname));
      OrderStep(items, basePath, expandedItems, pathname, rest);
    }
  }

  /** The inductive step of ItemsInRegistryOrder. */
  lemma OrderStep(items: seq<NavItem>, basePath: string, expandedItems: seq<string>, pathname: string,
                  rest: seq<Entry>)
    requires items != []
    requires |rest| == |items| - 1
    requires forall j :: 0 <= j < |items| - 1 ==> rest[j] == ItemHead(items[1..][j], basePath, expandedItems, pathname)
    ensures var r := [ItemHead(items[0], basePath, expandedItems, pathname)] + rest;
      |r| == |items| && forall j :: 0 <= j < |items| ==> r[j] == ItemHead(items[j], basePath, expandedItems, pathname)
  {
    var r := [ItemHead(items[0], basePath, expandedItems, pathname)] + rest;
    forall j | 1 <= j < |items| ensures r[j] == ItemHead(items[j], basePath, expandedItems, pathname) {
      assert r[j] == rest[j - 1] && items[1..][j - 1] == items[j];
    }
  }

  // Children

  lemma {:induction false} ChildFromChildren(children: seq<NavChild>, basePath: string, pathname: string, e: Entry)
    requires e in RenderChildren(children, basePath, pathname)
    ensures exists k :: 0 <= k < |children| && e == ChildEntry(children[k], basePath, pathname)
  {
    if e != ChildEntry(children[0], basePath, pathname) {
      ChildFromChildren(children[1..], basePath, pathname, e);
      var k :| 0 <= k < |children[1..]| && e == ChildEntry(children[1..][k], basePath, pathname);
      assert children[1..][k] == children[k + 1];
    }
  }

  lemma {:induction false} ChildFromItems(items: seq<NavItem>, basePath: string, expandedItems: seq<string>,
                                          pathname: string, e: Entry)
    requires e in RenderItems(items, basePath, expandedItems, pathname) && e.ChildLink?
    ensures exists j, k ::
              0 <= j < |items| && 0 <= k < |items[j].children|
              && items[j].slug in expandedItems
              && e == ChildEntry(items[j].children[k], basePath, pathname)
  {
    var item := items[0];
    if e in RenderItem(item, basePath, expandedItems, pathname) {
      ChildFromChildren(item.children, basePath, pathname, e);
      var k :| 0 <= k < |item.children| && e == ChildEntry(item.children[k], basePath, pathname);
      assert items[0].children[k] == item.children[k];
    } else {
      ChildFromItems(items[1..], basePath, expandedItems, pathname, e);
      var j, k :| 0 <= j < |items[1..]| && 0 <= k < |items[1..][j].children|
        && items[1..][j].slug in expandedItems
        && e == ChildEntry(items[1..][j].children[k], basePath, pathname);
      assert items[1..][j] == items[j + 1];
    }
  }

  /** Children render only under an expanded item of an expanded section. */
  lemma ChildShownOnlyUnderExpandedItem(sections: seq<NavSection>, expandedSections: seq<string>,
                                        expandedItems: seq<string>, pathname: string, e: Entry)
    requires e in RenderNav(sections, expandedSections, expandedItems, pathname) && e.ChildLink?
    ensures exists i, j, k ::
              0 <= i < |sections| && 0 <= j < |sections[i].items|
              && 0 <= k < |sections[i].items[j].children|
              && sections[i].title in expandedSections && sections[i].items[j].slug in expandedItems
              && e == ChildEntry(sections[i].items[j].children[k], BasePath(sections[i].title), pathname)
  {
    EntryFromNav(sections, expandedSections, expandedItems, pathname, e);
    var i :| 0 <= i < |sections| && e in RenderSection(sections[i], expandedSections, expandedItems, pathname);
    var s := sections[i];
    ChildFromItems(s.items, BasePath(s.title), expandedItems, pathname, e);
  }

  /** Every entry of the navigation comes from the rendering of one section. */
  lemma {:induction false} EntryFromNav(sections: seq<NavSection>, expandedSections: seq<string>,
                                        expandedItems: seq<string>, pathname: string, e: Entry)
    requires e in RenderNav(sections, expandedSections, expandedItems, pathname)
    ensures exists i :: 0 <= i < |sections| && e in RenderSection(sections[i], expandedSections, expandedItems, pathname)
  {
    if e !in RenderSection(sections[0], expandedSections, expandedItems, pathname) {
      EntryFromNav(sections[1..], expandedSections, expandedItems, pathname, e);
      var i :| 0 <= i < |sections[1..]|
        && e in RenderSection(sections[1..][i], expandedSections, expandedItems, pathname);
      assert sections[1..][i] == sections[i + 1];
    }
  }


  lemma {:induction false} ChildInChildren(children: seq<NavChild>, basePath: string, pathname: string, k: nat)
    requires k < |children|
    ensures ChildEntry(children[k], basePath, pathname) in RenderChildren(children, basePath, pathname)
  {
    if k > 0 {
      ChildInChildren(children[1..], basePath, pathname, k - 1);
      assert children[1..][k - 1] == children[k];
    }
  }

  /** An item's children are rendered in registry order, each linking to
      `/basePath/childSlug`. */
  lemma {:induction false} ChildrenInRegistryOrder(children: seq<NavChild>, basePath: string, pathname: string)
    ensures var r := RenderChildren(children, basePath, pathname);
      |r| == |children| && forall k :: 0 <= k < |children| ==> r[k] == ChildEntry(children[k], basePath, pathname)
  {
    if children != [] {
      ChildrenInRegistryOrder(children[1..], basePath, pathname);
      var r := RenderChildren(children, basePath, pathname);
      var rest := RenderChildren(children[1..], basePath, pathname);
      assert r == [ChildEntry(children[0], basePath, pathname)] + rest;
      forall k | 1 <= k < |children| ensures r[k] == ChildEntry(children[k], basePath, pathname) {
        assert r[k] == rest[k - 1] && children[1..][k - 1] == children[k];
      }
    }
  }

  lemma {:induction false} EntryInItems(items: seq<NavItem>, basePath: string, expandedItems: seq<string>,
                                        pathname: string, j: nat, e: Entry)
    requires j < |items| && e in RenderItem(items[j], basePath, expandedItems, pathname)
    ensures e in RenderItems(items, basePath, expandedItems, pathname)
  {
    if j > 0 {
      EntryInItems(items[1..], basePath, expandedItems, pathname, j - 1, e);
      assert items[1..][j - 1] == items[j];
    }
  }

  /** Every child of an expanded item in an expanded section is rendered, as a
      link to `/basePath/childSlug`. */
  lemma ChildShownUnderExpandedItem(sections: seq<NavSection>, expandedSections: seq<string>,
                                    expandedItems: seq<string>, pathname: string, i: nat, j: nat, k: nat)
    requires i < |sections| && j < |sections[i].items| && k < |sections[i].items[j].children|
    requires sections[i].title in expandedSections && sections[i].items[j].slug in expandedItems
    ensures var child := sections[i].items[j].children[k];
      var href := Href(BasePath(sections[i].title), child.slug);
      ChildLink(child.title, href, pathname == href) in RenderNav(sections, expandedSections, expandedItems, pathname)
  {
    var s := sections[i];
    var item := s.items[j];
    var base := BasePath(s.title);
    var e := ChildEntry(item.children[k], base, pathname);
    ChildInChildren(item.children, base, pathname, k);
    EntryInItems(s.items, base, expandedItems, pathname, j, e);
    SectionInNav(sections, expandedSections, expandedItems, pathname, i, e);
  }

  // Membership only

  /** Rendering looks only at which keys are expanded, not at their order or
      repetition. */
  lemma {:induction false} RenderSeesMembershipOnly(sections: seq<NavSection>, s1: seq<string>, s2: seq<string>,
                                                    i1: seq<string>, i2: seq<string>, pathname: string)
    requires forall x :: x in s1 <==> x in s2
    requires forall x :: x in i1 <==> x in i2
    ensures RenderNav(sections, s1, i1, pathname) == RenderNav(sections, s2, i2, pathname)
  {
    if sections != [] {
      var s := sections[0];
      assert s.title in s1 <==> s.title in s2;
      ItemsSeeMembershipOnly(s.items, BasePath(s.title), i1, i2, pathname);
      RenderSeesMembershipOnly(sections[1..], s1, s2, i1, i2, pathname);
    }
  }

  lemma {:induction false} ItemsSeeMembershipOnly(items: seq<NavItem>, basePath: string,
                                                  i1: seq<string>, i2: seq<string>, pathname: string)
    requires forall x :: x in i1 <==> x in i2
    ensures RenderItems(items, basePath, i1, pathname) == RenderItems(items, basePath, i2, pathname)
  {
    if items != [] {
      assert items[0].slug in i1 <==> items[0].slug in i2;
      ItemsSeeMembershipOnly(items[1..], basePath, i1, i2, pathname);
    }
  }

  /** Collapsing and re-expanding a section (or an item) gives back the very
      same rendering, item expansion included, although the key list may
      have changed order. */
  lemma DoubleToggleKeepsRendering(sections: seq<NavSection>, expandedSections: seq<string>,
                                   expandedItems: seq<string>, pathname: string, title: string, slug: string)
    ensures RenderNav(sections, Toggled(Toggled(expandedSections, title), title), expandedItems, pathname)
         == RenderNav(sections, expandedSections, expandedItems, pathname)
    ensures RenderNav(sections, expandedSections, Toggled(Toggled(expandedItems, slug), slug), pathname)
         == RenderNav(sections, expandedSections, expandedItems, pathname)
  {
    RenderSeesMembershipOnly(sections, Toggled(Toggled(expandedSections, title), title), expandedSections,
                             expandedItems, expandedItems, pathname);
    RenderSeesMembershipOnly(sections, expandedSections, expandedSections,
                             Toggled(Toggled(expandedItems, slug), slug), expandedItems, pathname);
  }

  /** Pressing an item's toggle button calls `toggleItem` on the slug the
      button carries: the button flips its `expanded` and the item's children
      appear or disappear with it. */
  lemma PressItemButton(item: NavItem, basePath: string, expandedItems: seq<string>, pathname: string)
    requires ItemHead(item, basePath, expandedItems, pathname).ItemButton?
    ensures var e := ItemHead(item, basePath, expandedItems, pathname);
      var after := Toggled(expandedItems, e.toggles);
      && ItemHead(item, basePath, after, pathname) == e.(expanded := !e.expanded)
      && RenderItem(item, basePath, after, pathname)
         == [e.(expanded := !e.expanded)]
            + (if e.expanded then [] else RenderChildren(item.children, basePath, pathname))
  {
  }

  /** Pressing a section's button calls `toggleSection` on its title: the
      button flips and the section's items appear or disappear with it. */
  lemma PressSectionButton(section: NavSection, expandedSections: seq<string>, expandedItems: seq<string>,
                           pathname: string)
    ensures var e := RenderSection(section, expandedSections, expandedItems, pathname)[0];
      && e == SectionButton(section.title, section.title in expandedSections)
      && RenderSection(section, Toggled(expandedSections, e.title), expandedItems, pathname)
         == [SectionButton(e.title, !e.expanded)]
            + (if e.expanded then [] else RenderItems(section.items, BasePath(section.title), expandedItems, pathname))
  {
  }

  // ---------------------------------------------------------------------
  // Facts about the registry
  // ---------------------------------------------------------------------

  /** An href of a section's entry names the section's base path and the slug. */
  lemma HrefDetermines(title1: string, slug1: string, title2: string, slug2: string)
    requires Href(BasePath(title1), slug1) == Href(BasePath(title2), slug2)
    ensures BasePath(title1) == BasePath(title2) && slug1 == slug2
  {
    var b1, b2 := BasePath(title1), BasePath(title2);
    var h1, h2 := Href(b1, slug1), Href(b2, slug2);
    assert h1[1] == b1[0] && h2[1] == b2[0];
    assert b1 == b2;
    assert slug1 == h1[|b1| + 2..];
    assert slug2 == h2[|b2| + 2..];
  }

  /** No two sections share a base path. */
  predicate DistinctBasePaths(sections: seq<NavSection>)
  {
    forall i, j :: 0 <= i < j < |sections| ==> BasePath(sections[i].title) != BasePath(sections[j].title)
  }

  /** The registry's two sections map to the two base paths. */
  lemma RegistryBasePaths()
    ensures |NavigationData| == 2
    ensures BasePath(NavigationData[0].title) == "data-structures"
    ensures BasePath(NavigationData[1].title) == "algorithms"
    ensures DistinctBasePaths(NavigationData)
  {
  }

  /** When sections have distinct base paths, an item shows exactly when its
      own section is expanded. */
  lemma ItemShownIff(sections: seq<NavSection>, expandedSections: seq<string>, expandedItems: seq<string>,
                     pathname: string, i: nat, j: nat)
    requires DistinctBasePaths(sections)
    requires i < |sections| && j < |sections[i].items|
    ensures ItemHead(sections[i].items[j], BasePath(sections[i].title), expandedItems, pathname)
              in RenderNav(sections, expandedSections, expandedItems, pathname)
        <==> sections[i].title in expandedSections
  {
    var e := ItemHead(sections[i].items[j], BasePath(sections[i].title), expandedItems, pathname);
    if sections[i].title in expandedSections {
      ItemShownUnderExpandedSection(sections, expandedSections, expandedItems, pathname, i, j);
    }
    if e in RenderNav(sections, expandedSections, expandedItems, pathname) {
      ItemShownOnlyUnderExpandedSection(sections, expandedSections, expandedItems, pathname, e);
      var i', j' :|
        0 <= i' < |sections| && 0 <= j' < |sections[i'].items|
        && sections[i'].title in expandedSections
        && e == ItemHead(sections[i'].items[j'], BasePath(sections[i'].title), expandedItems, pathname);
      HrefDetermines(sections[i].title, sections[i].items[j].slug, sections[i'].title, sections[i'].items[j'].slug);
      assert i == i';
    }
  }

  /** Each child's slug starts with the slug of the item that holds it. */
  predicate ChildSlugsNested(section: NavSection)
  {
    forall j, k :: 0 <= j < |section.items| && 0 <= k < |section.items[j].children| ==>
      section.items[j].slug <= section.items[j].children[k].slug
  }

  /** No slug of an item with children starts with the slug of another such
      item of the same section. */
  predicate ParentSlugsApart(section: NavSection)
  {
    forall j, j' ::
      && 0 <= j < |section.items| && 0 <= j' < |section.items| && j != j'
      && section.items[j].children != [] && section.items[j'].children != []
      ==> !(section.items[j].slug <= section.items[j'].slug)
  }

  /** Two prefixes of one sequence are prefixes one of the other. */
  lemma PrefixesOfOne(a: string, b: string, c: string)
    requires a <= c && b <= c
    ensures a <= b || b <= a
  {
    if |a| <= |b| {
      assert a == c[..|a|] == b[..|a|];
    } else {
      assert b == c[..|b|] == a[..|b|];
    }
  }

  /** When sections have distinct base paths, and within a section each child
      slug extends its own parent's slug and parent slugs do not extend each
      other, a child shows exactly when its section and its own parent item
      are expanded. */
  lemma ChildShownIff(sections: seq<NavSection>, expandedSections: seq<string>, expandedItems: seq<string>,
                      pathname: string, i: nat, j: nat, k: nat)
    requires DistinctBasePaths(sections)
    requires i < |sections| && j < |sections[i].items| && k < |sections[i].items[j].children|
    requires ChildSlugsNested(sections[i]) && ParentSlugsApart(sections[i])
    ensures ChildEntry(sections[i].items[j].children[k], BasePath(sections[i].title), pathname)
              in RenderNav(sections, expandedSections, expandedItems, pathname)
        <==> sections[i].title in expandedSections && sections[i].items[j].slug in expandedItems
  {
    var child := sections[i].items[j].children[k];
    var e := ChildEntry(child, BasePath(sections[i].title), pathname);
    if sections[i].title in expandedSections && sections[i].items[j].slug in expandedItems {
      ChildShownUnderExpandedItem(sections, expandedSections, expandedItems, pathname, i, j, k);
    }
    if e in RenderNav(sections, expandedSections, expandedItems, pathname) {
      ChildShownOnlyUnderExpandedItem(sections, expandedSections, expandedItems, pathname, e);
      var i', j', k' :|
        0 <= i' < |sections| && 0 <= j' < |sections[i'].items|
        && 0 <= k' < |sections[i'].items[j'].children|
        && sections[i'].title in expandedSections && sections[i'].items[j'].slug in expandedItems
        && e == ChildEntry(sections[i'].items[j'].children[k'], BasePath(sections[i'].title), pathname);
      SameChildEntry(sections, pathname, i, j, k, i', j', k');
    }
  }

  /** Under the conditions of `ChildShownIff`, two children with the same
      entry sit in the same section under the same parent item. */
  lemma SameChildEntry(sections: seq<NavSection>, pathname: string, i: nat, j: nat, k: nat, i': nat, j': nat, k': nat)
    requires DistinctBasePaths(sections)
    requires i < |sections| && j < |sections[i].items| && k < |sections[i].items[j].children|
    requires i' < |sections| && j' < |sections[i'].items| && k' < |sections[i'].items[j'].children|
    requires ChildSlugsNested(sections[i]) && ParentSlugsApart(sections[i])
    requires ChildEntry(sections[i].items[j].children[k], BasePath(sections[i].title), pathname)
          == ChildEntry(sections[i'].items[j'].children[k'], BasePath(sections[i'].title), pathname)
    ensures i == i' && j == j'
  {
    var slug, slug' := sections[i].items[j].children[k].slug, sections[i'].items[j'].children[k'].slug;
    HrefDetermines(sections[i].title, slug, sections[i'].title, slug');
    assert i == i';
    var items := sections[i].items;
    assert items[j].slug <= slug && items[j'].slug <= slug;
    PrefixesOfOne(items[j].slug, items[j'].slug, slug);
  }

  /** The registry meets the conditions of `ChildShownIff`. */
  lemma RegistryChildOwnership()
    ensures forall i :: 0 <= i < |NavigationData| ==>
              ChildSlugsNested(NavigationData[i]) && ParentSlugsApart(NavigationData[i])
  {
    DataStructuresChildren();
    AlgorithmsChildren();
    assert NavigationData[0] == DataStructures && NavigationData[1] == Algorithms;
    assert Algorithms.items[0].slug == "sorting" && Algorithms.items[1].slug == "searching";
    assert "sorting"[1] != "searching"[1];
  }

  /** In the registry a child is on screen exactly when its section and its
      own parent item are expanded. */
  lemma RegistryChildShownIff(expandedSections: seq<string>, expandedItems: seq<string>, pathname: string,
                              i: nat, j: nat, k: nat)
    requires i < |NavigationData| && j < |NavigationData[i].items| && k < |NavigationData[i].items[j].children|
    ensures ChildEntry(NavigationData[i].items[j].children[k], BasePath(NavigationData[i].title), pathname)
              in RenderNav(NavigationData, expandedSections, expandedItems, pathname)
        <==> NavigationData[i].title in expandedSections && NavigationData[i].items[j].slug in expandedItems
  {
    RegistryBasePaths();
    RegistryChildOwnership();
    ChildShownIff(NavigationData, expandedSections, expandedItems, pathname, i, j, k);
  }

  /** The slugs of some items, in order. */
  function Slugs(items: seq<NavItem>): seq<string>
  {
    if items == [] then [] else [items[0].slug] + Slugs(items[1..])
  }

  /** The slugs of all items of the registry, section by section. */
  function ItemSlugs(sections: seq<NavSection>): seq<string>
  {
    if sections == [] then [] else Slugs(sections[0].items) + ItemSlugs(sections[1..])
  }

  lemma DataStructuresSlugs()
    ensures Slugs(DataStructures.items)
         == ["arrays", "linked-lists", "stacks", "queues", "trees", "graphs", "hash-tables", "heaps"]
  {
  }

  lemma AlgorithmsSlugs()
    ensures Slugs(Algorithms.items) == ["sorting", "searching", "dynamic-programming", "greedy", "graph-algorithms"]
  {
  }

  /** The registry's item slugs, section by section. */
  lemma RegistryItemSlugs()
    ensures ItemSlugs(NavigationData)
         == ["arrays", "linked-lists", "stacks", "queues", "trees", "graphs", "hash-tables", "heaps",
             "sorting", "searching", "dynamic-programming", "greedy", "graph-algorithms"]
  {
    ItemSlugsOfTwo(DataStructures, Algorithms);
    DataStructuresSlugs();
    AlgorithmsSlugs();
  }

  lemma ItemSlugsOfTwo(a: NavSection, b: NavSection)
    ensures ItemSlugs([a, b]) == Slugs(a.items) + Slugs(b.items)
  {
    assert [a, b][1..] == [b];
    assert ItemSlugs([b]) == Slugs(b.items) + ItemSlugs([]);
  }

  lemma SlugListDistinct()
    ensures Distinct(["arrays", "linked-lists", "stacks", "queues", "trees", "graphs", "hash-tables", "heaps",
                      "sorting", "searching", "dynamic-programming", "greedy", "graph-algorithms"])
  {
  }

  /** No item slug of the registry repeats, so toggling an item's slug
      expands or collapses that item alone. */
  lemma RegistrySlugsDistinct()
    ensures Distinct(ItemSlugs(NavigationData))
  {
    RegistryItemSlugs();
    SlugListDistinct();
  }

  /** No item of Data Structures has children. */
  lemma DataStructuresChildren()
    ensures forall j :: 0 <= j < |DataStructures.items| ==> DataStructures.items[j].children == []
  {
  }

  /** In Algorithms only the first two items (Sorting, Searching) have
      children, and each child's slug starts with its parent's slug. */
  lemma AlgorithmsChildren()
    ensures forall j :: 0 <= j < |Algorithms.items| ==> (|Algorithms.items[j].children| > 0 <==> j < 2)
    ensures forall j, k :: 0 <= j < |Algorithms.items| && 0 <= k < |Algorithms.items[j].children| ==>
              Algorithms.items[j].slug <= Algorithms.items[j].children[k].slug
  {
    AlgorithmsParents();
    AlgorithmsChildSlugs();
  }

  lemma AlgorithmsParents()
    ensures forall j :: 0 <= j < |Algorithms.items| ==> (|Algorithms.items[j].children| > 0 <==> j < 2)
  {
  }

  lemma AlgorithmsChildSlugs()
    ensures forall j, k :: 0 <= j < |Algorithms.items| && 0 <= k < |Algorithms.items[j].children| ==>
              Algorithms.items[j].slug <= Algorithms.items[j].children[k].slug
  {
    AlgorithmsParents();
    forall j, k | 0 <= j < |Algorithms.items| && 0 <= k < |Algorithms.items[j].children|
      ensures Algorithms.items[j].slug <= Algorithms.items[j].children[k].slug
    {
      if j == 0 {
        ChildrenExtend(Algorithms.items[0], k);
      } else {
        ChildrenExtend(Algorithms.items[1], k);
      }
    }
  }

  /** Every child slug of the item extends the item's slug (checked one item at a time). */
  lemma ChildrenExtend(item: NavItem, k: nat)
    requires item == Algorithms.items[0] || item == Algorithms.items[1]
    requires k < |item.children|
    ensures item.slug <= item.children[k].slug
  {
  }

  /** In the initial state every item of the registry is on screen. */
  lemma InitialViewShowsEveryItem(pathname: string, i: nat, j: nat)
    requires i < |NavigationData| && j < |NavigationData[i].items|
    ensures ItemHead(NavigationData[i].items[j], BasePath(NavigationData[i].title), [], pathname)
              in RenderNav(NavigationData, ["Data Structures", "Algorithms"], [], pathname)
  {
    assert NavigationData[i].title in ["Data Structures", "Algorithms"];
    ItemShownUnderExpandedSection(NavigationData, ["Data Structures", "Algorithms"], [], pathname, i, j);
  }

  /** The Binary Search child has the slug `searching`, the same as its parent,
      so on `/algorithms/searching` (with its parent expanded) both the
      Searching button and the Binary Search link are active. */
  lemma SearchingRouteHasTwoActiveEntries(expandedSections: seq<string>, expandedItems: seq<string>,
                                          pathname: string)
    requires "Algorithms" in expandedSections && "searching" in expandedItems
    requires pathname == "/algorithms/searching"
    ensures ItemButton("Searching", "searching", pathname, true, true)
              in RenderNav(NavigationData, expandedSections, expandedItems, pathname)
    ensures ChildLink("Binary Search", pathname, true)
              in RenderNav(NavigationData, expandedSections, expandedItems, pathname)
  {
    var nav := NavigationData;
    assert nav[1].title == "Algorithms";
    assert nav[1].items[1].slug == "searching";
    assert nav[1].items[1].children[0] == NavChild("Binary Search", "searching");
    assert Href("algorithms", "searching") == pathname;
    ItemShownUnderExpandedSection(nav, expandedSections, expandedItems, pathname, 1, 1);
    ChildShownUnderExpandedItem(nav, expandedSections, expandedItems, pathname, 1, 1, 0);
  }
}
