# learn-dsa-algo navigation, modelled in Dafny

The learn-dsa-algo front end computes two things itself: the header's
breadcrumb trail and the side navigation. Everything else in it is static
teaching content or plumbing around `fetch`. This project models those two
components and proves what they promise.

- `strings.dfy` (module `Strings`): JavaScript's `s.split(c)` for a
  one-character separator and `ws.join(sep)`, with both round trips proved.
- `header.dfy` (module `Header`): breadcrumbs, from `frontend/components/header.tsx`.
  - `Breadcrumbs(pathname)` is the specification.
  - `GenerateBreadcrumbs` is the source's `for` loop that pushes crumbs.
  - The loop is proved equal to the specification.
  - A segment's label (split on `-`, capitalise each word, join with spaces)
    is proved equal to a character-by-character title-case scan. That gives
    its length and each of its characters, shows it has no `-`, and shows
    that labelling twice changes nothing.
  - The number of crumbs equals the number of runs of non-`/` characters.
  - Crumb paths are strictly nested prefixes.
  - The segments are the route's non-empty `/`-separated pieces, in order:
    the segments of `p/q` are those of `p` followed by those of `q`.
  - The last crumb's path equals an independent character scan of the
    route. The scan puts one `/` before each run of non-slash characters
    and drops every other slash, so `/a//b/` and `a/b` both end in `/a/b`.
  - `RenderTrail` is the rendering rule: a home link, links for every crumb
    except the last, and plain text for the last.
- `side_nav.dfy` (module `SideNav`): the side navigation, from `frontend/components/side-nav.tsx`.
  - The section/item/child registry is a constant (`NavigationData`, made of
    `DataStructures` and `Algorithms`).
  - The two lists of expanded keys are fields of a `NavState` class.
  - The two toggles are methods that update those fields.
  - `RenderNav` is the list of entries a route and a state produce.
  - Proved properties:
    - a toggle flips the membership of exactly one key;
    - toggles keep the lists free of duplicates;
    - toggling a key twice restores membership. It restores the exact list
      when the key was absent. A present key has all its copies removed and
      is appended once at the end, so the list changes unless the key was its
      single last element;
    - an entry is highlighted exactly when the route equals its
      `/basePath/slug`;
    - an item with children is a toggle button that never navigates, and
      an item without children is a link;
    - each button carries the key it toggles (a section's title, an item's
      slug), and pressing it flips the button and shows or hides what is
      under it;
    - an item is shown exactly when its section is expanded, and, in the
      registry, a child exactly when its section and its own parent item are;
    - section buttons, items and children appear in registry order;
    - the rendering depends only on key membership, so collapsing and
      re-expanding gives back the same rendering.

The route (`usePathname()`) is a parameter of every rendering function.
React state is plain fields.

On `/algorithms/searching`, when Algorithms and the Searching item are both
expanded, two entries are active at once: the Searching item, and its Binary
Search child. (While Searching is collapsed, as it is initially, the child
is not rendered and only the Searching item is active.) The child's slug in the registry is
`searching`, the same as its parent's (`frontend/components/side-nav.tsx:60`).
The Binary Search page is served at that route, so this is how the site is
laid out; it is not a slip. `SearchingRouteHasTwoActiveEntries` proves the
two active entries. So "exactly one entry is active for a matching route"
does not hold for this registry.

Sorting and Searching have children, so each renders as a toggle button with
no link (`frontend/components/side-nav.tsx:132-153`). So the side navigation
offers no link to `/algorithms/sorting`. `/algorithms/searching` is reached
through the Binary Search child.

Toggling a key twice restores the set of expanded keys. The list itself can
change order: a key that was present is filtered out, then appended at the
end (`ToggleTwicePresent`, `ToggleTwiceReorders`). Rendering reads only
`includes`, so what is shown is restored exactly
(`DoubleToggleKeepsRendering`).

## Model

| member | source | states |
|---|---|---|
| Strings.Split | frontend/components/header.tsx:15 | `split` yields at least one piece, no piece holds the separator, and the first piece is the longest separator-free prefix of the input |
| Strings.SplitJoin | frontend/components/header.tsx:15-19 | splitting the join of separator-free pieces gives the pieces back |
| Strings.JoinSplit | frontend/components/header.tsx:20-23 | joining the pieces of a split with the same separator gives the string back |
| Strings.Join | frontend/components/header.tsx:19 | `join`; it is the inverse of `Split` by `SplitJoin` and `JoinSplit`, and `JoinSnoc` gives its last piece |
| Strings.SplitConcat | frontend/components/header.tsx:15 | splitting `p`, a separator, then `q` gives the pieces of `p` followed by those of `q` |
| Strings.SplitAfterWord | frontend/components/header.tsx:15 | a separator-free word in front of a string is glued to the first piece of that string's split |
| Strings.SplitNoSeparator | frontend/components/header.tsx:21 | a string without the separator splits into itself alone |
| Strings.SplitWordThenSeparator | frontend/components/header.tsx:15 | a word followed by the separator contributes exactly that word as a piece |
| Strings.JoinSnoc | frontend/components/header.tsx:19 | appending a piece appends the separator and the piece to the join |
| Header.Upper | frontend/components/header.tsx:22 | exactly the ASCII lower-case letters change, each into the upper-case letter at the same place in the alphabet (`a` to `A`, …, `z` to `Z`), and upper-casing twice changes nothing more |
| Header.Capitalize | frontend/components/header.tsx:22 | a word keeps its length; its first character is upper-cased and the others are kept |
| Header.CapitalizeWords | frontend/components/header.tsx:22 | word i of the result is word i capitalised, and there are as many words |
| Header.Label | frontend/components/header.tsx:20-23 | split on `-`, capitalise each word, join with spaces equals the independent title-case scan of the segment |
| Header.TitleCase | frontend/components/header.tsx:20-23 | the reference character scan keeps the length of its input |
| Header.TitleCaseAt | frontend/components/header.tsx:20-23 | at each position the scan gives a space for `-`, the upper-cased character right after a `-` or at the start, and the character itself elsewhere |
| Header.LabelScan | frontend/components/header.tsx:20-23 | the label of a hyphen-free word followed by any text is the capitalised word followed by the scan of the text |
| Header.LabelChars | frontend/components/header.tsx:20-23 | a label has its segment's length; each `-` becomes a space and each word's first character is upper-cased (ASCII), with all other characters kept; a label has no `-` |
| Header.LabelIdempotent | frontend/components/header.tsx:20-25 | labelling a label returns it unchanged |
| Header.LabelTwoWords | frontend/components/header.tsx:20-23 | a two-word segment such as `linked-lists` becomes the two capitalised words with one space between them |
| Header.NonEmpty | frontend/components/header.tsx:15 | `filter(Boolean)` keeps only non-empty pieces, each from the input |
| Header.NonEmptyMembers | frontend/components/header.tsx:15 | a string is kept exactly when it is in the input and non-empty |
| Header.NonEmptyAppend | frontend/components/header.tsx:15 | filtering a concatenation filters each part and keeps them in order |
| Header.Segments | frontend/components/header.tsx:15 | route segments are non-empty and hold no `/` |
| Header.SegmentsConcat | frontend/components/header.tsx:15 | the segments of `p/q` are the segments of `p` followed by those of `q` |
| Header.CollapseScan | frontend/components/header.tsx:15-19 | after a slash-free word, the rooted segments are the word (when non-empty) followed by the slash-collapsing scan of the rest |
| Header.SegmentsAreCollapsedRoute | frontend/components/header.tsx:15-19 | `/` followed by the segments joined with `/` (nothing when there are none) equals the route with one `/` before each run of non-slash characters and every other slash dropped |
| Header.SplitRuns | frontend/components/header.tsx:15 | the number of segments equals the number of maximal runs of non-separator characters |
| Header.RunsZero | frontend/components/header.tsx:13-15 | a string has no runs exactly when it is made only of separators |
| Header.NonEmptyKeeps | frontend/components/header.tsx:15 | filtering a list with no empty piece changes nothing |
| Header.SegmentsOfJoined | frontend/components/header.tsx:15-19 | the segments of `/` followed by joined non-empty, slash-free segments are those segments |
| Header.Breadcrumbs | frontend/components/header.tsx:12-29 | the crumbs of a route: none for `/`, else one per segment; `GenerateBreadcrumbs`, `BreadcrumbsEmptyIff`, `BreadcrumbsCount`, `CrumbPathsOfRoute` and `LastCrumbPath` state what they are |
| Header.CrumbPath | frontend/components/header.tsx:19 | the path of crumb i; `CrumbPathStep` states that it extends the previous path by `/` and segment i |
| Header.GenerateBreadcrumbs | frontend/components/header.tsx:12-29 | the loop that pushes one crumb per segment returns exactly `Breadcrumbs(pathname)`: crumb i has the label of segment i and the path of segments 0..i |
| Header.RootHasNoSegments | frontend/components/header.tsx:13-15 | `/` and the empty route have no segments |
| Header.BreadcrumbsEmptyIff | frontend/components/header.tsx:13-15 | the trail is empty exactly when the route is made only of slashes (including `/` and the empty route) |
| Header.BreadcrumbsCount | frontend/components/header.tsx:15-18 | the number of crumbs is the number of non-empty segments, so leading, trailing and doubled slashes add none |
| Header.CrumbPathStep | frontend/components/header.tsx:19 | each crumb's path is the previous one's followed by `/` and its own segment |
| Header.CrumbPathsNested | frontend/components/header.tsx:18-19 | for non-empty segments an earlier crumb path is a proper prefix of a later one |
| Header.CrumbPathsOfRoute | frontend/components/header.tsx:18-19 | on any route an earlier crumb's path is a proper prefix of a later crumb's path |
| Header.LastCrumbIsNormalForm | frontend/components/header.tsx:18-19 | the last crumb's path is a normal form: the route made of it has the very same breadcrumbs |
| Header.LastCrumbPath | frontend/components/header.tsx:18-19 | when there are crumbs, the last crumb's path is the route with its slashes collapsed, so `/a//b/` gives `/a/b` |
| Header.TwoSegmentRoute | frontend/components/header.tsx:12-29 | `/a/b` gives the crumbs (label of a, `/a`) and (label of b, `/a/b`) in that order |
| Header.RenderTrail | frontend/components/header.tsx:38-63 | the rendered trail; `TrailShape` states its shape |
| Header.TrailShape | frontend/components/header.tsx:38-63 | the home link comes first, exactly the last crumb is plain text with its label, and every other crumb links to its own path |
| Header.TrailLinksArePrefixes | frontend/components/header.tsx:45-63 | every crumb link leads to a proper prefix of the last crumb's path, the normalised route |
| Header.TrailLinksBelowLast | frontend/components/header.tsx:45-63 | when every crumb path lies below the last one, so does every rendered crumb link |
| SideNav.Without | frontend/components/side-nav.tsx:78 | `filter(s => s !== key)` keeps exactly the other keys |
| SideNav.Toggled | frontend/components/side-nav.tsx:76-86 | a toggle flips the membership of its key and keeps every other key's |
| SideNav.WithoutKeepsDistinct | frontend/components/side-nav.tsx:78 | filtering keeps a duplicate-free list duplicate-free |
| SideNav.ToggledKeepsDistinct | frontend/components/side-nav.tsx:76-86 | a toggle never introduces a duplicate |
| SideNav.WithoutAbsent | frontend/components/side-nav.tsx:78 | filtering out an absent key returns the list unchanged |
| SideNav.WithoutAppend | frontend/components/side-nav.tsx:78 | filtering distributes over concatenation |
| SideNav.ToggleTwiceRestoresMembership | frontend/components/side-nav.tsx:76-86 | toggling the same key twice restores every key's membership |
| SideNav.ToggleTwiceAbsent | frontend/components/side-nav.tsx:76-86 | toggling an absent key twice restores the exact list |
| SideNav.ToggleTwicePresent | frontend/components/side-nav.tsx:76-86 | toggling a present key twice removes all its copies and appends it once at the end |
| SideNav.ToggleTwiceReorders | frontend/components/side-nav.tsx:76-80 | for two keys, toggling the first twice turns `[a, b]` into `[b, a]` |
| SideNav.BasePath | frontend/components/side-nav.tsx:104 | the base path is `data-structures` exactly for the title `Data Structures` and `algorithms` otherwise |
| SideNav.Href | frontend/components/side-nav.tsx:124 | `/basePath/slug` is `/`, the base path, `/`, the slug, and cuts back into them |
| SideNav.ChildEntry | frontend/components/side-nav.tsx:157-176 | a child is a link with its title to `/basePath/childSlug`, active exactly on that route |
| SideNav.ItemHead | frontend/components/side-nav.tsx:123-195 | an item with children is a toggle button that toggles the item's own slug, shows whether that slug is expanded and does not navigate; an item without children is a link; either is highlighted exactly on `/basePath/slug` |
| SideNav.PressItemButton | frontend/components/side-nav.tsx:133-157 | pressing an item's button toggles the slug the button carries: the button's expansion flips and the item's children appear or disappear with it |
| SideNav.PressSectionButton | frontend/components/side-nav.tsx:107-121 | a section's first entry is its button, and toggling its title flips the button and shows or hides the section's items |
| SideNav.RenderChildren | frontend/components/side-nav.tsx:155-177 | children render as links, each active exactly when the route equals its href |
| SideNav.RenderItem | frontend/components/side-nav.tsx:123-197 | an item renders no section button, and each of its entries is highlighted exactly when the route equals its `/basePath/slug` |
| SideNav.RenderItems | frontend/components/side-nav.tsx:123-198 | the items of a section render no section button, and each entry is highlighted exactly on its `/basePath/slug` |
| SideNav.RenderSection | frontend/components/side-nav.tsx:102-198 | every item and child entry of a section is highlighted exactly when the route equals its `/basePath/slug` |
| SideNav.RenderNav | frontend/components/side-nav.tsx:102-198 | every item and child entry of the navigation is highlighted exactly when the route equals its `/basePath/slug`; no prefix match, no trailing-slash normalisation |
| SideNav.NavState.constructor | frontend/components/side-nav.tsx:73-74 | both sections start expanded, in the order `Data Structures`, `Algorithms`, and no item does; the lists are duplicate-free |
| SideNav.NavState.ToggleSection | frontend/components/side-nav.tsx:76-80 | the section list becomes its toggle by the title, the item list is unchanged, and no duplicate appears |
| SideNav.NavState.ToggleItem | frontend/components/side-nav.tsx:82-86 | the item list becomes its toggle by the slug, the section list is unchanged, and no duplicate appears |
| SideNav.SectionButtonsInOrder | frontend/components/side-nav.tsx:102-119 | every section's button is rendered, expanded or not, in registry order, showing whether the section is expanded |
| SideNav.ItemShownOnlyUnderExpandedSection | frontend/components/side-nav.tsx:121-128 | any item entry on screen belongs to an item of an expanded section |
| SideNav.ItemShownUnderExpandedSection | frontend/components/side-nav.tsx:121-153 | every item of an expanded section is on screen: with children, a toggle button that shows its expansion, is highlighted on `/basePath/slug` and does not navigate; without, a link to `/basePath/slug` |
| SideNav.ItemEntriesOfItem | frontend/components/side-nav.tsx:130-196 | an item contributes exactly one item entry, its own, whatever children follow it |
| SideNav.ItemsInRegistryOrder | frontend/components/side-nav.tsx:123-198 | the item entries of a section are its items' entries, one each, in registry order |
| SideNav.ChildShownOnlyUnderExpandedItem | frontend/components/side-nav.tsx:155-177 | any child entry on screen belongs to a child of an expanded item of an expanded section |
| SideNav.ChildShownUnderExpandedItem | frontend/components/side-nav.tsx:155-163 | every child of an expanded item in an expanded section is on screen, linking to `/basePath/childSlug` |
| SideNav.ChildrenInRegistryOrder | frontend/components/side-nav.tsx:157-177 | an item's children render one entry each, in registry order |
| SideNav.RenderSeesMembershipOnly | frontend/components/side-nav.tsx:103-128 | two states with the same members render identically |
| SideNav.ItemsSeeMembershipOnly | frontend/components/side-nav.tsx:123-128 | the items of a section render identically for item lists with the same members |
| SideNav.DoubleToggleKeepsRendering | frontend/components/side-nav.tsx:76-128 | collapsing and re-expanding a section or an item gives back the same rendering, item expansion included |
| SideNav.HrefDetermines | frontend/components/side-nav.tsx:104-124 | an href names its base path and its slug: equal hrefs have equal base paths and slugs |
| SideNav.RegistryBasePaths | frontend/components/side-nav.tsx:24-69 | the registry's two sections get the base paths `data-structures` and `algorithms`, which differ |
| SideNav.DataStructuresSlugs | frontend/components/side-nav.tsx:25-37 | the Data Structures items' slugs, in order |
| SideNav.AlgorithmsSlugs | frontend/components/side-nav.tsx:38-68 | the Algorithms items' slugs, in order |
| SideNav.ItemSlugsOfTwo | frontend/components/side-nav.tsx:24-69 | the item slugs of two sections are those of the first followed by those of the second |
| SideNav.RegistryItemSlugs | frontend/components/side-nav.tsx:24-69 | the registry's thirteen item slugs, section by section |
| SideNav.RegistrySlugsDistinct | frontend/components/side-nav.tsx:24-69 | no item slug of the registry repeats, so an item toggle expands or collapses one item only |
| SideNav.DataStructuresChildren | frontend/components/side-nav.tsx:25-37 | no Data Structures item has children |
| SideNav.AlgorithmsChildren | frontend/components/side-nav.tsx:38-68 | in Algorithms exactly the first two items, Sorting and Searching, have children, and each child's slug starts with its parent's slug |
| SideNav.ItemShownIff | frontend/components/side-nav.tsx:121-124 | when base paths differ, an item is on screen exactly when its own section is expanded |
| SideNav.ChildShownIff | frontend/components/side-nav.tsx:155-163 | when base paths differ, child slugs extend their parent's slug and parent slugs do not extend each other, a child is on screen exactly when its section and its own parent item are expanded |
| SideNav.RegistryChildOwnership | frontend/components/side-nav.tsx:38-68 | in every registry section each child slug extends its own parent's slug, and the parents `sorting` and `searching` do not extend each other |
| SideNav.RegistryChildShownIff | frontend/components/side-nav.tsx:121-163 | in the registry a child is on screen exactly when its section and its own parent item are expanded |
| SideNav.InitialViewShowsEveryItem | frontend/components/side-nav.tsx:73-124 | in the initial state every registry item is on screen |
| SideNav.SearchingRouteHasTwoActiveEntries | frontend/components/side-nav.tsx:55-63 | on `/algorithms/searching`, with its section and item expanded, both the Searching button and the Binary Search link are active |

## Left out

- Header.Upper: only ASCII `a`–`z` are upper-cased. JavaScript's full Unicode `toUpperCase` can change a string's length, and that is not modelled.
- The route is taken as it arrives. Percent-encoding and decoding of path segments are not modelled.
- React's scheduling of state updates is not modelled. Each toggle is applied at once to the current fields, so a functional updater on `prev` is the same as reading the field.
- Icons, CSS classes and the `key` props are not modelled, because they do not change which entries exist, where they link or whether they are highlighted. The chevron's rotation is modelled, as the `expanded` field of section and item buttons.
- `usePathname`, `Link` and the other Next.js and React machinery are not modelled. The route is a parameter.
- The content pages under `frontend/app`, `frontend/lib/api.ts` (a thin wrapper over `fetch`) and the whole backend are not part of this model. They are static text, network I/O or database plumbing.
- The `children?` field is optional in the source. The model uses an empty sequence for "no children", because the source treats a missing list and an empty list the same (`length > 0`).
