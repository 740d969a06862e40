/**
 * The breadcrumb trail of the page header: the current route path becomes an
 * ordered list of (label, path) crumbs, one per non-empty path segment, shown
 * after a home link; every crumb but the last is a link to its own path.
 */
module Header {
  import opened Strings

  /** A crumb `{ label, path }`; the label is held in `title` because `label`
      is a reserved word in Dafny. */
  datatype Crumb = Crumb(title: string, path: string)

  /** One rendered element of the trail. */
  datatype TrailNode =
    | HomeLink(href: string)
    | CrumbLink(text: string, href: string)
    | CrumbText(text: string)

  // ---------------------------------------------------------------------
  // Labels: `segment.split('-').map(capitalise).join(' ')`
  // ---------------------------------------------------------------------

  /** `toUpperCase` on one character, for ASCII letters only. */
  function Upper(c: char): (r: char)
    // only lower-case ASCII letters change, and they become upper-case ones
    ensures r != c <==> 'a' <= c <= 'z'
    ensures 'a' <= c <= 'z' ==> 'A' <= r <= 'Z'
    // and each keeps its place in the alphabet: 'a' becomes 'A', 'z' becomes 'Z'
    ensures 'a' <= c <= 'z' ==> r as int - 'A' as int == c as int - 'a' as int
    ensures Upper(r) == r
  {
    if 'a' <= c <= 'z' then (c as int - 32) as char else c
  }

  /** `word.charAt(0).toUpperCase() + word.slice(1)`; the empty word stays empty. */
  function Capitalize(word: string): (r: string)
    ensures |r| == |word|
    ensures word != [] ==> r[0] == Upper(word[0])
    ensures forall k :: 1 <= k < |word| ==> r[k] == word[k]
  {
    if word == [] then [] else [Upper(word[0])] + word[1..]
  }

  /** `words.map(capitalise)`. */
  function CapitalizeWords(words: seq<string>): (r: seq<string>)
    ensures |r| == |words|
    ensures forall i :: 0 <= i < |r| ==> r[i] == Capitalize(words[i])
  {
    if words == [] then [] else [Capitalize(words[0])] + CapitalizeWords(words[1..])
  }

  /** The label shown for one path segment. */
  function Label(segment: string): (r: string)
    // the split/map/join label equals the character-by-character scan
    ensures r == TitleCase(segment, true)
  {
    LabelScan("", segment);
    assert "" + segment == segment;
    Join(CapitalizeWords(Split(segment, '-')), " ")
  }

  /** Position k of s begins a hyphen-separated word. */
  predicate WordStart(s: string, k: nat)
    requires k < |s|
  {
    k == 0 || s[k - 1] == '-'
  }

  /** What the label holds at position k of its segment: a hyphen becomes a
      space, the first character of a word is upper-cased, all else is kept. */
  function LabelChar(s: string, k: nat): char
    requires k < |s|
  {
    if s[k] == '-' then ' ' else if WordStart(s, k) then Upper(s[k]) else s[k]
  }

  /** A left-to-right scan that title-cases s one character at a time;
      `atWordStart` says whether the character before s ended a word. */
  function TitleCase(s: string, atWordStart: bool): (r: string)
    ensures |r| == |s|
    decreases |s|
  {
    if s == [] then []
    else if s[0] == '-' then [' '] + TitleCase(s[1..], true)
    else [if atWordStart then Upper(s[0]) else s[0]] + TitleCase(s[1..], false)
  }

  /** Position k of the scan: a hyphen becomes a space, a character right after
      a hyphen (or first, when the scan starts a word) is upper-cased. */
  lemma {:induction false} TitleCaseAt(s: string, atWordStart: bool, k: nat)
    requires k < |s|
    ensures TitleCase(s, atWordStart)[k]
         == (if s[k] == '-' then ' '
             else if (if k == 0 then atWordStart else s[k - 1] == '-') then Upper(s[k])
             else s[k])
    decreases |s|
  {
    if k > 0 {
      TitleCaseAt(s[1..], s[0] == '-', k - 1);
      if k > 1 {
        assert s[1..][k - 2] == s[k - 1];
      }
    }
  }

  /** Generalisation behind Label's contract: the label of a hyphen-free word x
      followed by s is x capitalised followed by the scan of s. */
  lemma {:induction false} LabelScan(x: string, s: string)
    requires '-' !in x
    ensures Join(CapitalizeWords(Split(x + s, '-')), " ") == Capitalize(x) + TitleCase(s, x == [])
    decreases |s|
  {
    if s == [] {
      assert x + s == x;
      SplitNoSeparator(x, '-');
    } else if s[0] == '-' {
      LabelScan("", s[1..]);
      assert "" + s[1..] == s[1..];
      LabelHyphenStep(x, s);
    } else {
      LabelScan(x + [s[0]], s[1..]);
      ShiftFirst(x, s);
      assert x + [s[0]] != [];
      LabelLetterStep(x, s);
    }
  }

  /** The hyphen case of LabelScan, given the label of what follows the hyphen:
      the word ends, a space follows, and the rest is labelled from a word start. */
  lemma LabelHyphenStep(x: string, s: string)
    requires '-' !in x && s != [] && s[0] == '-'
    requires Join(CapitalizeWords(Split(s[1..], '-')), " ") == TitleCase(s[1..], true)
    ensures Join(CapitalizeWords(Split(x + s, '-')), " ") == Capitalize(x) + TitleCase(s, x == [])
  {
    LabelAfterHyphen(x, s);
    assert TitleCase(s, x == []) == [' '] + TitleCase(s[1..], true);
  }

  /** The letter case of LabelScan: moving a letter from the scan into the
      word before it does not change the result. */
  lemma LabelLetterStep(x: string, s: string)
    requires s != [] && s[0] != '-'
    ensures Capitalize(x + [s[0]]) + TitleCase(s[1..], false) == Capitalize(x) + TitleCase(s, x == [])
  {
    var c := s[0];
    var first := if x == [] then Upper(c) else c;
    var rest := TitleCase(s[1..], false);
    CapitalizeSnoc(x, c);
    assert TitleCase(s, x == []) == [first] + rest;
    assert (Capitalize(x) + [first]) + rest == Capitalize(x) + ([first] + rest);
  }

  /** The label of `x-t` for a hyphen-free x: x capitalised, a space, the label of t. */
  lemma LabelAfterHyphen(x: string, s: string)
    requires '-' !in x && s != [] && s[0] == '-'
    ensures Join(CapitalizeWords(Split(x + s, '-')), " ")
         == Capitalize(x) + ([' '] + Join(CapitalizeWords(Split(s[1..], '-')), " "))
  {
    var cws := CapitalizeWords(Split(s[1..], '-'));
    var cx := Capitalize(x);
    assert Join(CapitalizeWords(Split(x + s, '-')), " ") == Join([cx] + cws, " ") by {
      CapitalizeAfterHyphen(x, s);
    }
    assert Join([cx] + cws, " ") == cx + ([' '] + Join(cws, " ")) by {
      JoinCons(cx, cws, " ");
      SpaceBetween(cx, Join(cws, " "));
    }
  }

  lemma SpaceBetween(a: string, b: string)
    ensures a + " " + b == a + ([' '] + b)
  {
  }

  /** A hyphen-free word followed by a hyphen becomes its own capitalised word. */
  lemma CapitalizeAfterHyphen(x: string, s: string)
    requires '-' !in x && s != [] && s[0] == '-'
    ensures CapitalizeWords(Split(x + s, '-')) == [Capitalize(x)] + CapitalizeWords(Split(s[1..], '-'))
  {
    SplitAtSeparator(x, s, '-');
    var ws := Split(s[1..], '-');
    assert ([x] + ws)[1..] == ws;
  }

  /** Capitalising a word extended by one character. */
  lemma CapitalizeSnoc(x: string, c: char)
    ensures Capitalize(x + [c]) == Capitalize(x) + [if x == [] then Upper(c) else c]
  {
  }

  /** A label has the length of its segment, and position by position is the
      segment with hyphens turned into spaces and each word's first
      character upper-cased; it contains no hyphen. */
  lemma LabelChars(segment: string)
    ensures |Label(segment)| == |segment|
    ensures forall k :: 0 <= k < |segment| ==> Label(segment)[k] == LabelChar(segment, k)
    ensures '-' !in Label(segment)
  {
    var l := Label(segment);
    forall k | 0 <= k < |segment| ensures l[k] == LabelChar(segment, k) && l[k] != '-' {
      TitleCaseAt(segment, true, k);
    }
  }

  /** Deriving a label from a label changes nothing. */
  lemma LabelIdempotent(segment: string)
    ensures Label(Label(segment)) == Label(segment)
  {
    var l := Label(segment);
    LabelChars(segment);
    LabelChars(l);
    forall k | 0 <= k < |l| ensures Label(l)[k] == l[k] {
      if k == 0 && segment[0] != '-' {
        assert l[0] == Upper(segment[0]);
      }
    }
  }

  // ---------------------------------------------------------------------
  // Segments: `pathname.split('/').filter(Boolean)`
  // ---------------------------------------------------------------------

  /** `filter(Boolean)` on strings: drop the empty ones, keep the order. */
  function NonEmpty(ws: seq<string>): (r: seq<string>)
    ensures |r| <= |ws|
    ensures forall i :: 0 <= i < |r| ==> r[i] != [] && r[i] in ws
  {
    if ws == [] then []
    else if ws[0] == [] then NonEmpty(ws[1..])
    else [ws[0]] + NonEmpty(ws[1..])
  }

  /** Every non-empty string of the list is kept, and nothing else. */
  lemma {:induction false} NonEmptyMembers(ws: seq<string>, w: string)
    ensures w in NonEmpty(ws) <==> w in ws && w != []
  {
    if ws != [] {
      NonEmptyMembers(ws[1..], w);
      assert ws == [ws[0]] + ws[1..];
    }
  }

  /** Filtering a concatenation filters each part. */
  lemma {:induction false} NonEmptyAppend(a: seq<string>, b: seq<string>)
    ensures NonEmpty(a + b) == NonEmpty(a) + NonEmpty(b)
  {
    if a == [] {
      assert a + b == b;
    } else {
      var head := if a[0] == [] then [] else [a[0]];
      assert NonEmpty(a + b) == head + NonEmpty(a[1..] + b) by {
        assert (a + b)[0] == a[0] && (a + b)[1..] == a[1..] + b;
      }
      NonEmptyAppend(a[1..], b);
      assert head + (NonEmpty(a[1..]) + NonEmpty(b)) == (head + NonEmpty(a[1..])) + NonEmpty(b);
    }
  }

  /** The route's path segments. */
  function Segments(pathname: string): (r: seq<string>)
    ensures forall i :: 0 <= i < |r| ==> r[i] != [] && '/' !in r[i]
  {
    NonEmpty(Split(pathname, '/'))
  }

  /** The segments of a route with a slash in the middle are those of each side. */
  lemma SegmentsConcat(p: string, q: string)
    ensures Segments(p + "/" + q) == Segments(p) + Segments(q)
  {
    SplitConcat(p, q, '/');
    NonEmptyAppend(Split(p, '/'), Split(q, '/'));
  }

  /** Reference count: the number of maximal separator-free runs of s,
      counted at the last character of each run. */
  function Runs(s: string, sep: char): nat
  {
    if s == [] then 0
    else (if s[0] != sep && (|s| == 1 || s[1] == sep) then 1 else 0) + Runs(s[1..], sep)
  }

  /** Splitting and dropping empty pieces leaves one piece per run. */
  lemma {:induction false} SplitRuns(s: string, sep: char)
    ensures |NonEmpty(Split(s, sep))| == Runs(s, sep)
    decreases |s|
  {
    if s != [] {
      var t := s[1..];
      var rest := Split(t, sep);
      SplitRuns(t, sep);
      assert NonEmpty(rest) == (if rest[0] == [] then [] else [rest[0]]) + NonEmpty(rest[1..]) by {
        assert [rest[0]] + rest[1..] == rest;
      }
      if s[0] == sep {
        assert Split(s, sep)[1..] == rest;
      } else {
        var r := Split(s, sep);
        assert r[1..] == rest[1..];
        assert rest[0] == [] <==> (|s| == 1 || s[1] == sep) by {
          if rest[0] != [] && t != [] { assert rest[0][0] == t[0]; }
        }
      }
    }
  }

  /** A string has no runs exactly when it consists of separators only. */
  lemma {:induction false} RunsZero(s: string, sep: char)
    ensures Runs(s, sep) == 0 <==> forall i :: 0 <= i < |s| ==> s[i] == sep
    decreases |s|
  {
    if s != [] {
      RunsZero(s[1..], sep);
      if Runs(s, sep) == 0 {
        forall i | 0 <= i < |s| ensures s[i] == sep {
          if i > 0 { assert s[1..][i - 1] == s[i]; }
        }
      }
      if forall i :: 0 <= i < |s| ==> s[i] == sep {
        assert forall i :: 0 <= i < |s| - 1 ==> s[1..][i] == s[i + 1];
      }
    }
  }

  /** Empty strings are dropped; a list of non-empty strings is kept whole. */
  lemma {:induction false} NonEmptyKeeps(ws: seq<string>)
    requires forall i :: 0 <= i < |ws| ==> ws[i] != []
    ensures NonEmpty(ws) == ws
  {
    if ws != [] {
      NonEmptyKeeps(ws[1..]);
    }
  }

  /** Round trip: the segments of `/s0/s1/...` are s0, s1, ... */
  lemma SegmentsOfJoined(ws: seq<string>)
    requires forall i :: 0 <= i < |ws| ==> ws[i] != [] && '/' !in ws[i]
    ensures Segments("/" + Join(ws, "/")) == ws
  {
    var j := Join(ws, "/");
    SplitWordThenSeparator("", j, '/');
    assert "" + ['/'] + j == "/" + j;
    if ws == [] {
      assert Split(j, '/') == [""];
      assert NonEmpty([""] + [""]) == [];
    } else {
      SplitJoin(ws, '/');
      NonEmptyKeeps(ws);
      assert ([""] + ws)[1..] == ws;
    }
  }

  // ---------------------------------------------------------------------
  // Breadcrumbs
  // ---------------------------------------------------------------------

  /** The crumbs for a route: the root yields none; otherwise segment i gives
      the crumb labelled from that segment whose path is `/` followed by
      segments 0..i joined with `/`. */
  function Breadcrumbs(pathname: string): seq<Crumb>
  {
    if pathname == "/" then []
    else
      var segs := Segments(pathname);
      seq(|segs|, i requires 0 <= i < |segs| => Crumb(Label(segs[i]), CrumbPath(segs, i)))
  }

  /** The path of crumb i: `/` followed by segments 0..i joined with `/`. */
  function CrumbPath(segs: seq<string>, i: nat): string
    requires i < |segs|
  {
    "/" + Join(segs[..i + 1], "/")
  }

  /** The loop that builds the crumbs one segment at a time. */
  method GenerateBreadcrumbs(pathname: string) returns (crumbs: seq<Crumb>)
    ensures crumbs == Breadcrumbs(pathname)
  {
    if pathname == "/" {
      return [];
    }
    var paths := Segments(pathname);
    crumbs := [];
    for i := 0 to |paths|
      invariant |crumbs| == i
      invariant forall j :: 0 <= j < i ==> crumbs[j] == Crumb(Label(paths[j]), CrumbPath(paths, j))
    {
      var path := "/" + Join(paths[..i + 1], "/");
      var title := Label(paths[i]);
      crumbs := crumbs + [Crumb(title, path)];
    }
  }

  /** Reference normalisation of a route, one character at a time: a run of
      non-slash characters is kept, with one `/` before it; every other slash
      is dropped. `afterSlash` says whether a slash (or the start) came last. */
  function CollapseSlashes(s: string, afterSlash: bool): string
    decreases |s|
  {
    if s == [] then []
    else if s[0] == '/' then CollapseSlashes(s[1..], true)
    else (if afterSlash then ['/', s[0]] else [s[0]]) + CollapseSlashes(s[1..], false)
  }

  /** `/` followed by the segments joined with `/`, or nothing when there are none. */
  function Rooted(ws: seq<string>): string
  {
    if ws == [] then "" else "/" + Join(ws, "/")
  }

  lemma RootedCons(x: string, ws: seq<string>)
    ensures Rooted([x] + ws) == "/" + x + Rooted(ws)
  {
    if ws != [] {
      JoinCons(x, ws, "/");
    } else {
      assert [x] + ws == [x];
    }
  }

  /** Generalisation behind SegmentsAreCollapsedRoute: after a slash-free word
      x, the rooted segments are x (rooted, when non-empty) followed by the
      collapse of the rest. */
  lemma {:induction false} CollapseScan(x: string, s: string)
    requires '/' !in x
    ensures Rooted(NonEmpty(Split(x + s, '/'))) == (if x == [] then "" else "/" + x) + CollapseSlashes(s, x == [])
    decreases |s|
  {
    if s == [] {
      assert x + s == x;
      SplitNoSeparator(x, '/');
      assert [x][1..] == [];
      if x != [] {
        RootedCons(x, []);
      }
    } else if s[0] == '/' {
      CollapseScan("", s[1..]);
      assert "" + s[1..] == s[1..];
      CollapseSlashStep(x, s);
    } else {
      CollapseScan(x + [s[0]], s[1..]);
      ShiftFirst(x, s);
      CollapseLetterStep(x, s);
    }
  }

  /** The slash case of CollapseScan, given the result for what follows the slash. */
  lemma CollapseSlashStep(x: string, s: string)
    requires '/' !in x && s != [] && s[0] == '/'
    requires Rooted(NonEmpty(Split(s[1..], '/'))) == CollapseSlashes(s[1..], true)
    ensures Rooted(NonEmpty(Split(x + s, '/'))) == (if x == [] then "" else "/" + x) + CollapseSlashes(s, x == [])
  {
    SplitAtSeparator(x, s, '/');
    var rest := Split(s[1..], '/');
    assert ([x] + rest)[1..] == rest;
    if x != [] {
      RootedCons(x, NonEmpty(rest));
    }
  }

  /** The letter case of CollapseScan: moving a letter into the word before it. */
  lemma CollapseLetterStep(x: string, s: string)
    requires s != [] && s[0] != '/'
    ensures "/" + (x + [s[0]]) + CollapseSlashes(s[1..], false)
         == (if x == [] then "" else "/" + x) + CollapseSlashes(s, x == [])
  {
    var c, rest := s[0], CollapseSlashes(s[1..], false);
    if x == [] {
      assert CollapseSlashes(s, true) == ['/', c] + rest;
      assert "/" + (x + [c]) + rest == "" + (['/', c] + rest);
    } else {
      assert CollapseSlashes(s, false) == [c] + rest;
      assert "/" + (x + [c]) + rest == ("/" + x) + ([c] + rest);
    }
  }

  /** The segments, rooted and joined, are the route with its slashes collapsed. */
  lemma SegmentsAreCollapsedRoute(pathname: string)
    ensures Rooted(Segments(pathname)) == CollapseSlashes(pathname, true)
  {
    CollapseScan("", pathname);
    assert "" + pathname == pathname;
  }

  /** The root and the empty route have no segments. */
  lemma RootHasNoSegments()
    ensures Segments("/") == [] && Segments("") == []
  {
  }

  /** No crumbs exactly when the path is empty or made of slashes only
      (the root `/` among them). */
  lemma BreadcrumbsEmptyIff(pathname: string)
    ensures Breadcrumbs(pathname) == [] <==> forall i :: 0 <= i < |pathname| ==> pathname[i] == '/'
  {
    SplitRuns(pathname, '/');
    RunsZero(pathname, '/');
  }

  /** One crumb per maximal run of non-slash characters: leading, trailing and
      doubled slashes add none. */
  lemma BreadcrumbsCount(pathname: string)
    ensures |Breadcrumbs(pathname)| == Runs(pathname, '/')
  {
    SplitRuns(pathname, '/');
    if pathname == "/" {
      RootHasNoSegments();
    }
  }

  /** Each crumb's path extends the previous one by `/` and its own segment. */
  lemma CrumbPathStep(segs: seq<string>, i: nat)
    requires i + 1 < |segs|
    ensures CrumbPath(segs, i + 1) == CrumbPath(segs, i) + "/" + segs[i + 1]
  {
    JoinSnoc(segs[..i + 1], segs[i + 1], "/");
    assert segs[..i + 2] == segs[..i + 1] + [segs[i + 1]];
  }

  /** With non-empty segments, each crumb path is a proper prefix of every
      later one. */
  lemma {:induction false} CrumbPathsNested(segs: seq<string>, i: nat, j: nat)
    requires i < j < |segs|
    requires forall k :: 0 <= k < |segs| ==> segs[k] != []
    ensures CrumbPath(segs, i) < CrumbPath(segs, j)
    decreases j
  {
    CrumbPathStep(segs, j - 1);
    if i < j - 1 {
      CrumbPathsNested(segs, i, j - 1);
      PrefixTransitive(CrumbPath(segs, i), CrumbPath(segs, j - 1), CrumbPath(segs, j));
    }
  }

  lemma PrefixTransitive(a: string, b: string, c: string)
    requires a < b && b < c
    ensures a < c
  {
  }

  /** On any route, each crumb's path is a proper prefix of every later
      crumb's path. */
  lemma CrumbPathsOfRoute(pathname: string, i: nat, j: nat)
    requires i < j < |Breadcrumbs(pathname)|
    ensures Breadcrumbs(pathname)[i].path < Breadcrumbs(pathname)[j].path
  {
    CrumbPathsNested(Segments(pathname), i, j);
  }

  /** The last crumb's path is the slash-normalised route: deriving crumbs from
      it gives the very same crumbs. */
  lemma LastCrumbIsNormalForm(pathname: string)
    requires Breadcrumbs(pathname) != []
    ensures var c := Breadcrumbs(pathname); Breadcrumbs(c[|c| - 1].path) == c
  {
    var c := Breadcrumbs(pathname);
    var segs := Segments(pathname);
    var last := c[|c| - 1].path;
    assert segs[..|segs|] == segs;
    assert last == "/" + Join(segs, "/");
    SegmentsOfJoined(segs);
    RootHasNoSegments();
    assert last != "/";
  }

  /** The last crumb's path is the route with its slashes collapsed: `/a//b/`
      and `a/b` both end in `/a/b`. */
  lemma LastCrumbPath(pathname: string)
    requires Breadcrumbs(pathname) != []
    ensures var c := Breadcrumbs(pathname); c[|c| - 1].path == CollapseSlashes(pathname, true)
  {
    var segs := Segments(pathname);
    assert segs[..|segs|] == segs;
    assert Breadcrumbs(pathname)[|segs| - 1].path == "/" + Join(segs, "/");
    SegmentsAreCollapsedRoute(pathname);
  }

  /** A two-word segment `a-b` is labelled `A B`. */
  lemma LabelTwoWords(a: string, b: string)
    requires '-' !in a && '-' !in b
    ensures Label(a + "-" + b) == Capitalize(a) + " " + Capitalize(b)
  {
    SplitWordThenSeparator(a, b, '-');
    SplitNoSeparator(b, '-');
    assert CapitalizeWords([a, b]) == [Capitalize(a), Capitalize(b)] by {
      assert [a, b][1..] == [b];
    }
    JoinCons(Capitalize(a), [Capitalize(b)], " ");
  }

  /** The crumbs of a two-segment route `/a/b`. */
  lemma TwoSegmentRoute(a: string, b: string)
    requires a != [] && b != [] && '/' !in a && '/' !in b
    ensures Breadcrumbs("/" + a + "/" + b) == [Crumb(Label(a), "/" + a), Crumb(Label(b), "/" + a + "/" + b)]
  {
    var ws := [a, b];
    JoinCons(a, [b], "/");
    assert "/" + a + "/" + b == "/" + Join(ws, "/");
    SegmentsOfJoined(ws);
    RootHasNoSegments();
    assert ws[..1] == [a] && ws[..2] == ws;
  }

  // ---------------------------------------------------------------------
  // Rendering
  // ---------------------------------------------------------------------

  /** The header's navigation: the home link, then each crumb, a link to its
      path unless it is the last, which is plain text. */
  function RenderTrail(crumbs: seq<Crumb>): seq<TrailNode>
  {
    [HomeLink("/")] + seq(|crumbs|, i requires 0 <= i < |crumbs| =>
      if i == |crumbs| - 1 then CrumbText(crumbs[i].title)
      else CrumbLink(crumbs[i].title, crumbs[i].path))
  }

  /** The home link comes first; exactly the last crumb, if any, is plain
      text; every other crumb is a link to its own path, with its label. */
  lemma TrailShape(crumbs: seq<Crumb>)
    ensures var t := RenderTrail(crumbs);
      && |t| == |crumbs| + 1
      && t[0] == HomeLink("/")
      && (forall i :: 0 <= i < |t| ==> (t[i].CrumbText? <==> (crumbs != [] && i == |t| - 1)))
      && (forall i :: 1 <= i < |t| - 1 ==> t[i] == CrumbLink(crumbs[i - 1].title, crumbs[i - 1].path))
      && (crumbs != [] ==> t[|t| - 1] == CrumbText(crumbs[|crumbs| - 1].title))
  {
  }

  /** On any route, every crumb link leads to a proper prefix of the path of
      the last crumb (the normalised route). */
  lemma TrailLinksArePrefixes(pathname: string)
    ensures var c := Breadcrumbs(pathname); var t := RenderTrail(c);
      forall i :: 0 <= i < |t| && t[i].CrumbLink? ==> t[i].href < c[|c| - 1].path
  {
    CrumbPathsBelowLast(pathname);
    TrailLinksBelowLast(Breadcrumbs(pathname));
  }

  /** Every crumb path but the last is a proper prefix of the last one. */
  lemma CrumbPathsBelowLast(pathname: string)
    ensures var c := Breadcrumbs(pathname);
      forall i :: 0 <= i < |c| - 1 ==> c[i].path < c[|c| - 1].path
  {
    var c := Breadcrumbs(pathname);
    if pathname != "/" && c != [] {
      var segs := Segments(pathname);
      var n := |segs| - 1;
      BreadcrumbPath(pathname, n);
      forall i | 0 <= i < |c| - 1 ensures c[i].path < c[|c| - 1].path {
        BreadcrumbPath(pathname, i);
        CrumbPathsNested(segs, i, n);
      }
    }
  }

  /** Crumb i of a route other than `/` has the path `CrumbPath(segs, i)`. */
  lemma BreadcrumbPath(pathname: string, i: nat)
    requires pathname != "/" && i < |Segments(pathname)|
    ensures |Breadcrumbs(pathname)| == |Segments(pathname)|
    ensures Breadcrumbs(pathname)[i].path == CrumbPath(Segments(pathname), i)
  {
  }

  /** The links of a trail whose crumb paths lie below the last one. */
  lemma TrailLinksBelowLast(c: seq<Crumb>)
    requires forall i :: 0 <= i < |c| - 1 ==> c[i].path < c[|c| - 1].path
    ensures var t := RenderTrail(c);
      forall i :: 0 <= i < |t| && t[i].CrumbLink? ==> t[i].href < c[|c| - 1].path
  {
    TrailShape(c);
  }
}
