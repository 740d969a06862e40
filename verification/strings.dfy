/**
 * The two JavaScript string operations the navigation components rely on:
 * `s.split(sep)` for a one-character separator and `ws.join(sep)`.
 */
module Strings {

  /** `s.split(sep)`: the pieces between occurrences of `sep`, empty pieces
      included, always at least one piece (`"".split("/")` is `[""]`). */
  function Split(s: string, sep: char): (r: seq<string>)
    ensures |r| >= 1
    ensures forall i :: 0 <= i < |r| ==> sep !in r[i]
    // the first piece is the longest separator-free prefix of s
    ensures r[0] <= s && (|r[0]| < |s| ==> s[|r[0]|] == sep)
    decreases |s|
  {
    if s == [] then [""]
    else
      var rest := Split(s[1..], sep);
      if s[0] == sep then [""] + rest
      else [[s[0]] + rest[0]] + rest[1..]
  }

  /** `ws.join(sep)`: the pieces with `sep` between neighbours. */
  function Join(ws: seq<string>, sep: string): string
  {
    if |ws| == 0 then ""
    else if |ws| == 1 then ws[0]
    else ws[0] + sep + Join(ws[1..], sep)
  }

  /** Splitting a separator-free word followed by anything glues the word to
      the first piece of the rest. */
  lemma {:induction false} SplitAfterWord(x: string, s: string, sep: char)
    requires sep !in x
    ensures Split(x + s, sep) == [x + Split(s, sep)[0]] + Split(s, sep)[1..]
    decreases |x|
  {
    if x == [] {
      var r := Split(s, sep);
      assert x + s == s && x + r[0] == r[0];
      assert [r[0]] + r[1..] == r;
    } else {
      var xs := x + s;
      assert xs[0] == x[0] && xs[1..] == x[1..] + s;
      SplitAfterWord(x[1..], s, sep);
      var rest := Split(xs[1..], sep);
      assert rest[0] == x[1..] + Split(s, sep)[0];
      assert rest[1..] == Split(s, sep)[1..];
      assert Split(xs, sep) == [[x[0]] + rest[0]] + rest[1..];
      assert [x[0]] + (x[1..] + Split(s, sep)[0]) == x + Split(s, sep)[0];
    }
  }

  /** A separator-free string splits into itself alone. */
  lemma SplitNoSeparator(x: string, sep: char)
    requires sep !in x
    ensures Split(x, sep) == [x]
  {
    SplitAfterWord(x, "", sep);
    assert x + "" == x;
  }

  /** A word followed by a separator contributes exactly that word. */
  lemma SplitAtSeparator(x: string, s: string, sep: char)
    requires sep !in x && s != [] && s[0] == sep
    ensures Split(x + s, sep) == [x] + Split(s[1..], sep)
  {
    SplitAfterWord(x, s, sep);
    assert Split(s, sep) == [""] + Split(s[1..], sep);
    assert x + "" == x;
  }

  /** Moving the first character of s onto the end of x changes nothing. */
  lemma ShiftFirst(x: string, s: string)
    requires s != []
    ensures (x + [s[0]]) + s[1..] == x + s
  {
  }

  /** A word followed by the separator contributes exactly that word. */
  lemma SplitWordThenSeparator(x: string, t: string, sep: char)
    requires sep !in x
    ensures Split(x + [sep] + t, sep) == [x] + Split(t, sep)
  {
    SplitAfterWord(x, [sep] + t, sep);
    assert x + [sep] + t == x + ([sep] + t);
    assert ([sep] + t)[1..] == t;
    assert x + "" == x;
  }

  /** What Split does with one more character in front of a split. */
  function ConsPiece(c: char, r: seq<string>, sep: char): seq<string>
    requires |r| >= 1
  {
    if c == sep then [""] + r else [[c] + r[0]] + r[1..]
  }

  lemma SplitCons(c: char, t: string, sep: char)
    ensures Split([c] + t, sep) == ConsPiece(c, Split(t, sep), sep)
  {
    assert ([c] + t)[0] == c && ([c] + t)[1..] == t;
  }

  lemma ConsPieceAppend(c: char, a: seq<string>, b: seq<string>, sep: char)
    requires |a| >= 1
    ensures ConsPiece(c, a + b, sep) == ConsPiece(c, a, sep) + b
  {
    assert (a + b)[0] == a[0] && (a + b)[1..] == a[1..] + b;
  }

  /** Splitting at a separator splits each side on its own. */
  lemma {:induction false} SplitConcat(p: string, q: string, sep: char)
    ensures Split(p + [sep] + q, sep) == Split(p, sep) + Split(q, sep)
    decreases |p|
  {
    if p == [] {
      assert p + [sep] + q == [sep] + q;
      SplitCons(sep, q, sep);
    } else {
      var t := p[1..] + [sep] + q;
      assert p + [sep] + q == [p[0]] + t;
      assert p == [p[0]] + p[1..];
      SplitCons(p[0], t, sep);
      SplitCons(p[0], p[1..], sep);
      SplitConcat(p[1..], q, sep);
      ConsPieceAppend(p[0], Split(p[1..], sep), Split(q, sep), sep);
    }
  }

  /** `ws.join(sep).split(sep)` gives `ws` back when no piece holds the separator. */
  lemma {:induction false} SplitJoin(ws: seq<string>, sep: char)
    requires |ws| >= 1
    requires forall i :: 0 <= i < |ws| ==> sep !in ws[i]
    ensures Split(Join(ws, [sep]), sep) == ws
  {
    if |ws| == 1 {
      SplitNoSeparator(ws[0], sep);
    } else {
      SplitJoin(ws[1..], sep);
      SplitWordThenSeparator(ws[0], Join(ws[1..], [sep]), sep);
      assert [ws[0]] + ws[1..] == ws;
    }
  }

  /** `s.split(sep).join(sep)` gives `s` back. */
  lemma {:induction false} JoinSplit(s: string, sep: char)
    ensures Join(Split(s, sep), [sep]) == s
    decreases |s|
  {
    if s != [] {
      var rest := Split(s[1..], sep);
      JoinSplit(s[1..], sep);
      if s[0] == sep {
        assert Split(s, sep)[1..] == rest;
      } else {
        var r := Split(s, sep);
        if |rest| == 1 {
          assert r == [[s[0]] + rest[0]];
        } else {
          assert r[1..] == rest[1..];
          assert Join(rest, [sep]) == rest[0] + [sep] + Join(rest[1..], [sep]);
        }
      }
      assert s == [s[0]] + s[1..];
    }
  }

  /** Prepending a piece to a non-empty list prepends the piece and the separator. */
  lemma JoinCons(w: string, ws: seq<string>, sep: string)
    requires |ws| >= 1
    ensures Join([w] + ws, sep) == w + sep + Join(ws, sep)
  {
  }

  /** Appending a piece to a non-empty list appends the separator and the piece. */
  lemma {:induction false} JoinSnoc(ws: seq<string>, w: string, sep: string)
    requires |ws| >= 1
    ensures Join(ws + [w], sep) == Join(ws, sep) + sep + w
  {
    if |ws| > 1 {
      JoinSnoc(ws[1..], w, sep);
      assert (ws + [w])[1..] == ws[1..] + [w];
    }
  }
}
