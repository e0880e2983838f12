/** The Python `str` operations the scraper and the extractor rely on:
    substring search, `split`/`join` on a literal separator, `replace`,
    and `strip`/`rstrip` on a set of characters. */
module Text {
  import opened Base

  /** The characters for which Python's `str.isspace()` holds: what the
      regex class `\s` matches on `str` patterns and what `str.strip()`
      with no argument removes. */
  const Whitespace: set<char> := {
    '\t', '\n', '\U{b}', '\U{c}', '\r', '\U{1c}', '\U{1d}', '\U{1e}', '\U{1f}',
    ' ', '\U{85}', '\U{a0}', '\U{1680}',
    '\U{2000}', '\U{2001}', '\U{2002}', '\U{2003}', '\U{2004}', '\U{2005}',
    '\U{2006}', '\U{2007}', '\U{2008}', '\U{2009}', '\U{200a}',
    '\U{2028}', '\U{2029}', '\U{202f}', '\U{205f}', '\U{3000}'
  }

  /** `pat` occurs in `s` starting at index `i`. */
  predicate OccursAt(s: string, pat: string, i: nat) {
    i + |pat| <= |s| && s[i..i + |pat|] == pat
  }

  /** Python's `pat in s`, as a specification. */
  ghost predicate Contains(s: string, pat: string) {
    exists i: nat :: OccursAt(s, pat, i)
  }

  /** Python's `s.find(pat, i)`: the leftmost occurrence at or after `i`. */
  function FindFrom(s: string, pat: string, i: nat): (r: Option<nat>)
    requires i <= |s|
    ensures r.Some? ==> i <= r.value && OccursAt(s, pat, r.value)
    ensures r.Some? ==> forall j: nat :: i <= j < r.value ==> !OccursAt(s, pat, j)
    ensures r.None? ==> forall j: nat :: i <= j ==> !OccursAt(s, pat, j)
    decreases |s| - i
  {
    if OccursAt(s, pat, i) then Some(i)
    else if i == |s| then None
    else FindFrom(s, pat, i + 1)
  }

  /** Python's `s.find(pat)`, with `None` for -1. */
  function Find(s: string, pat: string): (r: Option<nat>)
    ensures r.Some? <==> Contains(s, pat)
    ensures r.Some? ==> OccursAt(s, pat, r.value)
    ensures r.Some? ==> forall j: nat :: j < r.value ==> !OccursAt(s, pat, j)
  {
    FindFrom(s, pat, 0)
  }

  /** Python's `sep.join(xs)`. */
  function Join(xs: seq<string>, sep: string): string {
    if |xs| == 0 then []
    else if |xs| == 1 then xs[0]
    else xs[0] + sep + Join(xs[1..], sep)
  }

  /** A piece that ends before the first occurrence of `pat` does not
      contain `pat`. */
  lemma PrefixBeforeFirst(s: string, pat: string, i: nat)
    requires pat != [] && i <= |s|
    requires forall j: nat :: j < i ==> !OccursAt(s, pat, j)
    ensures !Contains(s[..i], pat)
  {
    forall j: nat
      ensures !OccursAt(s[..i], pat, j)
    {
      if j + |pat| <= i {
        assert !OccursAt(s, pat, j);
        assert s[..i][j..j + |pat|] == s[j..j + |pat|];
      }
    }
  }

  /** `xs` are the pieces of `s` between the leftmost non-overlapping
      occurrences of `sep`: joined with `sep` they give `s`, none contains
      `sep`, and in what remains from each piece on, the first occurrence
      of `sep` is the one right after that piece. */
  ghost predicate LeftmostPieces(s: string, sep: string, xs: seq<string>) {
    && |xs| >= 1
    && Join(xs, sep) == s
    && (forall k :: 0 <= k < |xs| ==> !Contains(xs[k], sep))
    && (forall k :: 0 <= k < |xs| - 1 ==> Find(Join(xs[k..], sep), sep) == Some(|xs[k]|))
  }

  /** Python's `s.split(sep)` for a non-empty literal separator: joining
      the pieces back with `sep` gives `s`, no piece contains `sep`, and
      the first piece ends where `sep` first occurs. `SplitLeftmost`
      carries this on to every piece. */
  function Split(s: string, sep: string): (r: seq<string>)
    requires sep != []
    ensures |r| >= 1
    ensures Join(r, sep) == s
    ensures forall k :: 0 <= k < |r| ==> !Contains(r[k], sep)
    ensures |r| > 1 ==> Find(s, sep) == Some(|r[0]|)
    decreases |s|
  {
    match Find(s, sep)
    case None => [s]
    case Some(i) =>
      var rest := Split(s[i + |sep|..], sep);
      PrefixBeforeFirst(s, sep, i);
      assert s == s[..i] + sep + s[i + |sep|..] by {
        assert s[i..i + |sep|] == sep;
        assert s == s[..i] + s[i..i + |sep|] + s[i + |sep|..];
      }
      [s[..i]] + rest
  }

  /** The pieces of `split` are the ones between the leftmost
      non-overlapping occurrences of the separator. */
  lemma {:induction false} SplitLeftmost(s: string, sep: string)
    requires sep != []
    ensures LeftmostPieces(s, sep, Split(s, sep))
    decreases |s|
  {
    var r := Split(s, sep);
    if |r| > 1 {
      var i := |r[0]|;
      assert Find(s, sep) == Some(i);
      SplitLeftmost(s[i + |sep|..], sep);
      assert s == r[0] + sep + s[i + |sep|..] by {
        assert s[i..i + |sep|] == sep;
        assert s == s[..i] + s[i..i + |sep|] + s[i + |sep|..];
      }
      LeftmostCons(s, sep, r[0], Split(s[i + |sep|..], sep));
    } else {
      assert |r| == 1 && Join(r, sep) == r[0];
    }
  }

  /** A first piece ending at the first occurrence of `sep`, in front of
      the leftmost pieces of the text after that occurrence. */
  lemma LeftmostCons(s: string, sep: string, x: string, rest: seq<string>)
    requires |x| + |sep| <= |s| && s == x + sep + s[|x| + |sep|..]
    requires LeftmostPieces(s[|x| + |sep|..], sep, rest)
    requires Find(s, sep) == Some(|x|) && !Contains(x, sep)
    ensures LeftmostPieces(s, sep, [x] + rest)
  {
    var r := [x] + rest;
    assert r[0..] == r && r[1..] == rest;
    forall k | 0 < k < |r|
      ensures r[k] == rest[k - 1] && r[k..] == rest[k - 1..]
    {
    }
  }

  /** No proper prefix of `sep` is also a suffix of it, so two occurrences
      of `sep` can never overlap. */
  ghost predicate Unbordered(sep: string) {
    forall m :: 0 < m < |sep| ==> sep[..m] != sep[|sep| - m..]
  }

  /** In `x + sep + y`, where `x` does not contain the unbordered `sep`,
      the first occurrence of `sep` is the one right after `x`. */
  lemma FirstAfterPiece(x: string, sep: string, y: string)
    requires sep != [] && Unbordered(sep) && !Contains(x, sep)
    ensures Find(x + sep + y, sep) == Some(|x|)
  {
    var s := x + sep + y;
    assert s[|x|..|x| + |sep|] == sep;
    assert OccursAt(s, sep, |x|);
    forall j: nat | j < |x|
      ensures !OccursAt(s, sep, j)
    {
      var e := j + |sep|;
      if e <= |x| {
        assert !OccursAt(x, sep, j);
        assert x[j..e] == s[j..e];
      } else {
        // an occurrence here would make a proper prefix of `sep` a suffix of it
        var m := e - |x|;
        assert sep[..m] != sep[|sep| - m..];
        assert s[j..e][|sep| - m..] == s[|x|..|x| + m] == sep[..m];
      }
    }
  }

  /** Splitting undoes joining, for an unbordered separator and pieces
      that do not contain it. */
  lemma {:induction false} SplitOfJoin(xs: seq<string>, sep: string)
    requires sep != [] && Unbordered(sep) && |xs| >= 1
    requires forall k :: 0 <= k < |xs| ==> !Contains(xs[k], sep)
    ensures Split(Join(xs, sep), sep) == xs
  {
    if |xs| == 1 {
      assert Join(xs, sep) == xs[0];
    } else {
      var rest := Join(xs[1..], sep);
      FirstAfterPiece(xs[0], sep, rest);
      SplitAfterFirst(xs[0], sep, rest);
      SplitOfJoin(xs[1..], sep);
      assert xs == [xs[0]] + xs[1..];
    }
  }

  /** When the first occurrence of `sep` follows `x`, splitting gives `x`
      and then the pieces of what comes after that occurrence. */
  lemma SplitAfterFirst(x: string, sep: string, y: string)
    requires sep != [] && Find(x + sep + y, sep) == Some(|x|)
    ensures Split(x + sep + y, sep) == [x] + Split(y, sep)
  {
    var s := x + sep + y;
    assert s[|x| + |sep|..] == y;
    assert s[..|x|] == x;
  }

  /** Joining pieces with two separators of equal length gives strings of
      equal length. */
  lemma {:induction false} JoinLengthBySeparator(xs: seq<string>, a: string, b: string)
    requires |a| == |b|
    ensures |Join(xs, a)| == |Join(xs, b)|
    decreases |xs|
  {
    if |xs| > 1 {
      JoinLengthBySeparator(xs[1..], a, b);
    }
  }

  /** An occurrence of `pat` in `x + sep + y` that cannot use any
      character of `sep` lies wholly in `x` or wholly in `y`. */
  lemma SeparatorBlocks(x: string, sep: string, y: string, pat: string)
    requires pat != [] && sep != []
    requires forall k :: 0 <= k < |sep| ==> sep[k] !in pat
    requires !Contains(x, pat) && !Contains(y, pat)
    ensures !Contains(x + sep + y, pat)
  {
    var s := x + sep + y;
    forall j: nat
      ensures !OccursAt(s, pat, j)
    {
      var e := j + |pat|;
      if e <= |s| {
        if e <= |x| {
          assert !OccursAt(x, pat, j);
          assert x[j..e] == s[j..e];
        } else if j >= |x| + |sep| {
          var j' := j - |x| - |sep|;
          assert !OccursAt(y, pat, j');
          assert y[j'..j' + |pat|] == s[j..e];
        } else {
          // the window covers a separator character, which `pat` lacks
          var c := if j <= |x| then |x| else j;
          assert s[j..e][c - j] == sep[c - |x|];
          assert sep[c - |x|] !in pat;
        }
      }
    }
  }

  /** Joining pieces free of `pat` with a separator none of whose
      characters occur in `pat` yields a string free of `pat`. */
  lemma {:induction false} JoinAvoids(xs: seq<string>, sep: string, pat: string)
    requires pat != [] && sep != []
    requires forall k :: 0 <= k < |sep| ==> sep[k] !in pat
    requires forall k :: 0 <= k < |xs| ==> !Contains(xs[k], pat)
    ensures !Contains(Join(xs, sep), pat)
    decreases |xs|
  {
    if |xs| == 0 {
      assert forall j: nat :: !OccursAt([], pat, j);
    } else if |xs| > 1 {
      JoinAvoids(xs[1..], sep, pat);
      SeparatorBlocks(xs[0], sep, Join(xs[1..], sep), pat);
    }
  }

  /** Python's `s.replace(target, repl)` for a non-empty `target`: every
      leftmost non-overlapping occurrence of `target` becomes `repl`.
      Same-length replacement keeps the length; a replacement that shares
      no character with `target` leaves no occurrence of `target`. */
  function Replace(s: string, target: string, repl: string): (r: string)
    requires target != []
    ensures |target| == |repl| ==> |r| == |s|
    ensures repl != [] && (forall k :: 0 <= k < |repl| ==> repl[k] !in target) ==> !Contains(r, target)
  {
    var pieces := Split(s, target);
    JoinLengthWhen(pieces, target, repl);
    JoinAvoidsWhen(pieces, repl, target);
    Join(pieces, repl)
  }

  /** What `replace` does: the text is cut into its leftmost pieces
      around `target`, and they are joined again with `repl`. */
  lemma ReplacePieces(s: string, target: string, repl: string)
    requires target != []
    ensures exists xs :: LeftmostPieces(s, target, xs) && Replace(s, target, repl) == Join(xs, repl)
  {
    SplitLeftmost(s, target);
  }

  /** Replacing an unbordered separator in a joined string re-joins the
      same pieces with the replacement. */
  lemma ReplaceOfJoin(xs: seq<string>, target: string, repl: string)
    requires target != [] && Unbordered(target) && |xs| >= 1
    requires forall k :: 0 <= k < |xs| ==> !Contains(xs[k], target)
    ensures Replace(Join(xs, target), target, repl) == Join(xs, repl)
  {
    SplitOfJoin(xs, target);
  }

  lemma JoinLengthWhen(xs: seq<string>, a: string, b: string)
    ensures |a| == |b| ==> |Join(xs, a)| == |Join(xs, b)|
  {
    if |a| == |b| {
      JoinLengthBySeparator(xs, a, b);
    }
  }

  lemma JoinAvoidsWhen(xs: seq<string>, sep: string, pat: string)
    requires pat != []
    requires forall k :: 0 <= k < |xs| ==> !Contains(xs[k], pat)
    ensures sep != [] && (forall k :: 0 <= k < |sep| ==> sep[k] !in pat) ==> !Contains(Join(xs, sep), pat)
  {
    if sep != [] && (forall k :: 0 <= k < |sep| ==> sep[k] !in pat) {
      JoinAvoids(xs, sep, pat);
    }
  }

  /** Python's `s.rstrip(chars)`. */
  function RStrip(s: string, chars: set<char>): (r: string)
    ensures r <= s
    ensures forall k :: |r| <= k < |s| ==> s[k] in chars
    ensures r == [] || r[|r| - 1] !in chars
    decreases |s|
  {
    if |s| > 0 && s[|s| - 1] in chars then RStrip(s[..|s| - 1], chars) else s
  }

  /** `rstrip` removes exactly a tail of characters of `chars` that
      follows a character outside `chars`. */
  lemma RStripOf(x: string, t: string, chars: set<char>)
    requires x == [] || x[|x| - 1] !in chars
    requires forall k :: 0 <= k < |t| ==> t[k] in chars
    ensures RStrip(x + t, chars) == x
  {
    var s := x + t;
    var r := RStrip(s, chars);
    assert x != [] ==> s[|x| - 1] == x[|x| - 1];
    assert forall k :: |x| <= k < |s| ==> s[k] == t[k - |x|];
    assert r == s[..|r|] && s[..|x|] == x;
  }

  /** `r` is the slice of `s` starting at `i` and everything of `s`
      around it is in `chars`. */
  ghost predicate SliceWithin(s: string, r: string, i: nat, chars: set<char>) {
    && i + |r| <= |s| && r == s[i..i + |r|]
    && (forall k :: 0 <= k < i ==> s[k] in chars)
    && (forall k :: i + |r| <= k < |s| ==> s[k] in chars)
  }

  /** Python's `s.strip(chars)`: a slice of `s` with every character of
      `chars` removed from both ends. */
  function Strip(s: string, chars: set<char>): (r: string)
    ensures exists i: nat :: SliceWithin(s, r, i, chars)
    ensures r == [] || (r[0] !in chars && r[|r| - 1] !in chars)
    decreases |s|
  {
    if |s| > 0 && s[0] in chars then
      var r := Strip(s[1..], chars);
      ghost var i: nat :| SliceWithin(s[1..], r, i, chars);
      SliceBehindFirst(s, r, i, chars);
      r
    else
      var r := RStrip(s, chars);
      RStripWithin(s, chars);
      r
  }

  /** What `rstrip` keeps is a slice at 0 framed by characters of
      `chars`, and it starts where `s` does. */
  lemma RStripWithin(s: string, chars: set<char>)
    ensures SliceWithin(s, RStrip(s, chars), 0, chars)
    ensures RStrip(s, chars) != [] ==> RStrip(s, chars)[0] == s[0]
  {
    var r := RStrip(s, chars);
    assert r == s[0..|r|];
  }

  /** A slice of the tail, framed by characters of `chars`, is a slice
      of the whole when the first character is in `chars` too. */
  lemma SliceBehindFirst(s: string, r: string, i: nat, chars: set<char>)
    requires |s| > 0 && s[0] in chars && SliceWithin(s[1..], r, i, chars)
    ensures SliceWithin(s, r, i + 1, chars)
  {
    assert r == s[1..][i..i + |r|] == s[i + 1..i + 1 + |r|];
    forall k | 0 < k < i + 1
      ensures s[k] in chars
    {
      assert s[k] == s[1..][k - 1];
    }
    forall k | i + 1 + |r| <= k < |s|
      ensures s[k] in chars
    {
      assert s[k] == s[1..][k - 1];
    }
  }

  /** Stripping changes nothing when neither end is in `chars`. */
  lemma StripKeeps(s: string, chars: set<char>)
    requires s == [] || (s[0] !in chars && s[|s| - 1] !in chars)
    ensures Strip(s, chars) == s
  {
    var r := Strip(s, chars);
    var i: nat :| SliceWithin(s, r, i, chars);
    if s != [] {
      assert i == 0;
      assert i + |r| == |s|;
    }
  }

  /** Every character of every piece appears in the joined string. */
  lemma {:induction false} JoinHasPieces(xs: seq<string>, sep: string, k: nat, c: char)
    requires k < |xs| && c in xs[k]
    ensures c in Join(xs, sep)
    decreases |xs|
  {
    if k > 0 {
      JoinHasPieces(xs[1..], sep, k - 1, c);
    }
  }

  /** A character in no piece and not in the separator is not in the
      joined string. */
  lemma {:induction false} JoinLacks(xs: seq<string>, sep: string, c: char)
    requires c !in sep
    requires forall k :: 0 <= k < |xs| ==> c !in xs[k]
    ensures c !in Join(xs, sep)
    decreases |xs|
  {
    if |xs| > 1 {
      JoinLacks(xs[1..], sep, c);
    }
  }

  /** A joined string starts like its first piece. */
  lemma JoinFirst(xs: seq<string>, sep: string)
    requires |xs| >= 1 && xs[0] != []
    ensures Join(xs, sep) != [] && Join(xs, sep)[0] == xs[0][0]
  {
  }

  /** A joined string ends like its last piece. */
  lemma {:induction false} JoinLast(xs: seq<string>, sep: string)
    requires |xs| >= 1 && xs[|xs| - 1] != []
    ensures Join(xs, sep) != []
    ensures Join(xs, sep)[|Join(xs, sep)| - 1] == xs[|xs| - 1][|xs[|xs| - 1]| - 1]
    decreases |xs|
  {
    if |xs| > 1 {
      JoinLast(xs[1..], sep);
    }
  }

  /** Python's `s.endswith(suffix)`. */
  predicate EndsWith(s: string, suffix: string) {
    |suffix| <= |s| && s[|s| - |suffix|..] == suffix
  }
}
