/** The offline extractor: how it cuts the answer block of a question
    printed to PDF into answers, and how it tidies the question text. */
module Extractor {
  import opened Base
  import opened Text
  import opened Statement

  /** What `PATTERN_ANSWER_SPLIT` matches: a period and a line break, a
      period, the private-use check glyph U+F00C and a line break, or a
      period, the cross glyph U+F00D and a line break at the very end. */
  const NextItem := ".\n"
  const CheckedItem := ".\U{f00c}\n"
  const CrossedItem := ".\U{f00d}\n"

  predicate IsSeparator(d: string) {
    d == NextItem || d == CheckedItem || d == CrossedItem
  }

  /** Python's `$` without the MULTILINE flag matches at `j`: the end of
      the text, or just before a final line break. */
  predicate EndAnchor(s: string, j: nat) {
    j == |s| || (j + 1 == |s| && s[j] == '\n')
  }

  /** The text ends with a cross-glyph item, or with one and a line break:
      the two places where its alternative of the pattern can match. */
  predicate EndsWithCross(p: string) {
    EndsWith(p, CrossedItem) || EndsWith(p, CrossedItem + "\n")
  }

  /** The length of the separator `PATTERN_ANSWER_SPLIT` matches at `i`,
      trying its alternatives in order, or 0 when none matches. The last
      alternative needs `$` right after it. */
  function SepAt(s: string, i: nat): (n: nat)
    requires i <= |s|
    ensures n == 0 || n == 2 || n == 3
    ensures n > 0 ==> i + n <= |s| && IsSeparator(s[i..i + n])
    ensures n == 0 ==> !OccursAt(s, NextItem, i) && !OccursAt(s, CheckedItem, i)
    ensures OccursAt(s, NextItem, i) ==> n == 2
    ensures OccursAt(s, CrossedItem, i) ==> (n == 3 <==> EndAnchor(s, i + 3))
  {
    if OccursAt(s, NextItem, i) then
      assert s[i + 1] == s[i..i + 2][1] == '\n';
      2
    else if OccursAt(s, CheckedItem, i) then
      3
    else if OccursAt(s, CrossedItem, i) && EndAnchor(s, i + 3) then 3
    else 0
  }

  /** The pieces of a split and the separators found between them. */
  datatype Cut = Cut(pieces: seq<string>, seps: seq<string>)

  /** The pieces put back together with the separators between them. */
  function Interleave(ps: seq<string>, ds: seq<string>): string
    requires |ps| == |ds| + 1
    decreases |ds|
  {
    if |ds| == 0 then ps[0] else ps[0] + ds[0] + Interleave(ps[1..], ds[1..])
  }

  /** A prefix where no separator starts holds neither of the unanchored
      separators. */
  lemma PieceClean(s: string, i: nat)
    requires i <= |s|
    requires forall j :: 0 <= j < i ==> SepAt(s, j) == 0
    ensures !Contains(s[..i], NextItem) && !Contains(s[..i], CheckedItem)
  {
    var piece := s[..i];
    forall j: nat
      ensures !OccursAt(piece, NextItem, j) && !OccursAt(piece, CheckedItem, j)
    {
      if j < |piece| {
        assert SepAt(s, j) == 0;
        PrefixOccurs(s, i, NextItem, j);
        PrefixOccurs(s, i, CheckedItem, j);
      }
    }
  }

  /** An occurrence inside a prefix is an occurrence in the whole. */
  lemma PrefixOccurs(s: string, i: nat, pat: string, j: nat)
    requires i <= |s|
    ensures OccursAt(s[..i], pat, j) ==> OccursAt(s, pat, j)
  {
    if OccursAt(s[..i], pat, j) {
      assert s[..i][j..j + |pat|] == s[j..j + |pat|];
    }
  }

  /** `PATTERN_ANSWER_SPLIT.split(s)`, scanning at `i` where no separator
      starts before `i`. After a separator the scan goes on in the rest of
      the text, which is the same as going on in `s`: whether a separator
      matches at a position depends only on the text from there to the end. */
  function SplitFrom(s: string, i: nat): (r: Cut)
    requires i <= |s|
    requires forall j :: 0 <= j < i ==> SepAt(s, j) == 0
    ensures |r.pieces| == |r.seps| + 1
    ensures Interleave(r.pieces, r.seps) == s
    ensures forall k :: 0 <= k < |r.seps| ==> IsSeparator(r.seps[k])
    ensures forall k :: 0 <= k < |r.pieces| ==>
              !Contains(r.pieces[k], NextItem) && !Contains(r.pieces[k], CheckedItem)
    ensures CrossOnlyLast(r)
    ensures !EndsWithCross(r.pieces[|r.pieces| - 1])
    ensures |s| < 2 ==> r == Cut([s], [])
    decreases |s|, |s| - i
  {
    if i == |s| then
      PieceClean(s, i);
      UnsplitTail(s);
      assert s[..i] == s;
      Cut([s], [])
    else
      var n := SepAt(s, i);
      if n == 0 then SplitFrom(s, i + 1)
      else
        var rest := SplitFrom(s[i + n..], 0);
        PieceClean(s, i);
        InterleaveCons(s[..i], s[i..i + n], rest.pieces, rest.seps);
        ThreeParts(s, i, i + n);
        CrossOnlyLastCons(s, i, n, rest);
        Cut([s[..i]] + rest.pieces, [s[i..i + n]] + rest.seps)
  }

  /** A cross-glyph separator is the last one found, and only "" or a
      line break follows it. */
  ghost predicate CrossOnlyLast(c: Cut)
    requires |c.pieces| == |c.seps| + 1
  {
    forall k :: 0 <= k < |c.seps| && c.seps[k] == CrossedItem ==>
      k == |c.seps| - 1 && (c.pieces[k + 1] == "" || c.pieces[k + 1] == "\n")
  }

  /** A text in which no separator starts does not end with a cross-glyph
      item: the scan would have split there. */
  lemma UnsplitTail(s: string)
    requires forall j :: 0 <= j < |s| ==> SepAt(s, j) == 0
    ensures !EndsWithCross(s)
  {
    if |s| >= 3 {
      var j := |s| - 3;
      assert SepAt(s, j) == 0 && EndAnchor(s, j + 3);
      assert s[j..] == s[j..j + 3];
    }
    if |s| >= 4 {
      var j := |s| - 4;
      var tail := CrossedItem + "\n";
      assert |tail| == 4 && tail[..3] == CrossedItem && tail[3] == '\n';
      if s[|s| - 1] == '\n' {
        assert SepAt(s, j) == 0 && EndAnchor(s, j + 3);
        assert s[j..] == s[j..j + 3] + "\n";
      } else {
        assert s[j..][3] != tail[3];
      }
    }
  }

  /** Putting a separator and the piece before it in front of the rest of
      a split keeps a cross-glyph separator last. */
  lemma CrossOnlyLastCons(s: string, i: nat, n: nat, rest: Cut)
    requires i < |s| && n == SepAt(s, i) && n > 0
    requires |rest.pieces| == |rest.seps| + 1 && CrossOnlyLast(rest)
    requires |s[i + n..]| < 2 ==> rest == Cut([s[i + n..]], [])
    ensures CrossOnlyLast(Cut([s[..i]] + rest.pieces, [s[i..i + n]] + rest.seps))
  {
    var c := Cut([s[..i]] + rest.pieces, [s[i..i + n]] + rest.seps);
    if s[i..i + n] == CrossedItem {
      assert OccursAt(s, CrossedItem, i);
      assert EndAnchor(s, i + 3);
    }
    forall k | 0 < k < |c.seps| && c.seps[k] == CrossedItem
      ensures k == |c.seps| - 1 && (c.pieces[k + 1] == "" || c.pieces[k + 1] == "\n")
    {
      assert c.seps[k] == rest.seps[k - 1] && c.pieces[k + 1] == rest.pieces[k];
    }
  }

  /** A string is its prefix, a middle slice and its suffix. */
  lemma ThreeParts(s: string, i: nat, j: nat)
    requires i <= j <= |s|
    ensures s == s[..i] + s[i..j] + s[j..]
  {
    assert s[..j] == s[..i] + s[i..j];
  }

  lemma InterleaveCons(p: string, d: string, ps: seq<string>, ds: seq<string>)
    requires |ps| == |ds| + 1
    ensures Interleave([p] + ps, [d] + ds) == p + d + Interleave(ps, ds)
  {
    assert ([p] + ps)[1..] == ps;
    assert ([d] + ds)[1..] == ds;
  }

  /** `PATTERN_ANSWER_SPLIT.split(block)`: the pieces, separated by the
      separators the scan finds, make up the block again; none of them
      holds an unanchored separator; a cross-glyph separator can only be
      the last one, followed by nothing or a final line break; and the
      last piece does not end with a cross-glyph item left unsplit. */
  function SplitBlock(block: string): (r: seq<string>)
    ensures |r| >= 1
    ensures exists ds :: && |ds| + 1 == |r| && Interleave(r, ds) == block
                         && (forall k :: 0 <= k < |ds| ==> IsSeparator(ds[k]))
                         && CrossOnlyLast(Cut(r, ds))
    ensures forall k :: 0 <= k < |r| ==> !Contains(r[k], NextItem) && !Contains(r[k], CheckedItem)
    ensures !EndsWithCross(r[|r| - 1])
  {
    var c := SplitFrom(block, 0);
    assert Cut(c.pieces, c.seps) == c;
    c.pieces
  }

  /** An item that holds none of the separators. */
  ghost predicate Unseparated(x: string) {
    !Contains(x, NextItem) && !Contains(x, CheckedItem) && !Contains(x, CrossedItem)
  }

  /** No separator starts inside an item that holds none, when the text
      ends with the item or goes on with a period: every separator ends
      with a line break or a glyph, never with a period. */
  lemma ItemScansThrough(s: string, x: string)
    requires Unseparated(x) && x <= s
    requires |s| == |x| || s[|x|] == '.'
    ensures forall j :: 0 <= j < |x| ==> SepAt(s, j) == 0
  {
    forall j | 0 <= j < |x|
      ensures SepAt(s, j) == 0
    {
      NotStartingIn(s, x, j, NextItem);
      NotStartingIn(s, x, j, CheckedItem);
      NotStartingIn(s, x, j, CrossedItem);
    }
  }

  lemma NotStartingIn(s: string, x: string, j: nat, d: string)
    requires x <= s && j < |x| && !Contains(x, d) && IsSeparator(d)
    requires |s| == |x| || s[|x|] == '.'
    ensures !OccursAt(s, d, j)
  {
    var e := j + |d|;
    if e <= |x| {
      assert !OccursAt(x, d, j);
      assert x[j..e] == s[j..e];
    } else if e <= |s| {
      var m := |x| - j;
      assert s[j..e][m] == s[|x|] == '.';
      assert 0 < m < |d| && d[m] != '.';
    }
  }

  /** Scanning through positions where no separator starts, up to the end
      of the text or to a period and a line break. */
  lemma {:induction false} ScanItem(s: string, i: nat, e: nat)
    requires i <= e <= |s|
    requires forall j :: 0 <= j < e ==> SepAt(s, j) == 0
    requires e == |s| || OccursAt(s, NextItem, e)
    ensures e == |s| ==> SplitFrom(s, i).pieces == [s]
    ensures e < |s| ==> SplitFrom(s, i).pieces == [s[..e]] + SplitFrom(s[e + 2..], 0).pieces
    decreases e - i
  {
    if i < e {
      ScanPast(s, i);
      ScanItem(s, i + 1, e);
    } else if e < |s| {
      ScanAtNextItem(s, e);
    }
  }

  /** Where no separator starts, the scan moves on by one character. */
  lemma ScanPast(s: string, i: nat)
    requires i < |s| && forall j :: 0 <= j <= i ==> SepAt(s, j) == 0
    ensures SplitFrom(s, i) == SplitFrom(s, i + 1)
  {
    assert SepAt(s, i) == 0;
  }

  /** At a period and a line break the scan ends a piece. */
  lemma ScanAtNextItem(s: string, e: nat)
    requires e < |s| && OccursAt(s, NextItem, e) && forall j :: 0 <= j < e ==> SepAt(s, j) == 0
    ensures SplitFrom(s, e).pieces == [s[..e]] + SplitFrom(s[e + 2..], 0).pieces
  {
    assert SepAt(s, e) == 2;
  }

  /** A block of items that hold no separator, each but the last ended by
      a period and a line break, splits back into exactly those items. The
      items may hold line breaks. */
  lemma {:induction false} SplitOfItems(xs: seq<string>)
    requires |xs| >= 1
    requires forall k :: 0 <= k < |xs| ==> Unseparated(xs[k])
    ensures SplitBlock(Join(xs, NextItem)) == xs
    decreases |xs|
  {
    var s := Join(xs, NextItem);
    var x := xs[0];
    if |xs| == 1 {
      LastItem(s, x);
    } else {
      var tail := xs[1..];
      var rest := Join(tail, NextItem);
      assert s == x + NextItem + rest;
      assert Unseparated(x);
      NextItemStep(s, x, rest);
      SplitOfItems(tail);
      assert SplitFrom(rest, 0).pieces == tail;
      assert xs == [x] + tail;
    }
  }

  /** The last item is read whole. */
  lemma LastItem(s: string, x: string)
    requires s == x && Unseparated(x)
    ensures SplitFrom(s, 0).pieces == [x]
  {
    ItemScansThrough(s, x);
    ScanItem(s, 0, |s|);
  }

  /** An item followed by a period and a line break is the first piece,
      and the scan goes on in what follows them. */
  lemma NextItemStep(s: string, x: string, rest: string)
    requires s == x + NextItem + rest && Unseparated(x)
    ensures SplitFrom(s, 0).pieces == [x] + SplitFrom(rest, 0).pieces
  {
    var e := |x|;
    assert s[..e] == x;
    assert s[e..e + 2] == NextItem;
    assert s[e + 2..] == rest;
    ItemScansThrough(s, x);
    ScanItem(s, 0, e);
  }

  /** `PATTERN_ANSWER_CLEAN.search(x).group("answer")`, `None` when it
      does not match: an optional lower-case letter and period, then a
      line up to the end. The letter and period are only skipped when a
      line remains after them. */
  function CleanAnswer(x: string): (r: Option<string>)
    ensures r.Some? ==> IsLine(r.value)
    ensures '\n' !in x ==> (r.None? <==> x == [])
  {
    if |x| >= 2 && 'a' <= x[0] <= 'z' && x[1] == '.' && LineToEnd(x[2..]).Some? then LineToEnd(x[2..])
    else LineToEnd(x)
  }

  /** An answer with an enumerator reads as the text after it. */
  lemma EnumeratedAnswer(l: char, b: string)
    requires 'a' <= l <= 'z' && IsLine(b)
    ensures CleanAnswer([l, '.'] + b) == Some(b)
  {
    assert ([l, '.'] + b)[2..] == b;
  }

  /** An answer without an enumerator reads whole. */
  lemma PlainAnswer(b: string)
    requires IsLine(b)
    requires !(|b| >= 3 && 'a' <= b[0] <= 'z' && b[1] == '.')
    ensures CleanAnswer(b) == Some(b)
  {
    if |b| >= 2 && 'a' <= b[0] <= 'z' && b[1] == '.' {
      assert b[2..] == [];
    }
  }

  /** The pieces that are not empty, in order: one piece is kept exactly
      when it is not empty, and `NonEmptyConcat` says the pieces of a
      concatenation are kept part by part, so order and repetitions stay. */
  function NonEmpty(ps: seq<string>): (r: seq<string>)
    ensures |r| <= |ps|
    ensures forall k :: 0 <= k < |r| ==> r[k] != [] && r[k] in ps
    ensures forall k :: 0 <= k < |ps| && ps[k] != [] ==> ps[k] in r
    ensures |ps| == 1 ==> (r == [] <==> ps[0] == []) && (r != [] ==> r == ps)
    decreases |ps|
  {
    if |ps| == 0 then []
    else if ps[0] == [] then NonEmpty(ps[1..])
    else [ps[0]] + NonEmpty(ps[1..])
  }

  /** Filtering a concatenation filters each part. */
  lemma {:induction false} NonEmptyConcat(a: seq<string>, b: seq<string>)
    ensures NonEmpty(a + b) == NonEmpty(a) + NonEmpty(b)
    decreases |a|
  {
    if |a| == 0 {
      assert a + b == b;
    } else {
      assert (a + b)[0] == a[0] && (a + b)[1..] == a[1..] + b;
      NonEmptyConcat(a[1..], b);
    }
  }

  /** The list comprehension of the extractor over the pieces of a block:
      each piece has its line breaks turned into spaces and is cleaned;
      the pieces the pattern does not match, exactly the empty ones, are
      dropped. */
  function ExtractAnswers(ps: seq<string>): (r: seq<string>)
    ensures |r| == |NonEmpty(ps)|
    ensures forall k :: 0 <= k < |r| ==>
              Some(r[k]) == CleanAnswer(Replace(NonEmpty(ps)[k], "\n", " "))
    ensures forall k :: 0 <= k < |r| ==> IsLine(r[k])
    decreases |ps|
  {
    if |ps| == 0 then []
    else
      var flat := Replace(ps[0], "\n", " ");
      var rest := ExtractAnswers(ps[1..]);
      NoLineBreak(ps[0]);
      match CleanAnswer(flat)
      case None => rest
      case Some(a) => [a] + rest
  }

  /** Turning line breaks into spaces leaves none, and keeps the length. */
  lemma NoLineBreak(p: string)
    ensures '\n' !in Replace(p, "\n", " ")
    ensures |Replace(p, "\n", " ")| == |p|
  {
    var r := Replace(p, "\n", " ");
    forall k | 0 <= k < |r|
      ensures r[k] != '\n'
    {
      assert !OccursAt(r, "\n", k);
      assert r[k..k + 1] == [r[k]];
    }
  }

  /** The answers of a block, in order. */
  function BlockAnswers(block: string): (r: seq<string>)
    ensures forall k :: 0 <= k < |r| ==> IsLine(r[k])
    ensures |r| == |NonEmpty(SplitBlock(block))|
    ensures forall k :: 0 <= k < |r| ==>
              Some(r[k]) == CleanAnswer(Replace(NonEmpty(SplitBlock(block))[k], "\n", " "))
  {
    ExtractAnswers(SplitBlock(block))
  }

  /** The answers of a block of items that hold no separator, joined by
      a period and a line break: each non-empty item, its line breaks
      turned into spaces, cleaned; an item without line breaks is cleaned
      as it is. */
  lemma AnswersOfItems(xs: seq<string>)
    requires |xs| >= 1
    requires forall k :: 0 <= k < |xs| ==> Unseparated(xs[k])
    ensures BlockAnswers(Join(xs, NextItem)) == ExtractAnswers(xs)
    ensures |BlockAnswers(Join(xs, NextItem))| == |NonEmpty(xs)|
    ensures forall k :: 0 <= k < |BlockAnswers(Join(xs, NextItem))| ==>
              Some(BlockAnswers(Join(xs, NextItem))[k]) == CleanAnswer(Replace(NonEmpty(xs)[k], "\n", " "))
    ensures (forall k :: 0 <= k < |xs| ==> '\n' !in xs[k]) ==>
              forall k :: 0 <= k < |BlockAnswers(Join(xs, NextItem))| ==>
                Some(BlockAnswers(Join(xs, NextItem))[k]) == CleanAnswer(NonEmpty(xs)[k])
  {
    SplitOfItems(xs);
    var ne := NonEmpty(xs);
    if forall k :: 0 <= k < |xs| ==> '\n' !in xs[k] {
      forall k | 0 <= k < |ne|
        ensures Replace(ne[k], "\n", " ") == ne[k]
      {
        assert ne[k] in xs;
        CharAbsent(ne[k], '\n');
        ReplaceAbsent(ne[k], "\n", " ");
      }
    }
  }

  /** Replacing something that does not occur changes nothing. */
  lemma ReplaceAbsent(s: string, target: string, repl: string)
    requires target != [] && !Contains(s, target)
    ensures Replace(s, target, repl) == s
  {
    var r := Split(s, target);
    assert |r| == 1 && Join(r, target) == r[0];
  }

  /** A single character that does not occur is not a target. */
  lemma CharAbsent(s: string, c: char)
    requires c !in s
    ensures !Contains(s, [c])
  {
    forall j: nat
      ensures !OccursAt(s, [c], j)
    {
      if j + 1 <= |s| {
        assert s[j..j + 1] == [s[j]];
      }
    }
  }

  /** The question line of the extractor: every line break followed by a
      carriage return becomes a space, then trailing colons go. */
  function QuestionPrompt(q: string): (r: string)
    ensures !Contains(r, "\n\r")
    ensures r == [] || r[|r| - 1] != ':'
    ensures var flat := Replace(q, "\n\r", " ");
            r <= flat && forall k :: |r| <= k < |flat| ==> flat[k] == ':'
  {
    var flat := Replace(q, "\n\r", " ");
    var r := RStrip(flat, {':'});
    PrefixAvoids(flat, r, "\n\r");
    r
  }

  /** A question printed over several lines, each break a line break and
      a carriage return, reads as its lines joined by single spaces. */
  lemma PromptOfLines(xs: seq<string>)
    requires |xs| >= 1
    requires forall k :: 0 <= k < |xs| ==> !Contains(xs[k], "\n\r")
    requires var j := Join(xs, " "); j == [] || j[|j| - 1] != ':'
    ensures QuestionPrompt(Join(xs, "\n\r")) == Join(xs, " ")
  {
    assert Unbordered("\n\r") by {
      assert "\n\r"[..1][0] == '\n' && "\n\r"[1..][0] == '\r';
    }
    ReplaceOfJoin(xs, "\n\r", " ");
    RStripOf(Join(xs, " "), [], {':'});
    assert Join(xs, " ") + [] == Join(xs, " ");
  }

  /** Trailing colons after the question are dropped, and nothing else. */
  lemma PromptDropsColons(x: string, n: nat)
    requires x == [] || x[|x| - 1] != ':'
    requires !Contains(x, "\n\r")
    ensures QuestionPrompt(x + seq(n, _ => ':')) == x
  {
    var colons: string := seq(n, _ => ':');
    var s := x + colons;
    forall j: nat
      ensures !OccursAt(s, "\n\r", j)
    {
      if j + 2 <= |x| {
        assert !OccursAt(x, "\n\r", j);
        assert x[j..j + 2] == s[j..j + 2];
      } else if j + 2 <= |s| {
        assert s[j..j + 2][1] == s[j + 1] == ':';
      }
    }
    ReplaceAbsent(s, "\n\r", " ");
    RStripOf(x, colons, {':'});
  }

  /** A prefix of a string without `pat` does not contain `pat`. */
  lemma PrefixAvoids(s: string, r: string, pat: string)
    requires r <= s && !Contains(s, pat)
    ensures !Contains(r, pat)
  {
    forall j: nat
      ensures !OccursAt(r, pat, j)
    {
      if j + |pat| <= |r| {
        assert r[j..j + |pat|] == s[j..j + |pat|];
        assert !OccursAt(s, pat, j);
      }
    }
  }
}
