/** The correct-answer statement a quiz review prints under a question
    ("La respuesta correcta es: …" / "Las respuestas correctas son: …"),
    and how the scraper reads the correct answers out of it. */
module Statement {
  import opened Base
  import opened Text

  /** What reading the statement gives: nothing (no feedback, or a
      sentence of another shape), one bare answer, or a list of them. */
  datatype RightAnswer = Absent | One(answer: string) | Many(answers: seq<string>)

  /** The two sentence openings; the singular one may carry a colon. */
  const SingularLead := "La respuesta correcta es"
  const PluralLead := "Las respuestas correctas son:"

  const Quote: set<char> := {'\''}
  const Period: set<char> := {'.'}

  /** Separator between the answers of the plural sentence. */
  const AnswerSeparator := "., "

  /** A non-empty run of characters without a line break: what `.+`
      matches. */
  predicate IsLine(b: string) {
    |b| > 0 && '\n' !in b
  }

  /** `(?P<g>.+)$` matched from the start of `u` without the MULTILINE
      flag, where `$` also matches just before a final line break. */
  function LineToEnd(u: string): (r: Option<string>)
    ensures r.Some? ==> IsLine(r.value) && (u == r.value || u == r.value + "\n")
  {
    if IsLine(u) then Some(u)
    else if |u| > 1 && u[|u| - 1] == '\n' && IsLine(u[..|u| - 1]) then Some(u[..|u| - 1])
    else None
  }

  /** A line, optionally followed by one line break, is matched whole. */
  lemma LineToEndOf(b: string, t: string)
    requires IsLine(b) && (t == "" || t == "\n")
    ensures LineToEnd(b + t) == Some(b)
  {
    if t == "\n" {
      assert '\n' in b + t by { assert (b + t)[|b|] == '\n'; }
      assert (b + t)[..|b + t| - 1] == b;
    } else {
      assert b + t == b;
    }
  }

  /** The text the pattern requires before the captured answers: one of
      the openings followed by exactly one whitespace character. */
  ghost predicate Lead(h: string) {
    && |h| > 0 && h[|h| - 1] in Whitespace
    && h[..|h| - 1] in {SingularLead, SingularLead + ":", PluralLead}
  }

  /** How much of `text` the opening of the pattern consumes (an opening
      and one whitespace character), or 0 when it does not match. */
  function LeadLength(text: string): (n: nat)
    ensures n > 0 ==> n <= |text| && Lead(text[..n])
  {
    var s := |SingularLead|;
    var p := |PluralLead|;
    if SingularLead <= text then
      if s + 1 < |text| && text[s] == ':' && text[s + 1] in Whitespace then
        assert text[..s + 2][..s + 1] == SingularLead + ":" by {
          assert text[..s + 1] == text[..s] + [':'];
        }
        s + 2
      else if s < |text| && text[s] in Whitespace then
        assert text[..s + 1][..s] == SingularLead;
        s + 1
      else 0
    else if PluralLead <= text && p < |text| && text[p] in Whitespace then
      assert text[..p + 1][..p] == PluralLead;
      p + 1
    else 0
  }

  /** `PATTERN_MATCH_RIGHT_ANSWER.search(text).group("rightanswer")`, or
      `None` when the search fails. */
  function MatchRightAnswer(text: string): (r: Option<string>)
    ensures r.Some? ==> IsLine(r.value)
    ensures r.Some? ==> exists h :: Lead(h) && (text == h + r.value || text == h + r.value + "\n")
  {
    var n := LeadLength(text);
    if n == 0 then None
    else
      var r := LineToEnd(text[n..]);
      assert text == text[..n] + text[n..];
      r
  }

  /** Every sentence of the expected shape is recognised, and its
      answers part is captured exactly. */
  lemma RecogniseTemplate(h: string, b: string, t: string)
    requires Lead(h) && IsLine(b) && (t == "" || t == "\n")
    ensures MatchRightAnswer(h + b + t) == Some(b)
  {
    var text := h + b + t;
    assert text == h + (b + t);
    LeadLengthOf(h, b + t);
    assert text[|h|..] == b + t;
    LineToEndOf(b, t);
  }

  /** The opening part of the pattern consumes exactly an opening and
      its whitespace character. */
  lemma LeadLengthOf(h: string, rest: string)
    requires Lead(h)
    ensures LeadLength(h + rest) == |h|
  {
    var text := h + rest;
    var n := |h|;
    var lead := h[..n - 1];
    assert h == lead + [h[n - 1]];
    assert text[n - 1] == h[n - 1];
    assert text[..n] == h;
    if lead == PluralLead {
      assert !(SingularLead <= text) by { assert text[2] == 's' != SingularLead[2]; }
      assert PluralLead <= text;
    } else if lead == SingularLead {
      assert SingularLead <= text;
      assert text[n - 1] != ':';
    } else {
      assert SingularLead <= text;
      assert text[|SingularLead|] == ':';
    }
  }

  /** One fragment as the scraper cleans it: quotes off both ends, then
      every trailing period off (`CleanFragmentStrips` relates it to
      `Strip`). */
  function CleanFragment(x: string): (r: string)
    ensures Trimmed(r)
    ensures '\n' !in x ==> '\n' !in r
  {
    var q := Strip(x, Quote);
    var r := RStrip(q, Period);
    SliceLacks(x, q, '\n');
    assert r == q[..|r|];
    r
  }

  /** What cleaning keeps is what `strip("'")` keeps, up to a run of
      periods at its end: only quotes go from around the fragment, and
      only periods from after it. */
  lemma CleanFragmentStrips(x: string)
    ensures var q := Strip(x, Quote);
            CleanFragment(x) <= q && forall k :: |CleanFragment(x)| <= k < |q| ==> q[k] == '.'
  {
    var q := Strip(x, Quote);
    assert CleanFragment(x) == RStrip(q, Period);
  }

  /** A quoted answer with a final period inside the quotes reads as the
      bare answer. */
  lemma QuotedAnswer(x: string)
    requires Trimmed(x)
    ensures CleanFragment("'" + x + ".'") == x
  {
    var s := "'" + x + ".'";
    var q := Strip(s, Quote);
    var i: nat :| SliceWithin(s, q, i, Quote);
    assert s[1] != '\'' && s[|s| - 2] == '.';
    assert i == 1 && i + |q| == |s| - 1;
    assert q == s[1..|s| - 1] == x + ".";
    RStripOf(x, ".", Period);
  }

  /** A slice of a string without `c` is without `c`. */
  lemma SliceLacks(x: string, q: string, c: char)
    requires exists i: nat :: SliceWithin(x, q, i, Quote)
    ensures c !in x ==> c !in q
  {
    var i: nat :| SliceWithin(x, q, i, Quote);
    assert q == x[i..i + |q|];
  }

  /** `CleanFragment` applied to each piece, in order. */
  function CleanEach(parts: seq<string>): (r: seq<string>)
    ensures |r| == |parts|
    ensures forall k :: 0 <= k < |r| ==> Trimmed(r[k])
    ensures (forall k :: 0 <= k < |parts| ==> '\n' !in parts[k]) ==> forall k :: 0 <= k < |r| ==> '\n' !in r[k]
  {
    seq(|parts|, k requires 0 <= k < |parts| => CleanFragment(parts[k]))
  }

  /** The answers part split at every `"., "` and cleaned piece by piece. */
  function Fragments(g: string): (r: seq<string>)
    ensures |r| >= 1
    ensures forall k :: 0 <= k < |r| ==> Trimmed(r[k])
    ensures '\n' !in g ==> forall k :: 0 <= k < |r| ==> '\n' !in r[k]
  {
    var parts := Split(CleanFragment(g), AnswerSeparator);
    PiecesWithin(parts, AnswerSeparator, '\n');
    CleanEach(parts)
  }

  /** The fragments are the pieces of the cleaned answers part, cut at
      the leftmost "., " each time, each piece cleaned again. */
  lemma FragmentsPieces(g: string)
    ensures exists ps ::
              && LeftmostPieces(CleanFragment(g), AnswerSeparator, ps)
              && |Fragments(g)| == |ps|
              && forall k :: 0 <= k < |ps| ==> Fragments(g)[k] == CleanFragment(ps[k])
  {
    SplitLeftmost(CleanFragment(g), AnswerSeparator);
  }

  /** A character missing from a joined string is missing from each piece. */
  lemma PiecesWithin(xs: seq<string>, sep: string, c: char)
    ensures c !in Join(xs, sep) ==> forall k :: 0 <= k < |xs| ==> c !in xs[k]
  {
    forall k | 0 <= k < |xs| && c in xs[k]
      ensures c in Join(xs, sep)
    {
      JoinHasPieces(xs, sep, k, c);
    }
  }

  /** `Question.__get_rightanswer`: `None` without feedback or when the
      feedback is not one of the two sentences; otherwise the cleaned
      fragments, a single one collapsing to a bare string. */
  function ParseStatement(feedback: Option<string>): (r: RightAnswer)
    ensures r.Absent? <==> feedback.None? || MatchRightAnswer(feedback.value).None?
    ensures r.Many? ==> |r.answers| >= 2
    ensures r.One? ==> Fragment(r.answer)
    ensures r.Many? ==> forall k :: 0 <= k < |r.answers| ==> Fragment(r.answers[k])
    ensures feedback.Some? && MatchRightAnswer(feedback.value).Some? ==>
              var fs := Fragments(MatchRightAnswer(feedback.value).value);
              (|fs| == 1 ==> r == One(fs[0])) && (|fs| > 1 ==> r == Many(fs))
  {
    match feedback
    case None => Absent
    case Some(text) =>
      match MatchRightAnswer(text)
      case None => Absent
      case Some(g) =>
        var fs := Fragments(g);
        if |fs| == 1 then One(fs[0]) else Many(fs)
  }

  /** What cleaning leaves: no leading quote and no trailing period. */
  ghost predicate Trimmed(f: string) {
    f == [] || (f[0] != '\'' && f[|f| - 1] != '.')
  }

  /** What every fragment read from a statement looks like: one line,
      trimmed. */
  ghost predicate Fragment(f: string) {
    '\n' !in f && Trimmed(f)
  }

  /** An answer the platform can print so that it reads back unchanged:
      one non-empty line, not quoted, no trailing period and no `"., "`. */
  ghost predicate Printable(x: string) {
    && IsLine(x)
    && x[0] != '\'' && x[|x| - 1] != '\'' && x[|x| - 1] != '.'
    && !Contains(x, AnswerSeparator)
  }

  /** The statement the platform prints for the correct answers `xs`. */
  function Render(xs: seq<string>): string
    requires |xs| >= 1
  {
    if |xs| == 1 then SingularLead + ": " + xs[0]
    else PluralLead + " " + Join(xs, AnswerSeparator) + "."
  }

  lemma SeparatorUnbordered()
    ensures Unbordered(AnswerSeparator)
  {
    var s := AnswerSeparator;
    assert s[..1][0] == '.' && s[2..][0] == ' ';
    assert s[..2][0] == '.' && s[1..][0] == ',';
  }

  lemma CleanKeeps(x: string)
    requires Printable(x)
    ensures CleanFragment(x) == x
  {
    StripKeeps(x, Quote);
  }

  /** Cleaning a string that ends in one period after a non-period, and
      does not start with a quote, drops just that period. */
  lemma CleanDropsFinalPeriod(j: string)
    requires j != [] && j[0] != '\'' && j[|j| - 1] != '.'
    ensures CleanFragment(j + ".") == j
  {
    var g := j + ".";
    assert g[0] == j[0] && g[|g| - 1] == '.';
    StripKeeps(g, Quote);
    assert g[..|g| - 1] == j;
    assert RStrip(g, Period) == RStrip(j, Period);
  }

  /** A printed plural answers part starts and ends like a printable answer. */
  lemma PluralPartEnds(xs: seq<string>)
    requires |xs| >= 2
    requires forall k :: 0 <= k < |xs| ==> Printable(xs[k])
    ensures var j := Join(xs, AnswerSeparator); j != [] && j[0] != '\'' && j[|j| - 1] != '.'
  {
    assert Printable(xs[0]) && Printable(xs[|xs| - 1]);
    JoinFirst(xs, AnswerSeparator);
    JoinLast(xs, AnswerSeparator);
  }

  /** Printable answers come out of cleaning unchanged. */
  lemma {:induction false} CleanEachKeeps(xs: seq<string>)
    requires forall k :: 0 <= k < |xs| ==> Printable(xs[k])
    ensures CleanEach(xs) == xs
    decreases |xs|
  {
    if |xs| > 0 {
      CleanKeeps(xs[0]);
      CleanEachKeeps(xs[1..]);
      assert xs == [xs[0]] + xs[1..];
    }
  }

  /** A printed plural answers part, cleaned as a whole and split, gives
      back the answers. */
  lemma PartsOfPlural(xs: seq<string>)
    requires |xs| >= 2
    requires forall k :: 0 <= k < |xs| ==> Printable(xs[k])
    ensures Split(CleanFragment(Join(xs, AnswerSeparator) + "."), AnswerSeparator) == xs
  {
    var j := Join(xs, AnswerSeparator);
    PluralPartEnds(xs);
    CleanDropsFinalPeriod(j);
    assert CleanFragment(j + ".") == j;
    SplitsBack(xs);
    assert Split(j, AnswerSeparator) == xs;
  }

  /** Printable answers joined with the separator split back apart. */
  lemma SplitsBack(xs: seq<string>)
    requires |xs| >= 1
    requires forall k :: 0 <= k < |xs| ==> Printable(xs[k])
    ensures Split(Join(xs, AnswerSeparator), AnswerSeparator) == xs
  {
    SeparatorUnbordered();
    SplitOfJoin(xs, AnswerSeparator);
  }

  /** The fragments of a printed plural answers part are the answers. */
  lemma FragmentsOfPlural(xs: seq<string>)
    requires |xs| >= 2
    requires forall k :: 0 <= k < |xs| ==> Printable(xs[k])
    ensures Fragments(Join(xs, AnswerSeparator) + ".") == xs
  {
    PartsOfPlural(xs);
    CleanEachKeeps(xs);
  }

  /** Reading a printed statement gives back exactly the answers that
      were printed: one answer as a bare string, several as a list. */
  lemma StatementRoundTrip(xs: seq<string>)
    requires |xs| >= 1
    requires forall k :: 0 <= k < |xs| ==> Printable(xs[k])
    ensures ParseStatement(Some(Render(xs))) == if |xs| == 1 then One(xs[0]) else Many(xs)
  {
    if |xs| == 1 {
      SingleRoundTrip(xs[0]);
    } else {
      PluralRoundTrip(xs);
    }
  }

  /** The singular statement reads back as its one answer. */
  lemma SingleRoundTrip(x: string)
    requires Printable(x)
    ensures ParseStatement(Some(Render([x]))) == One(x)
  {
    var h := SingularLead + ": ";
    assert Lead(h) by {
      assert h[..|SingularLead| + 1] == SingularLead + ":";
    }
    RecogniseTemplate(h, x, "");
    assert Render([x]) == h + x + "";
    FragmentsOfSingle(x);
  }

  /** A printable answer is its own single fragment. */
  lemma FragmentsOfSingle(x: string)
    requires Printable(x)
    ensures Fragments(x) == [x]
  {
    CleanKeeps(x);
    FragmentsCleaningTo(x, x);
  }

  /** An answers part that cleans to a printable answer is that one
      fragment. */
  lemma FragmentsCleaningTo(g: string, x: string)
    requires Printable(x) && CleanFragment(g) == x
    ensures Fragments(g) == [x]
  {
    CleanKeeps(x);
    SeparatorUnbordered();
    SplitOfJoin([x], AnswerSeparator);
    assert Join([x], AnswerSeparator) == x;
    assert Split(CleanFragment(g), AnswerSeparator) == [x];
    assert CleanEach([x]) == [CleanFragment(x)];
  }

  /** Quotes around a printable answer are dropped. */
  lemma QuotedPlain(x: string)
    requires Printable(x)
    ensures CleanFragment("'" + x + "'") == x
  {
    var s := "'" + x + "'";
    var q := Strip(s, Quote);
    var i: nat :| SliceWithin(s, q, i, Quote);
    assert s[1] == x[0] != '\'' && s[|s| - 2] == x[|x| - 1] != '\'';
    assert i == 1 && i + |q| == |s| - 1;
    assert q == s[1..|s| - 1] == x;
    StripKeeps(x, Quote);
    CleanKeeps(x);
  }

  /** The singular statement in its other printed forms, quoted (the
      form true/false questions get) or with a final period, reads as
      its one answer, whichever opening it uses. */
  lemma SingularForms(h: string, x: string)
    requires Lead(h) && Printable(x)
    ensures ParseStatement(Some(h + "'" + x + "'")) == One(x)
    ensures ParseStatement(Some(h + x + ".")) == One(x)
  {
    SingularQuoted(h, x);
    SingularEnded(h, x);
  }

  lemma SingularQuoted(h: string, x: string)
    requires Lead(h) && Printable(x)
    ensures ParseStatement(Some(h + "'" + x + "'")) == One(x)
  {
    var quoted := "'" + x + "'";
    assert IsLine(quoted) by {
      assert quoted == ['\''] + x + ['\''];
    }
    RecogniseTemplate(h, quoted, "");
    assert h + "'" + x + "'" == h + quoted + "";
    QuotedPlain(x);
    FragmentsCleaningTo(quoted, x);
  }

  lemma SingularEnded(h: string, x: string)
    requires Lead(h) && Printable(x)
    ensures ParseStatement(Some(h + x + ".")) == One(x)
  {
    var ended := x + ".";
    assert IsLine(ended);
    RecogniseTemplate(h, ended, "");
    assert h + x + "." == h + ended + "";
    CleanDropsFinalPeriod(x);
    FragmentsCleaningTo(ended, x);
  }

  /** The plural statement reads back as its list of answers. */
  lemma PluralRoundTrip(xs: seq<string>)
    requires |xs| >= 2
    requires forall k :: 0 <= k < |xs| ==> Printable(xs[k])
    ensures ParseStatement(Some(Render(xs))) == Many(xs)
  {
    var h := PluralLead + " ";
    var g := Join(xs, AnswerSeparator) + ".";
    JoinLacks(xs, AnswerSeparator, '\n');
    assert IsLine(g);
    assert Lead(h) by {
      assert h[..|PluralLead|] == PluralLead;
    }
    RecogniseTemplate(h, g, "");
    assert Render(xs) == h + g + "";
    FragmentsOfPlural(xs);
  }
}
