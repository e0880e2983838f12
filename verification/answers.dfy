/** How the scraper reads the given answer of one question and decides
    its correctness: a typed text, a list of choices, or a table of
    matchings, depending on the tag of the question's `answer` node. */
module Answers {
  import opened Base
  import opened Text
  import opened Statement

  /** The text input of a free-text question: its typed value and the
      class attribute of the feedback icon beside it. */
  datatype TextField = TextField(value: string, iconClass: string)

  /** One option row of a choice question: its text as read from a `div`
      (platform 3.9.12) or from a `label` (3.7.7), and its class attribute. */
  datatype OptionRow = OptionRow(divText: Option<string>, labelText: Option<string>, rowClass: string)

  /** The option rows of a choice question and the `type` of its input. */
  datatype ChoiceBlock = ChoiceBlock(rows: seq<OptionRow>, inputType: string)

  /** An `option` of a matching row's `select`. */
  datatype SelectOption = SelectOption(text: string, selected: bool)

  /** One `tr` of a matching table: the fixed left text, the options of
      its `select`, and the class attribute of the `control` cell. */
  datatype MatchRow = MatchRow(left: string, options: seq<SelectOption>, controlClass: string)

  /** The node of class `answer`: its tag name and what each reader would
      find below it. */
  datatype AnswerNode = AnswerNode(tag: string, field: TextField, choices: ChoiceBlock, table: seq<MatchRow>)

  /** One choice and whether it is correct: true, false or unknown. */
  datatype Choice = Choice(text: string, correct: Option<bool>)

  /** One matching row: left text, right text, and whether it is correct. */
  datatype Pairing = Pairing(left: string, right: string, correct: bool)

  /** What `get_answer` returns. `Typed(None)` and `Unsupported` are both
      Python's `None`. */
  datatype Answer =
    | Typed(value: Option<string>)
    | Choices(options: seq<Choice>)
    | Pairings(rows: seq<Pairing>)
    | Unsupported

  const FaCheck := "fa-check"
  const Arrow := " → "

  // ---------------------------------------------------------------- text

  /** Python's truthiness of the statement: `None`, `""` and `[]` are false. */
  predicate Stated(ra: RightAnswer) {
    match ra
    case Absent => false
    case One(s) => s != []
    case Many(xs) => xs != []
  }

  /** `map(str.casefold, xs)`, with case folding given as `fold`. */
  function FoldAll(fold: string -> string, xs: seq<string>): (r: seq<string>)
    ensures |r| == |xs|
    ensures forall k :: 0 <= k < |xs| ==> r[k] == fold(xs[k])
  {
    seq(|xs|, k requires 0 <= k < |xs| => fold(xs[k]))
  }

  /** The typed value, when the icon's class names `fa-check`. */
  function InferText(field: TextField): (r: Option<string>)
    ensures r.Some? <==> Contains(field.iconClass, FaCheck)
    ensures r.Some? ==> r.value == field.value
  {
    if Find(field.iconClass, FaCheck).Some? then Some(field.value) else None
  }

  /** `__get_text_answer`. With a truthy statement, the typed value is
      kept when it equals the single answer, or one of the list, up to
      case folding; a list with no such member makes the code call
      `casefold` on the list, which raises. Otherwise the `fa-check` icon
      decides. */
  function TextAnswer(field: TextField, ra: RightAnswer, fold: string -> string): (r: Result<Option<string>>)
    ensures r.Ok? && r.value.Some? ==> r.value.value == field.value
    ensures ra.One? && Stated(ra) ==>
              r.Ok? && (r.value.Some? <==> fold(field.value) == fold(ra.answer))
    ensures ra.Many? && Stated(ra) ==>
              && (r.Ok? <==> exists k :: 0 <= k < |ra.answers| && fold(ra.answers[k]) == fold(field.value))
              && (r.Ok? ==> r.value.Some?)
              && (r.Err? ==> r.error == AttributeError)
    ensures !Stated(ra) ==> r.Ok? && (r.value.Some? <==> Contains(field.iconClass, FaCheck))
  {
    var text := field.value;
    match ra
    case Many(xs) =>
      if xs == [] then Ok(InferText(field))
      else if fold(text) in FoldAll(fold, xs) then Ok(Some(text))
      else Err(AttributeError)
    case One(s) =>
      if s == [] then Ok(InferText(field))
      else if fold(text) == fold(s) then Ok(Some(text))
      else Ok(None)
    case Absent => Ok(InferText(field))
  }

  // -------------------------------------------------------------- choices

  /** An enumerator as `PATTERN_MATCH_ANSWER` skips it: a lower-case ASCII
      letter, a period and one whitespace character. */
  predicate IsEnumerator(p: string) {
    |p| == 3 && 'a' <= p[0] <= 'z' && p[1] == '.' && p[2] in Whitespace
  }

  /** `t` is a line `v`, possibly after an enumerator, with at most one
      final line break: a text `PATTERN_MATCH_ANSWER` can read as `v`. */
  ghost predicate ReadsAs(t: string, v: string) {
    && IsLine(v)
    && (|| t == v || t == v + "\n"
        || exists p :: IsEnumerator(p) && (t == p + v || t == p + v + "\n"))
  }

  /** `PATTERN_MATCH_ANSWER.search(t).group("answer")`: the enumerator is
      skipped when the rest still matches `.+$`. A text that cannot be
      read at all gives `None`, on which `.group` raises. */
  function MatchOption(t: string): (r: Option<string>)
    ensures r.Some? ==> ReadsAs(t, r.value)
    ensures r.None? <==> forall v :: !ReadsAs(t, v)
  {
    UnreadableText(t);
    ReadableText(t);
    if |t| >= 3 && IsEnumerator(t[..3]) && LineToEnd(t[3..]).Some? then LineToEnd(t[3..])
    else LineToEnd(t)
  }

  /** What either alternative of the pattern matches is a reading. */
  lemma ReadableText(t: string)
    ensures LineToEnd(t).Some? ==> ReadsAs(t, LineToEnd(t).value)
    ensures |t| >= 3 && IsEnumerator(t[..3]) && LineToEnd(t[3..]).Some? ==>
              ReadsAs(t, LineToEnd(t[3..]).value)
  {
    if |t| >= 3 && IsEnumerator(t[..3]) && LineToEnd(t[3..]).Some? {
      var v := LineToEnd(t[3..]).value;
      assert t == t[..3] + t[3..];
      assert t == t[..3] + v || t == t[..3] + v + "\n";
    }
  }

  /** Whenever some reading of `t` exists, one of the two alternatives of
      the pattern matches. */
  lemma UnreadableText(t: string)
    ensures (exists v :: ReadsAs(t, v)) ==>
              LineToEnd(t).Some? || (|t| >= 3 && IsEnumerator(t[..3]) && LineToEnd(t[3..]).Some?)
  {
    if v :| ReadsAs(t, v) {
      if t == v || t == v + "\n" {
        LineToEndOf(v, t[|v|..]);
        assert t == v + t[|v|..];
      } else {
        var p :| IsEnumerator(p) && (t == p + v || t == p + v + "\n");
        assert t[..3] == p;
        assert t[3..] == v + t[3 + |v|..];
        LineToEndOf(v, t[3 + |v|..]);
      }
    }
  }

  /** An enumerated option line reads as the text after its enumerator. */
  lemma EnumeratedOption(p: string, b: string, t: string)
    requires IsEnumerator(p) && IsLine(b) && (t == "" || t == "\n")
    ensures MatchOption(p + b + t) == Some(b)
  {
    var s := p + b + t;
    assert s[..3] == p;
    assert s[3..] == b + t;
    LineToEndOf(b, t);
  }

  /** An option line without an enumerator reads whole. */
  lemma PlainOption(b: string, t: string)
    requires IsLine(b) && (t == "" || t == "\n")
    requires !(|b| >= 3 && IsEnumerator(b[..3]) && IsLine(b[3..]))
    ensures MatchOption(b + t) == Some(b)
  {
    var s := b + t;
    LineToEndOf(b, t);
    if |s| >= 3 && IsEnumerator(s[..3]) {
      if |b| >= 3 {
        assert s[..3] == b[..3];
        assert b[3..] == [] by {
          assert forall c :: c in b[3..] ==> c in b;
        }
        assert s[3..] == t;
      } else {
        assert s[3..] == [];
      }
      assert LineToEnd(s[3..]).None?;
    }
  }

  /** The text of an option row: the `div`, else the `label`. */
  function RowText(row: OptionRow): (r: Result<string>)
    ensures r.Err? <==> row.divText.None? && row.labelText.None?
    ensures r.Ok? ==> r.value == (if row.divText.Some? then row.divText.value else row.labelText.value)
  {
    match row.divText
    case Some(t) => Ok(t)
    case None =>
      match row.labelText
      case Some(t) => Ok(t)
      case None => Err(NoSuchElement)
  }

  /** The cleaned text of an option: enumerator skipped, trailing periods
      removed. A row without text raises `NoSuchElement`; a text that
      cannot be read makes `.group` raise `AttributeError`. */
  function OptionText(row: OptionRow): (r: Result<string>)
    ensures r == Err(NoSuchElement) <==> RowText(row).Err?
    ensures r == Err(AttributeError) <==> RowText(row).Ok? && forall v :: !ReadsAs(RowText(row).value, v)
    ensures r.Err? ==> r.error == NoSuchElement || r.error == AttributeError
    ensures r.Ok? ==> && RowText(row).Ok? && MatchOption(RowText(row).value).Some?
                      && var v := MatchOption(RowText(row).value).value;
                         r.value <= v && forall k :: |r.value| <= k < |v| ==> v[k] == '.'
    ensures r.Ok? ==> r.value == [] || r.value[|r.value| - 1] != '.'
    ensures r.Ok? ==> '\n' !in r.value
  {
    var text :- RowText(row);
    match MatchOption(text)
    case None => Err(AttributeError)
    case Some(t) => Ok(RStrip(t, Period))
  }

  /** An option row reading "x. text", with at most a final line break,
      yields the text without the enumerator and its trailing periods. */
  lemma EnumeratedRow(row: OptionRow, p: string, b: string, t: string)
    requires IsEnumerator(p) && IsLine(b) && (t == "" || t == "\n")
    requires RowText(row) == Ok(p + b + t)
    ensures OptionText(row) == Ok(RStrip(b, Period))
  {
    EnumeratedOption(p, b, t);
  }

  /** An option row reading a line without an enumerator yields the line
      without its trailing periods. */
  lemma PlainRow(row: OptionRow, b: string, t: string)
    requires IsLine(b) && (t == "" || t == "\n")
    requires !(|b| >= 3 && IsEnumerator(b[..3]) && IsLine(b[3..]))
    requires RowText(row) == Ok(b + t)
    ensures OptionText(row) == Ok(RStrip(b, Period))
  {
    PlainOption(b, t);
  }

  /** The correctness cue of an option row's classes: `correct`, then
      `incorrect`, else unknown. */
  function Cue(rowClass: string): (r: Option<bool>)
    ensures r == Some(true) <==> "correct" in Split(rowClass, " ")
    ensures r == Some(false) <==> "correct" !in Split(rowClass, " ") && "incorrect" in Split(rowClass, " ")
  {
    var tokens := Split(rowClass, " ");
    if "correct" in tokens then Some(true)
    else if "incorrect" in tokens then Some(false)
    else None
  }

  /** The correctness of one option before the single-select correction:
      exact membership in a list statement, exact equality with a single
      one, else the row's cue. */
  function Judge(text: string, ra: RightAnswer, rowClass: string): (r: Option<bool>)
    ensures ra.Many? ==> r == Some(text in ra.answers)
    ensures ra.One? ==> r == Some(text == ra.answer)
    ensures ra.Absent? ==> r == Cue(rowClass)
  {
    match ra
    case Many(xs) => Some(text in xs)
    case One(s) => Some(text == s)
    case Absent => Cue(rowClass)
  }

  /** The option rows read in order; the first failing row raises. */
  function ReadChoices(rows: seq<OptionRow>, ra: RightAnswer): (r: Result<seq<Choice>>)
    ensures r.Ok? <==> forall i :: 0 <= i < |rows| ==> OptionText(rows[i]).Ok?
    ensures r.Ok? ==> |r.value| == |rows|
    ensures r.Ok? ==> forall i :: 0 <= i < |rows| ==>
              && r.value[i].text == OptionText(rows[i]).value
              && r.value[i].correct == Judge(r.value[i].text, ra, rows[i].rowClass)
    ensures r.Err? ==> exists i :: 0 <= i < |rows| && OptionText(rows[i]) == Err(r.error)
                                   && forall j :: 0 <= j < i ==> OptionText(rows[j]).Ok?
    decreases |rows|
  {
    if |rows| == 0 then Ok([])
    else
      var text :- OptionText(rows[0]);
      var rest :- ReadChoices(rows[1..], ra);
      Ok([Choice(text, Judge(text, ra, rows[0].rowClass))] + rest)
  }

  /** How many choices are known to be correct. */
  function CountTrue(cs: seq<Choice>): nat {
    if |cs| == 0 then 0
    else (if cs[0].correct == Some(true) then 1 else 0) + CountTrue(cs[1..])
  }

  /** Every unknown correctness becomes false. */
  function ResolveUnknown(cs: seq<Choice>): (r: seq<Choice>)
    ensures |r| == |cs|
    ensures forall i :: 0 <= i < |cs| ==>
              && r[i].text == cs[i].text
              && (cs[i].correct.Some? ==> r[i] == cs[i])
              && (cs[i].correct.None? ==> r[i].correct == Some(false))
    decreases |cs|
  {
    if |cs| == 0 then []
    else
      var c := Choice(cs[0].text, if cs[0].correct.None? then Some(false) else cs[0].correct);
      var rest := ResolveUnknown(cs[1..]);
      assert forall i :: 0 < i < |cs| ==> ([c] + rest)[i] == rest[i - 1] && cs[1..][i - 1] == cs[i];
      [c] + rest
  }

  /** `CountTrue` only looks at the entries that are known correct. */
  lemma {:induction false} CountTrueResolved(cs: seq<Choice>)
    ensures CountTrue(ResolveUnknown(cs)) == CountTrue(cs)
    decreases |cs|
  {
    if |cs| > 0 {
      CountTrueResolved(cs[1..]);
      assert ResolveUnknown(cs)[1..] == ResolveUnknown(cs[1..]);
    }
  }

  /** The single-select correction: a radio list with exactly one correct
      choice has every unknown choice turned false. */
  function CloseWorld(cs: seq<Choice>, single: bool): (r: seq<Choice>)
    ensures single && CountTrue(cs) == 1 ==> r == ResolveUnknown(cs)
    ensures !(single && CountTrue(cs) == 1) ==> r == cs
  {
    if single && CountTrue(cs) == 1 then ResolveUnknown(cs) else cs
  }

  /** After the correction a single-select list has exactly one correct
      choice, and no choice left unknown. */
  lemma ClosedWorldResolves(cs: seq<Choice>)
    requires CountTrue(cs) == 1
    ensures CountTrue(CloseWorld(cs, true)) == 1
    ensures forall i :: 0 <= i < |cs| ==> CloseWorld(cs, true)[i].correct.Some?
    ensures forall i :: 0 <= i < |cs| ==> CloseWorld(cs, true)[i].text == cs[i].text
  {
    CountTrueResolved(cs);
  }

  /** The correction never changes a known verdict and never reorders. */
  lemma CloseWorldKeepsKnown(cs: seq<Choice>, single: bool)
    ensures |CloseWorld(cs, single)| == |cs|
    ensures forall i :: 0 <= i < |cs| && cs[i].correct.Some? ==> CloseWorld(cs, single)[i] == cs[i]
  {
  }

  /** `__get_multiple_answer`: one choice per option row in row order,
      each judged, then the single-select correction for `radio` inputs. */
  function ChoiceAnswer(block: ChoiceBlock, ra: RightAnswer): (r: Result<seq<Choice>>)
    ensures r.Ok? <==> forall i :: 0 <= i < |block.rows| ==> OptionText(block.rows[i]).Ok?
    ensures r.Ok? ==> |r.value| == |block.rows|
    ensures r.Ok? ==> forall i :: 0 <= i < |block.rows| ==> r.value[i].text == OptionText(block.rows[i]).value
    ensures r.Err? ==> exists i :: 0 <= i < |block.rows| && OptionText(block.rows[i]) == Err(r.error)
                                   && forall j :: 0 <= j < i ==> OptionText(block.rows[j]).Ok?
    ensures r.Ok? && ra.Many? ==> forall i :: 0 <= i < |r.value| ==>
              r.value[i].correct == Some(r.value[i].text in ra.answers)
    ensures r.Ok? && ra.One? ==> forall i :: 0 <= i < |r.value| ==>
              r.value[i].correct == Some(r.value[i].text == ra.answer)
    ensures r.Ok? && ra.Absent? ==> forall i :: 0 <= i < |r.value| ==>
              var cue := Cue(block.rows[i].rowClass);
              r.value[i].correct == (if cue.None? && block.inputType == "radio" && CountTrue(r.value) == 1
                                     then Some(false) else cue)
  {
    var cs :- ReadChoices(block.rows, ra);
    CountTrueResolved(cs);
    Ok(CloseWorld(cs, block.inputType == "radio"))
  }

  // ------------------------------------------------------------- matching

  /** `map(str.strip, fragment.split(" → "))` unpacked into a key and a
      value; anything but exactly two parts raises. */
  function SplitPair(fragment: string): (r: Result<(string, string)>)
    ensures r.Err? <==> |Split(fragment, Arrow)| != 2
    ensures r.Err? ==> r.error == ValueError
    ensures r.Ok? ==> exists a, b ::
              && fragment == a + Arrow + b
              && Find(fragment, Arrow) == Some(|a|)
              && !Contains(a, Arrow) && !Contains(b, Arrow)
              && r.value == (Strip(a, Whitespace), Strip(b, Whitespace))
  {
    var parts := Split(fragment, Arrow);
    if |parts| != 2 then Err(ValueError)
    else
      assert parts[0..] == parts && parts[1..] == [parts[1]];
      assert Join(parts, Arrow) == parts[0] + Arrow + parts[1];
      Ok((Strip(parts[0], Whitespace), Strip(parts[1], Whitespace)))
  }

  /** The outcome of splitting each fragment. */
  function SplitAll(fs: seq<string>): (r: seq<Result<(string, string)>>)
    ensures |r| == |fs|
    ensures forall k :: 0 <= k < |fs| ==> r[k] == SplitPair(fs[k])
  {
    seq(|fs|, k requires 0 <= k < |fs| => SplitPair(fs[k]))
  }

  /** Every split succeeded. */
  ghost predicate AllSplit(ps: seq<Result<(string, string)>>) {
    forall k :: 0 <= k < |ps| ==> ps[k].Ok?
  }

  /** No pair after the `k`th has the same key. */
  ghost predicate LastOfKey(ps: seq<Result<(string, string)>>, k: nat)
    requires AllSplit(ps) && k < |ps|
  {
    forall j :: k < j < |ps| ==> ps[j].value.0 != ps[k].value.0
  }

  /** The keys of the split fragments. */
  ghost function KeysOf(ps: seq<Result<(string, string)>>): set<string>
    requires AllSplit(ps)
  {
    set k | 0 <= k < |ps| :: ps[k].value.0
  }

  /** The dictionary built with `d[key] = value` over the split fragments,
      in order; the first fragment that did not split raises. A key takes
      the value of its last fragment. */
  function BuildPairs(ps: seq<Result<(string, string)>>): (r: Result<map<string, string>>)
    ensures r.Ok? <==> AllSplit(ps)
    ensures r.Err? ==> exists k :: 0 <= k < |ps| && ps[k] == Err(r.error)
    ensures r.Ok? ==> r.value.Keys == KeysOf(ps)
    ensures r.Ok? ==> forall k :: 0 <= k < |ps| && LastOfKey(ps, k) ==> r.value[ps[k].value.0] == ps[k].value.1
    decreases |ps|
  {
    if |ps| == 0 then Ok(map[])
    else
      var init := ps[..|ps| - 1];
      var m :- BuildPairs(init);
      var kv :- ps[|ps| - 1];
      assert ps == init + [Ok(kv)];
      BuildPairsStep(init, ps, m, kv);
      Ok(m[kv.0 := kv.1])
  }

  /** One step of `BuildPairs`: the last pair is put over the dictionary
      of the earlier ones. */
  lemma BuildPairsStep(init: seq<Result<(string, string)>>, ps: seq<Result<(string, string)>>,
                       m: map<string, string>, kv: (string, string))
    requires ps == init + [Ok(kv)] && AllSplit(init)
    requires m.Keys == KeysOf(init)
    requires forall k :: 0 <= k < |init| && LastOfKey(init, k) ==> m[init[k].value.0] == init[k].value.1
    ensures AllSplit(ps)
    ensures m[kv.0 := kv.1].Keys == KeysOf(ps)
    ensures forall k :: 0 <= k < |ps| && LastOfKey(ps, k) ==> m[kv.0 := kv.1][ps[k].value.0] == ps[k].value.1
  {
    assert forall k :: 0 <= k < |init| ==> init[k] == ps[k];
    assert ps[|init|] == Ok(kv);
    forall key
      ensures key in KeysOf(ps) <==> key in KeysOf(init) || key == kv.0
    {
      if key in KeysOf(init) {
        var k :| 0 <= k < |init| && init[k].value.0 == key;
        assert ps[k].value.0 == key;
      }
      if key in KeysOf(ps) {
        var k :| 0 <= k < |ps| && ps[k].value.0 == key;
        if k < |init| {
          assert init[k].value.0 == key;
        }
      }
    }
    var m' := m[kv.0 := kv.1];
    forall k | 0 <= k < |ps| && LastOfKey(ps, k)
      ensures m'[ps[k].value.0] == ps[k].value.1
    {
      if k < |init| {
        assert ps[|init|].value.0 != ps[k].value.0;
        assert LastOfKey(init, k) by {
          forall j | k < j < |init| ensures init[j].value.0 != init[k].value.0 {
            assert ps[j].value.0 != ps[k].value.0;
          }
        }
      }
    }
  }

  /** The `left → right` dictionary a statement describes; a fragment
      without exactly one arrow raises `ValueError`. */
  function StatementPairs(ra: RightAnswer): (r: Result<map<string, string>>)
    requires !ra.Absent?
    ensures r.Err? ==> r.error == ValueError
    ensures ra.Many? ==> r == BuildPairs(SplitAll(ra.answers))
    ensures ra.One? ==> r == BuildPairs(SplitAll([ra.answer]))
  {
    match ra
    case Many(xs) => BuildPairs(SplitAll(xs))
    case One(s) => BuildPairs(SplitAll([s]))
  }

  /** The text of the first selected option. */
  function FirstSelected(options: seq<SelectOption>): (r: Option<string>)
    ensures r.Some? <==> exists k :: 0 <= k < |options| && options[k].selected
    ensures r.Some? ==> exists k :: 0 <= k < |options| && options[k].selected && options[k].text == r.value
                                    && forall j :: 0 <= j < k ==> !options[j].selected
    decreases |options|
  {
    if |options| == 0 then None
    else if options[0].selected then Some(options[0].text)
    else
      var r := FirstSelected(options[1..]);
      assert forall k :: 0 <= k < |options| - 1 ==> options[1..][k] == options[k + 1];
      r
  }

  /** The value a row reports when the statement is absent: its own
      selection, else that of the nearest earlier row having one, else
      `before`, what the variable held when the table started. */
  ghost function LastSelection(rows: seq<MatchRow>, i: nat, before: Option<string>): Option<string>
    requires i < |rows|
    decreases i
  {
    match FirstSelected(rows[i].options)
    case Some(v) => Some(v)
    case None => if i == 0 then before else LastSelection(rows, i - 1, before)
  }

  /** Starting one row later, carrying the first row's value, reports the
      same values. */
  lemma {:induction false} LastSelectionShift(rows: seq<MatchRow>, i: nat, before: Option<string>)
    requires 0 < i < |rows|
    ensures LastSelection(rows[1..], i - 1, LastSelection(rows, 0, before)) == LastSelection(rows, i, before)
    decreases i
  {
    assert rows[1..][i - 1] == rows[i];
    if i > 1 && FirstSelected(rows[i].options).None? {
      LastSelectionShift(rows, i - 1, before);
    }
  }

  lemma LastSelectionShifts(rows: seq<MatchRow>, before: Option<string>)
    requires 0 < |rows|
    ensures forall i :: 0 < i < |rows| ==>
              LastSelection(rows[1..], i - 1, LastSelection(rows, 0, before)) == LastSelection(rows, i, before)
  {
    forall i | 0 < i < |rows|
      ensures LastSelection(rows[1..], i - 1, LastSelection(rows, 0, before)) == LastSelection(rows, i, before)
    {
      LastSelectionShift(rows, i, before);
    }
  }

  /** Whether the class attribute of a row's `control` cell names
      `correct`. */
  function ControlCorrect(controlClass: string): bool {
    "correct" in Split(controlClass, " ")
  }

  /** The loop of `__get_matching_answer` without a statement, from some
      row on, where `carried` is what the variable `value` holds when that
      row starts: each row reports its selected option, or else the one
      last seen, and its cell's cue. Before any selection is seen, reading
      `value` raises `UnboundLocalError`. */
  function InferRows(rows: seq<MatchRow>, carried: Option<string>): (r: Result<seq<Pairing>>)
    ensures r.Ok? <==> |rows| == 0 || LastSelection(rows, 0, carried).Some?
    ensures r.Err? ==> r.error == UnboundLocalError
    ensures r.Ok? ==> |r.value| == |rows|
    ensures r.Ok? ==> forall i :: 0 <= i < |rows| ==>
              && r.value[i].left == rows[i].left
              && Some(r.value[i].right) == LastSelection(rows, i, carried)
              && r.value[i].correct == ControlCorrect(rows[i].controlClass)
    decreases |rows|
  {
    if |rows| == 0 then Ok([])
    else
      var row := rows[0];
      var value := match FirstSelected(row.options) case Some(v) => Some(v) case None => carried;
      if value.None? then Err(UnboundLocalError)
      else
        var rest := InferRows(rows[1..], value);
        if rest.Err? then Err(rest.error)
        else
          InferRowsCons(rows, carried, value.value, rest.value);
          Ok([Pairing(row.left, value.value, ControlCorrect(row.controlClass))] + rest.value)
  }

  /** One step of `InferRows`: the first row's pairing in front of the
      pairings of the other rows, read carrying the first row's value. */
  lemma InferRowsCons(rows: seq<MatchRow>, carried: Option<string>, value: string, rest: seq<Pairing>)
    requires |rows| > 0 && Some(value) == LastSelection(rows, 0, carried)
    requires |rest| == |rows| - 1
    requires forall i :: 0 <= i < |rest| ==>
               && rest[i].left == rows[1..][i].left
               && Some(rest[i].right) == LastSelection(rows[1..], i, Some(value))
               && rest[i].correct == ControlCorrect(rows[1..][i].controlClass)
    ensures var r := [Pairing(rows[0].left, value, ControlCorrect(rows[0].controlClass))] + rest;
            forall i :: 0 <= i < |rows| ==>
              && r[i].left == rows[i].left
              && Some(r[i].right) == LastSelection(rows, i, carried)
              && r[i].correct == ControlCorrect(rows[i].controlClass)
  {
    var r := [Pairing(rows[0].left, value, ControlCorrect(rows[0].controlClass))] + rest;
    LastSelectionShifts(rows, carried);
    forall i | 0 < i < |rows|
      ensures && r[i].left == rows[i].left
              && Some(r[i].right) == LastSelection(rows, i, carried)
              && r[i].correct == ControlCorrect(rows[i].controlClass)
    {
      assert r[i] == rest[i - 1] && rows[1..][i - 1] == rows[i];
    }
  }

  /** The loop of `__get_matching_answer` with the statement's dictionary
      `d`: each row reports the statement's pairing for its text; the
      first text missing from `d` raises `KeyError`. */
  function StatedRows(rows: seq<MatchRow>, d: map<string, string>): (r: Result<seq<Pairing>>)
    ensures r.Ok? <==> forall i :: 0 <= i < |rows| ==> rows[i].left in d
    ensures r.Err? ==> exists i :: 0 <= i < |rows| && r.error == KeyError(rows[i].left) && rows[i].left !in d
                                   && forall j :: 0 <= j < i ==> rows[j].left in d
    ensures r.Ok? ==> |r.value| == |rows|
    ensures r.Ok? ==> forall i :: 0 <= i < |rows| ==> r.value[i] == Pairing(rows[i].left, d[rows[i].left], true)
    decreases |rows|
  {
    if |rows| == 0 then Ok([])
    else if rows[0].left !in d then Err(KeyError(rows[0].left))
    else
      var rest := StatedRows(rows[1..], d);
      assert forall i :: 0 < i < |rows| ==> rows[1..][i - 1] == rows[i];
      if rest.Err? then Err(rest.error)
      else Ok([Pairing(rows[0].left, d[rows[0].left], true)] + rest.value)
  }

  /** `__get_matching_answer`: one pairing per table row, in row order.
      The code rebuilds the statement's dictionary for every row; it is
      the same each time, so it is built once here, and only when there
      is a row to build it for. */
  function MatchingAnswer(table: seq<MatchRow>, ra: RightAnswer): (r: Result<seq<Pairing>>)
    ensures |table| == 0 ==> r == Ok([])
    ensures r.Ok? ==> |r.value| == |table|
    ensures r.Ok? ==> forall i :: 0 <= i < |table| ==> r.value[i].left == table[i].left
    ensures ra.Absent? ==> (r.Ok? <==> |table| == 0 || FirstSelected(table[0].options).Some?)
    ensures ra.Absent? && r.Ok? ==> forall i :: 0 <= i < |table| ==>
              && Some(r.value[i].right) == LastSelection(table, i, None)
              && r.value[i].correct == ControlCorrect(table[i].controlClass)
    ensures !ra.Absent? && |table| > 0 ==>
              (r.Ok? <==> StatementPairs(ra).Ok? && forall i :: 0 <= i < |table| ==> table[i].left in StatementPairs(ra).value)
    ensures !ra.Absent? && r.Ok? ==> forall i :: 0 <= i < |table| ==>
              && StatementPairs(ra).Ok?
              && table[i].left in StatementPairs(ra).value
              && r.value[i].right == StatementPairs(ra).value[table[i].left]
              && r.value[i].correct
    ensures !ra.Absent? && r.Err? ==> r.error == ValueError || exists i :: 0 <= i < |table| && r.error == KeyError(table[i].left)
    ensures ra.Absent? && r.Err? ==> r.error == UnboundLocalError
    ensures !ra.Absent? && |table| > 0 && StatementPairs(ra).Ok? ==> r == StatedRows(table, StatementPairs(ra).value)
    ensures !ra.Absent? && |table| > 0 && StatementPairs(ra).Err? ==> r == Err(ValueError)
  {
    if ra.Absent? then InferRows(table, None)
    else if |table| == 0 then Ok([])
    else
      var d :- StatementPairs(ra);
      StatedRows(table, d)
  }

  // ------------------------------------------------------------- dispatch

  /** The `match` of `get_answer` on the answer node's tag. */
  function ClassifyAnswer(node: AnswerNode, ra: RightAnswer, fold: string -> string): (r: Result<Answer>)
    ensures node.tag !in {"span", "div", "table"} ==> r == Ok(Unsupported)
    ensures r.Ok? ==> (r.value.Typed? <==> node.tag == "span")
    ensures r.Ok? ==> (r.value.Choices? <==> node.tag == "div")
    ensures r.Ok? ==> (r.value.Pairings? <==> node.tag == "table")
    ensures node.tag == "span" ==> (r.Ok? <==> TextAnswer(node.field, ra, fold).Ok?)
    ensures node.tag == "div" ==> (r.Ok? <==> ChoiceAnswer(node.choices, ra).Ok?)
    ensures node.tag == "table" ==> (r.Ok? <==> MatchingAnswer(node.table, ra).Ok?)
    ensures node.tag == "span" ==>
              var t := TextAnswer(node.field, ra, fold);
              r == if t.Ok? then Ok(Typed(t.value)) else Err(t.error)
    ensures node.tag == "div" ==>
              var c := ChoiceAnswer(node.choices, ra);
              r == if c.Ok? then Ok(Choices(c.value)) else Err(c.error)
    ensures node.tag == "table" ==>
              var m := MatchingAnswer(node.table, ra);
              r == if m.Ok? then Ok(Pairings(m.value)) else Err(m.error)
  {
    if node.tag == "span" then
      var v :- TextAnswer(node.field, ra, fold);
      Ok(Typed(v))
    else if node.tag == "div" then
      var cs :- ChoiceAnswer(node.choices, ra);
      Ok(Choices(cs))
    else if node.tag == "table" then
      var ps :- MatchingAnswer(node.table, ra);
      Ok(Pairings(ps))
    else Ok(Unsupported)
  }
}
