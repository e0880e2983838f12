/** A quiz review page and what `main` collects from a run of them: for
    every test name, the list of (question text, answer) pairs of every
    attempt of that test, in the order the attempts were visited. */
module Scraper {
  import opened Base
  import opened Text
  import opened Dicts
  import opened Statement
  import opened Answers

  /** One question container (class `content`): the text of its `qtext`
      node, the text of its `rightanswer` node and its `answer` node, each
      absent when the question has no such node. */
  datatype QuestionNode = QuestionNode(qtext: Option<string>, feedback: Option<string>, answer: Option<AnswerNode>)

  /** A review page. `crumbs` are the page's `breadcrumb-item` nodes, each
      with the text of its `a` link if it has one; `crumbSpans` are the
      texts the second breadcrumb path finds. The XPath fallbacks of the
      code search the whole document, so what they find is a property of
      the page: `firstQtext` is the first `p` under a node whose class is
      exactly `qtext`, and `firstAnswer` the first node whose class is
      exactly `answer`. */
  datatype TestPage = TestPage(
    crumbs: seq<Option<string>>,
    crumbSpans: seq<string>,
    questions: seq<QuestionNode>,
    firstQtext: Option<string>,
    firstAnswer: Option<AnswerNode>)

  /** One collected question: its text and its answer. */
  type Entry = (string, Answer)

  /** The tests collected so far, by name. */
  type Tests = Dict<string, seq<Entry>>

  const Colon: set<char> := {':'}

  /** The raw question text the code reads: the question's own `qtext`,
      else the page's first `qtext` paragraph. */
  function QuestionSource(q: QuestionNode, page: TestPage): (r: Option<string>)
    ensures r.None? <==> q.qtext.None? && page.firstQtext.None?
    ensures q.qtext.Some? ==> r == q.qtext
    ensures q.qtext.None? ==> r == page.firstQtext
  {
    if q.qtext.Some? then q.qtext else page.firstQtext
  }

  /** `Question.get_text`: the question text without its trailing colons. */
  function QuestionText(q: QuestionNode, page: TestPage): (r: Result<string>)
    ensures r.Err? <==> QuestionSource(q, page).None?
    ensures r.Err? ==> r.error == NoSuchElement
    ensures r.Ok? ==> var src := QuestionSource(q, page).value;
              && r.value <= src
              && (forall k :: |r.value| <= k < |src| ==> src[k] == ':')
              && (r.value == [] || r.value[|r.value| - 1] != ':')
  {
    match QuestionSource(q, page)
    case None => Err(NoSuchElement)
    case Some(t) => Ok(RStrip(t, Colon))
  }

  /** `Question.get_answer`: the statement is parsed first, then the
      `answer` node is found (the question's own, else the page's first)
      and read according to its tag. */
  function QuestionAnswer(q: QuestionNode, page: TestPage, fold: string -> string): (r: Result<Answer>)
    ensures q.answer.None? && page.firstAnswer.None? ==> r == Err(NoSuchElement)
    ensures q.answer.Some? ==> r == ClassifyAnswer(q.answer.value, ParseStatement(q.feedback), fold)
    ensures q.answer.None? && page.firstAnswer.Some? ==>
              r == ClassifyAnswer(page.firstAnswer.value, ParseStatement(q.feedback), fold)
  {
    var ra := ParseStatement(q.feedback);
    var node := if q.answer.Some? then q.answer else page.firstAnswer;
    match node
    case None => Err(NoSuchElement)
    case Some(n) => ClassifyAnswer(n, ra, fold)
  }

  /** The entry of one question: its text is read before its answer. */
  function ReadQuestion(q: QuestionNode, page: TestPage, fold: string -> string): (r: Result<Entry>)
    ensures r.Ok? <==> QuestionText(q, page).Ok? && QuestionAnswer(q, page, fold).Ok?
    ensures r.Ok? ==> r.value == (QuestionText(q, page).value, QuestionAnswer(q, page, fold).value)
    ensures QuestionText(q, page).Err? ==> r == Err(QuestionText(q, page).error)
  {
    var text :- QuestionText(q, page);
    var answer :- QuestionAnswer(q, page, fold);
    Ok((text, answer))
  }

  /** The inner loop of `main`: every question of the page in page order;
      the first question that raises stops the run. */
  function ReadQuestions(qs: seq<QuestionNode>, page: TestPage, fold: string -> string): (r: Result<seq<Entry>>)
    ensures r.Ok? <==> forall i :: 0 <= i < |qs| ==> ReadQuestion(qs[i], page, fold).Ok?
    ensures r.Ok? ==> |r.value| == |qs|
    ensures r.Ok? ==> forall i :: 0 <= i < |qs| ==> r.value[i] == ReadQuestion(qs[i], page, fold).value
    ensures r.Err? ==> exists i :: 0 <= i < |qs| && ReadQuestion(qs[i], page, fold) == Err(r.error)
                                   && forall j :: 0 <= j < i ==> ReadQuestion(qs[j], page, fold).Ok?
  {
    Sequence(ReadEach(qs, page, fold))
  }

  /** Every question read on its own, in page order. */
  function ReadEach(qs: seq<QuestionNode>, page: TestPage, fold: string -> string): (r: seq<Result<Entry>>)
    ensures |r| == |qs|
    ensures forall i :: 0 <= i < |qs| ==> r[i] == ReadQuestion(qs[i], page, fold)
  {
    seq(|qs|, i requires 0 <= i < |qs| => ReadQuestion(qs[i], page, fold))
  }

  /** `Test.get_name`: the text of the link of the last breadcrumb item,
      without trailing periods. With no breadcrumb item, the last text of
      the second breadcrumb path; with neither, `IndexError`. A last item
      without a link raises. */
  function TestName(page: TestPage): (r: Result<string>)
    ensures |page.crumbs| > 0 ==> (r.Ok? <==> page.crumbs[|page.crumbs| - 1].Some?)
    ensures |page.crumbs| > 0 && page.crumbs[|page.crumbs| - 1].None? ==> r == Err(NoSuchElement)
    ensures |page.crumbs| == 0 ==> (r.Ok? <==> |page.crumbSpans| > 0)
    ensures |page.crumbs| == 0 && |page.crumbSpans| == 0 ==> r == Err(IndexError)
    ensures r.Ok? ==>
              var src := if |page.crumbs| > 0 then page.crumbs[|page.crumbs| - 1].value
                         else page.crumbSpans[|page.crumbSpans| - 1];
              && r.value <= src
              && (forall k :: |r.value| <= k < |src| ==> src[k] == '.')
              && (r.value == [] || r.value[|r.value| - 1] != '.')
  {
    if |page.crumbs| > 0 then
      match page.crumbs[|page.crumbs| - 1]
      case None => Err(NoSuchElement)
      case Some(t) => Ok(RStrip(t, Period))
    else if |page.crumbSpans| > 0 then Ok(RStrip(page.crumbSpans[|page.crumbSpans| - 1], Period))
    else Err(IndexError)
  }

  /** One iteration of `main`'s outer loop up to the dict update: all the
      page's questions, then its name. */
  function ScrapeTest(page: TestPage, fold: string -> string): (r: Result<(string, seq<Entry>)>)
    ensures r.Ok? <==> ReadQuestions(page.questions, page, fold).Ok? && TestName(page).Ok?
    ensures r.Ok? ==> r.value == (TestName(page).value, ReadQuestions(page.questions, page, fold).value)
    ensures ReadQuestions(page.questions, page, fold).Err? ==> r == Err(ReadQuestions(page.questions, page, fold).error)
    ensures ReadQuestions(page.questions, page, fold).Ok? && TestName(page).Err? ==> r == Err(TestName(page).error)
  {
    var entries :- ReadQuestions(page.questions, page, fold);
    var name :- TestName(page);
    Ok((name, entries))
  }

  /** `tests[name] += entries`, or `tests[name] = entries` when the name
      is new: the entries are appended to the ones already under that
      name, a new name goes last, and nothing else changes. */
  function Collect<T>(tests: Dict<string, seq<T>>, name: string, entries: seq<T>): (r: Dict<string, seq<T>>)
    requires tests.Valid()
    ensures r.Valid()
    ensures r.entries.Keys == tests.entries.Keys + {name}
    ensures r.entries[name] == (if name in tests.entries then tests.entries[name] else []) + entries
    ensures forall n :: n in tests.entries && n != name ==> r.entries[n] == tests.entries[n]
    ensures r.order == if name in tests.entries then tests.order else tests.order + [name]
  {
    if name in tests.entries then tests.Put(name, tests.entries[name] + entries)
    else tests.Put(name, entries)
  }

  /** Collecting two lists under one name, one after the other, is
      collecting their concatenation: nothing is deduplicated or replaced. */
  lemma CollectTwice<T>(tests: Dict<string, seq<T>>, name: string, a: seq<T>, b: seq<T>)
    requires tests.Valid()
    ensures Collect(tests, name, a).Valid()
    ensures Collect(Collect(tests, name, a), name, b) == Collect(tests, name, a + b)
  {
    var before := if name in tests.entries then tests.entries[name] else [];
    assert before + a + b == before + (a + b);
    var once := Collect(tests, name, a);
    assert once.entries[name := before + a + b] == tests.entries[name := before + (a + b)];
  }

  /** Every scraped page succeeded. */
  ghost predicate AllScraped<T>(results: seq<Result<(string, seq<T>)>>) {
    forall i :: 0 <= i < |results| ==> results[i].Ok?
  }

  /** The test names of the pages, in visiting order. */
  ghost function NamesOf<T>(results: seq<Result<(string, seq<T>)>>): (r: seq<string>)
    requires AllScraped(results)
    ensures |r| == |results|
    ensures forall i :: 0 <= i < |results| ==> r[i] == results[i].value.0
    decreases |results|
  {
    if |results| == 0 then []
    else NamesOf(results[..|results| - 1]) + [results[|results| - 1].value.0]
  }

  /** The entries of every page named `name`, concatenated in visiting
      order: the reference meaning of the collected dict. */
  ghost function Gathered<T>(results: seq<Result<(string, seq<T>)>>, name: string): seq<T>
    requires AllScraped(results)
    decreases |results|
  {
    if |results| == 0 then []
    else
      var last := results[|results| - 1].value;
      Gathered(results[..|results| - 1], name) + (if last.0 == name then last.1 else [])
  }

  /** `main`'s outer loop over the pages already scraped: each page's
      entries are collected under its name in order; the first page that
      raised stops the run. */
  function Aggregate<T>(results: seq<Result<(string, seq<T>)>>): (r: Result<Dict<string, seq<T>>>)
    ensures r.Ok? <==> AllScraped(results)
    ensures r.Err? ==> exists i :: 0 <= i < |results| && results[i] == Err(r.error)
                                   && forall j :: 0 <= j < i ==> results[j].Ok?
    ensures r.Ok? ==> r.value.Valid()
    ensures r.Ok? ==> r.value.entries.Keys == NameSet(results)
    ensures r.Ok? ==> forall n :: n in r.value.entries ==> r.value.entries[n] == Gathered(results, n)
    ensures r.Ok? ==> r.value.order == Fresh(NamesOf(results), {})
    decreases |results|
  {
    if |results| == 0 then Ok(Empty())
    else
      var init := results[..|results| - 1];
      var acc := Aggregate(init);
      PrefixOfRun(init, results);
      if acc.Err? then
        Err(acc.error)
      else
        match results[|results| - 1]
        case Err(e) => Err(e)
        case Ok(page) =>
          assert results == init + [Ok(page)];
          AggregateStep(init, results, acc.value, page);
          Ok(Collect(acc.value, page.0, page.1))
  }

  /** A run is its earlier pages followed by its last page. */
  lemma PrefixOfRun<T>(init: seq<Result<(string, seq<T>)>>, results: seq<Result<(string, seq<T>)>>)
    requires |results| > 0 && init == results[..|results| - 1]
    ensures forall i :: 0 <= i < |init| ==> results[i] == init[i]
    ensures AllScraped(results) <==> AllScraped(init) && results[|results| - 1].Ok?
    ensures results[|results| - 1].Ok? ==> results == init + [results[|results| - 1]]
  {
    assert results == init + [results[|results| - 1]];
  }

  /** The names of a run of pages. */
  ghost function NameSet<T>(results: seq<Result<(string, seq<T>)>>): set<string>
    requires AllScraped(results)
  {
    set i | 0 <= i < |results| :: results[i].value.0
  }

  /** One step of `Aggregate`: collecting the last page extends the keys,
      the gathered entries and the name order of the earlier pages. */
  lemma AggregateStep<T>(init: seq<Result<(string, seq<T>)>>, results: seq<Result<(string, seq<T>)>>,
                         acc: Dict<string, seq<T>>, page: (string, seq<T>))
    requires results == init + [Ok(page)] && AllScraped(init) && acc.Valid()
    requires acc.entries.Keys == NameSet(init)
    requires forall n :: n in acc.entries ==> acc.entries[n] == Gathered(init, n)
    requires acc.order == Fresh(NamesOf(init), {})
    ensures AllScraped(results)
    ensures Collect(acc, page.0, page.1).entries.Keys == NameSet(results)
    ensures forall n :: n in Collect(acc, page.0, page.1).entries ==>
              Collect(acc, page.0, page.1).entries[n] == Gathered(results, n)
    ensures Collect(acc, page.0, page.1).order == Fresh(NamesOf(results), {})
  {
    assert results[..|results| - 1] == init;
    NameSetStep(init, results, page);
    var c := Collect(acc, page.0, page.1);
    forall n | n in c.entries
      ensures c.entries[n] == Gathered(results, n)
    {
      GatheredStep(init, results, page, n);
      if n == page.0 && n !in acc.entries {
        GatheredAbsent(init, n);
      }
    }
    OrderStep(init, results, page);
  }

  lemma NameSetStep<T>(init: seq<Result<(string, seq<T>)>>, results: seq<Result<(string, seq<T>)>>,
                       page: (string, seq<T>))
    requires results == init + [Ok(page)] && AllScraped(init)
    ensures AllScraped(results)
    ensures NameSet(results) == NameSet(init) + {page.0}
  {
    assert forall i :: 0 <= i < |init| ==> results[i] == init[i];
    assert results[|init|] == Ok(page);
    forall n
      ensures n in NameSet(results) <==> n in NameSet(init) || n == page.0
    {
      if n in NameSet(init) {
        var i :| 0 <= i < |init| && init[i].value.0 == n;
        assert results[i].value.0 == n;
      }
    }
  }

  lemma GatheredStep<T>(init: seq<Result<(string, seq<T>)>>, results: seq<Result<(string, seq<T>)>>,
                        page: (string, seq<T>), n: string)
    requires results == init + [Ok(page)] && AllScraped(init) && AllScraped(results)
    ensures Gathered(results, n) == Gathered(init, n) + (if page.0 == n then page.1 else [])
  {
    assert results[..|results| - 1] == init;
  }

  lemma OrderStep<T>(init: seq<Result<(string, seq<T>)>>, results: seq<Result<(string, seq<T>)>>,
                     page: (string, seq<T>))
    requires results == init + [Ok(page)] && AllScraped(init) && AllScraped(results)
    ensures NamesOf(results) == NamesOf(init) + [page.0]
    ensures page.0 in NamesOf(init) <==> page.0 in NameSet(init)
    ensures Fresh(NamesOf(results), {}) == Fresh(NamesOf(init), {}) + (if page.0 in NameSet(init) then [] else [page.0])
  {
    assert results[..|results| - 1] == init;
    var names := NamesOf(init);
    if page.0 in names {
      var i :| 0 <= i < |names| && names[i] == page.0;
      assert init[i].value.0 == page.0;
    }
    if page.0 in NameSet(init) {
      var i :| 0 <= i < |init| && init[i].value.0 == page.0;
      assert names[i] == page.0;
    }
    FreshAppend(names, page.0);
  }

  /** A name no page carries gathers nothing. */
  lemma {:induction false} GatheredAbsent<T>(results: seq<Result<(string, seq<T>)>>, name: string)
    requires AllScraped(results)
    requires name !in NameSet(results)
    ensures Gathered(results, name) == []
    decreases |results|
  {
    if |results| > 0 {
      var init := results[..|results| - 1];
      assert forall i :: 0 <= i < |init| ==> init[i] == results[i];
      assert results[|init|].value.0 in NameSet(results);
      assert NameSet(init) <= NameSet(results) by {
        forall m | m in NameSet(init) ensures m in NameSet(results) {
          var i :| 0 <= i < |init| && init[i].value.0 == m;
          assert results[i].value.0 == m;
        }
      }
      GatheredAbsent(init, name);
    }
  }

  /** Appending a name to a list extends its first-appearance order by
      that name exactly when the name is new. */
  lemma {:induction false} FreshAppend(names: seq<string>, name: string)
    ensures Fresh(names + [name], {}) == Fresh(names, {}) + (if name in names then [] else [name])
  {
    FreshAppendFrom(names, {}, name);
  }

  lemma {:induction false} FreshAppendFrom(names: seq<string>, known: set<string>, name: string)
    ensures Fresh(names + [name], known) ==
            Fresh(names, known) + (if name in names || name in known then [] else [name])
    decreases |names|
  {
    if |names| == 0 {
      assert names + [name] == [name];
      assert [name][1..] == [];
    } else {
      assert (names + [name])[0] == names[0];
      assert (names + [name])[1..] == names[1..] + [name];
      if names[0] in known {
        FreshAppendFrom(names[1..], known, name);
        assert name in names <==> name == names[0] || name in names[1..];
      } else {
        FreshAppendFrom(names[1..], known + {names[0]}, name);
        assert name in names <==> name == names[0] || name in names[1..];
      }
    }
  }

  /** Every page scraped on its own, in visiting order. */
  function ScrapeAll(pages: seq<TestPage>, fold: string -> string): (r: seq<Result<(string, seq<Entry>)>>)
    ensures |r| == |pages|
    ensures forall i :: 0 <= i < |pages| ==> r[i] == ScrapeTest(pages[i], fold)
  {
    seq(|pages|, i requires 0 <= i < |pages| => ScrapeTest(pages[i], fold))
  }

  /** `main`, up to writing the file: every page scraped and collected
      in visiting order. Under each name are the entries of all the pages
      of that name, in visiting order; names appear in the order they were
      first seen; the first page that raises stops the run. */
  function Scrape(pages: seq<TestPage>, fold: string -> string): (r: Result<Tests>)
    ensures r.Ok? <==> AllScraped(ScrapeAll(pages, fold))
    ensures r.Err? ==> exists i :: 0 <= i < |pages| && ScrapeAll(pages, fold)[i] == Err(r.error)
                                   && forall j :: 0 <= j < i ==> ScrapeAll(pages, fold)[j].Ok?
    ensures r.Ok? ==> r.value.Valid()
    ensures r.Ok? ==> r.value.entries.Keys == NameSet(ScrapeAll(pages, fold))
    ensures r.Ok? ==> forall n :: n in r.value.entries ==> r.value.entries[n] == Gathered(ScrapeAll(pages, fold), n)
    ensures r.Ok? ==> r.value.order == Fresh(NamesOf(ScrapeAll(pages, fold)), {})
  {
    Aggregate(ScrapeAll(pages, fold))
  }
}
