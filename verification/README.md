# A Dafny model of the quiz review scraper

This project models the logic of a small scraper that reads the review pages of an online quiz platform. For every test it collects what was answered to each question and whether that answer was right. It also models two companion scripts:
- the offline extractor, which cuts the text of a quiz printed to PDF into questions and answers;
- the joiner, which merges several result files into one.

The browser, the PDF reader and the files are not modelled. A page is a value of the datatype `Scraper.TestPage`, holding the texts, classes and tags the code looks up. A lookup whose failure the code handles or lets escape is an `Option` field; the few lookups the model takes as always present are listed under "Left out". Every exception the code raises is an error value `Base.Result.Err` carrying a `Base.PyError`.

Modules:
- `Base`: `Option`, `Result`, and the Python exceptions that can escape: `AttributeError`, `ValueError`, `KeyError`, `UnboundLocalError`, `NoSuchElementException` (as `NoSuchElement`) and `IndexError`.
- `Text`: the `str` operations the code relies on. These are `find`, `in`, `split`/`join` on a literal separator, `replace`, `strip` and `rstrip` on a set of characters, and `endswith`. Whitespace is the set for which `str.isspace()` holds.
- `Dicts`: Python's insertion-ordered `dict`, with `d[k] = v` (`Dict.Put`) and `d.update(e)` (`Update`).
- `Statement`: the correct-answer statement printed under a question ("La respuesta correcta es: …" / "Las respuestas correctas son: …"). It covers how `PATTERN_MATCH_RIGHT_ANSWER` matches that statement, and how the answers are cut out of it and cleaned.
- `Answers`: reading the given answer of one question, which can be:
  - a typed text (`span`);
  - a list of choices (`div`, checkboxes or radio buttons);
  - a matching table (`table`).

  Each kind is judged against the statement when there is one. Without a statement, the page's correct/incorrect cues decide.
- `Scraper`: the question text, the test name, and `main`'s collection of every visited test into a dict from test name to the list of (question, answer) pairs.
- `Extractor`: `PATTERN_ANSWER_SPLIT`, `PATTERN_ANSWER_CLEAN` and the cleanup of the question line.
- `Joiner`: merging the objects of every `.json` file of a directory, in listing order.

The central properties proved:
- A printed statement reads back as exactly the answers that were printed (`Statement.StatementRoundTrip`).
- The single-select correction leaves exactly one correct choice and no unknown one (`Answers.ClosedWorldResolves`).
- The per-row results of the matching reader are stated in terms of an independent reference: the last selection seen, or the statement's dictionary.
- `main`'s dict holds, under each name, the concatenation of the entries of every page of that name, in visiting order. Names appear in the order they were first seen (`Scraper.Scrape`).
- The joiner's result takes every key's value from the last `.json` file holding it. Its keys are ordered by first appearance (`Joiner.JoinFiles`).

## Model

| member | source | states |
|---|---|---|
| Statement.MatchRightAnswer | scraper.py:16-18 | A successful match captures one non-empty line. The text is an opening ("La respuesta correcta es", with an optional colon, or "Las respuestas correctas son:") plus one whitespace character, followed by that line and at most one final line break. |
| Statement.RecogniseTemplate | scraper.py:16-18 | Every text of that shape is recognised, and the capture is exactly the line after the opening. |
| Statement.CleanFragment | scraper.py:40 | Quotes are stripped from both ends, then all trailing periods. The result neither starts with a quote nor ends with a period, and it gains no line break. |
| Statement.CleanFragmentStrips | scraper.py:40 | What cleaning keeps is what `strip("'")` keeps, minus a run of periods at its end: only quotes go from around the text, and only periods from after it. |
| Statement.QuotedAnswer | scraper.py:40 | A quoted answer with its final period inside the quotes, `'x.'`, reads as `x`. |
| Statement.Fragments | scraper.py:42-53 | There is at least one fragment; each has no leading quote and no trailing period, and is one line when the captured part is. Their contents are stated by `FragmentsPieces`. |
| Statement.FragmentsPieces | scraper.py:42-53 | The fragments are the pieces of the cleaned captured part, cut at the leftmost "., " each time and rejoining to it, with each piece cleaned again. |
| Statement.FragmentsCleaningTo | scraper.py:42-53 | A captured part that cleans to one printable answer gives exactly that one fragment. |
| Statement.QuotedPlain | scraper.py:40-48 | Quotes around a printable answer are dropped and nothing else is. |
| Statement.ParseStatement | scraper.py:36-65 | `None` exactly when there is no feedback node or the pattern does not match. When the pattern matches, a single fragment of the captured part collapses to that bare string; otherwise the result is the list of fragments, at least two. Every fragment is one line with no leading quote and no trailing period. |
| Statement.SingularForms | scraper.py:17-65 | The singular statement with its answer in quotes, as true/false questions print it, or with a final period reads as that one answer, after any of the openings. |
| Statement.SingularQuoted | scraper.py:17-65 | The quoted singular form `'x'` reads as `x`. |
| Statement.SingularEnded | scraper.py:17-65 | The singular form ending in a period reads as the answer without it. |
| Statement.StatementRoundTrip | scraper.py:36-57 | Reading the statement printed for the answers `xs` gives back `xs[0]` when there is one answer and `xs` itself when there are several. The answers are one line each, unquoted, with no final period and no "., ". |
| Answers.InferText | scraper.py:81-87 | The typed value is kept exactly when the icon's class contains "fa-check". |
| Answers.TextAnswer | scraper.py:68-87 | A truthy single statement keeps the value exactly when it is equal under case folding. With a truthy list, a member equal under case folding keeps the value, and no such member raises AttributeError. A falsy statement (`None`, `""` or `[]`) leaves the icon to decide. A kept value is always the typed one. |
| Answers.MatchOption | scraper.py:12 | A match `v` is one non-empty line, and the text is `v`, possibly after an enumerator (a letter, a period and one whitespace character), with at most one final line break. No match exactly when the text has no such reading. |
| Answers.EnumeratedOption | scraper.py:12 | "x." plus one whitespace character, followed by a line, reads as that line. |
| Answers.PlainOption | scraper.py:12 | A line that does not start with an enumerator followed by more text reads whole. |
| Answers.RowText | scraper.py:96-102 | The row's `div` text, else its `label` text. NoSuchElement exactly when the row has neither. |
| Answers.OptionText | scraper.py:96-104 | NoSuchElement exactly when the row has no text. AttributeError exactly when the text has no reading, so `.group` is called on `None`. Otherwise the matched line without its trailing periods: a prefix of it, with only periods dropped, never ending with a period and holding no line break. |
| Answers.EnumeratedRow | scraper.py:99-104 | An option reading "x. text" yields the text with its trailing periods removed. |
| Answers.PlainRow | scraper.py:99-104 | An option line without an enumerator yields the whole line with its trailing periods removed. |
| Answers.Cue | scraper.py:114-123 | True exactly when "correct" is one of the row's classes. False exactly when "incorrect" is one and "correct" is not. Otherwise unknown. |
| Answers.Judge | scraper.py:106-123 | Exact membership in a list statement, exact equality with a single one, otherwise the row's cue. |
| Answers.ReadChoices | scraper.py:96-123 | The rows are read in order, one choice per row. It fails exactly when some row's text fails, with the error of the first such row. Each choice carries the row's cleaned text and its judgement. |
| Answers.ResolveUnknown | scraper.py:131-133 | Known verdicts and all texts are kept, and every unknown verdict becomes false. |
| Answers.CloseWorld | scraper.py:125-133 | The correction applies only to a radio list with exactly one choice known correct; anything else is left unchanged. |
| Answers.ClosedWorldResolves | scraper.py:125-133 | After the correction a radio list still has exactly one correct choice and no unknown one, with the texts unchanged. |
| Answers.CloseWorldKeepsKnown | scraper.py:130-133 | The correction never changes a known verdict or the length of the list. |
| Answers.ChoiceAnswer | scraper.py:90-135 | One choice per option row in row order, failing exactly when some row's text fails, with the first failing row's error. The verdict depends on the statement: a list means membership, a single one means equality. Without a statement the cue decides, and an unknown cue becomes false on a radio list with exactly one correct choice. |
| Answers.SplitPair | scraper.py:148 | ValueError exactly when splitting at " → " does not give two parts. Otherwise the fragment is `a → b`, where `a` ends at the first " → ", and the pair is `a` and `b` stripped of whitespace. |
| Answers.BuildPairs | scraper.py:146-149 | It fails exactly when some fragment fails to split, with that fragment's error. The keys are those of the fragments, and each key takes the value of its last fragment. |
| Answers.StatementPairs | scraper.py:146-153 | The statement's dictionary; its only error is ValueError. |
| Answers.FirstSelected | scraper.py:156-159 | The text of the first selected option. It is present exactly when some option is selected. |
| Answers.InferRows | scraper.py:155-169 | Each row reports the nearest selection at or before it, and whether its control's classes contain "correct". UnboundLocalError exactly when no selection has been seen yet. |
| Answers.StatedRows | scraper.py:169 | Each row reports the dictionary's value for its text, marked correct. KeyError on the first row whose text is missing, and success exactly when none is missing. |
| Answers.MatchingAnswer | scraper.py:138-171 | A table without rows gives `[]`, whatever the statement. One pairing per table row, keeping the row's text. Without a statement it succeeds exactly when the first row has a selection. With a statement and at least one row, it succeeds exactly when the dictionary builds and holds every row's text. Each row's value is then the dictionary's. Without a statement the error is UnboundLocalError. With a statement a dictionary that does not build gives ValueError, and otherwise the result is the per-row lookup, whose error is the KeyError of the first missing text. |
| Answers.ClassifyAnswer | scraper.py:182-189 | "span", "div" and "table" select the text, choice and matching readers respectively. The answer is that reader's value wrapped as a typed, choice or pairing answer, and that reader's error when it fails. Any other tag gives `None`. |
| Scraper.QuestionSource | scraper.py:27-34 | The question's own `qtext`, else the page's first `qtext` paragraph. |
| Scraper.QuestionText | scraper.py:26-34 | The source text without its trailing colons, and a prefix of it. NoSuchElement exactly when neither node exists. |
| Scraper.QuestionAnswer | scraper.py:173-189 | The statement is parsed first. The question's own `answer` node is read, else the page's first. NoSuchElement when neither exists. |
| Scraper.ReadQuestion | scraper.py:271 | The question's (text, answer) pair. The text is read first, so its error wins. |
| Base.Sequence | scraper.py:270-271 | A loop whose steps may raise: all the values in order exactly when every step succeeds, otherwise the exception of the first step that raised. |
| Scraper.ReadQuestions | scraper.py:269-271 | One entry per question in page order. The first failing question's error stops the run. |
| Scraper.TestName | scraper.py:196-208 | The last breadcrumb item's link text without its trailing periods. A last item without a link raises NoSuchElement. With no items, the last text of the second breadcrumb path is used, and with neither, IndexError. |
| Scraper.ScrapeTest | scraper.py:268-276 | A page's questions, then its name. A failing question's error wins; when the questions read, a failing name's error is returned. |
| Scraper.Collect | scraper.py:273-276 | The entries are appended to those under the name, or stored under a new name that goes last. Every other name is unchanged. |
| Scraper.CollectTwice | scraper.py:273-276 | Collecting `a` then `b` under one name is collecting `a + b`. |
| Scraper.Aggregate | scraper.py:266-276 | Success exactly when every page succeeds; otherwise the first failing page's error. The keys are the names seen. Under each name is the concatenation, in visiting order, of the entries of all pages of that name. Names are in first-seen order. |
| Scraper.Scrape | scraper.py:266-276 | `main` up to the dump: the properties of `Aggregate` stated about the pages themselves. |
| Text.Split | scraper.py:50 | `str.split` with a literal separator. Joining the pieces gives back the text, no piece contains the separator, and with two pieces or more the first one ends at the first occurrence of the separator. |
| Text.SplitLeftmost | scraper.py:50 | Every piece ends where the separator first occurs in the text that remains from that piece on: the split is at the leftmost non-overlapping occurrences, even for a separator such as " → " that starts and ends with the same character. |
| Text.SplitOfJoin | scraper.py:50 | For a separator with no border, splitting undoes joining pieces that lack it. |
| Text.RStrip | scraper.py:28 | The result is a prefix, the dropped tail is all in the set, and the result's last character is not in the set. |
| Text.Strip | scraper.py:40 | The result is a slice with only characters of the set around it. Neither of its ends is in the set. |
| Text.Replace | extractor.py:17 | Replacing with a string of the same length keeps the length. A replacement with none of the target's characters leaves no occurrence of the target. |
| Text.ReplacePieces | extractor.py:17 | The result is the text's leftmost pieces around the target, joined again with the replacement. |
| Text.ReplaceOfJoin | extractor.py:17 | For a target that cannot overlap itself, replacing it in pieces joined by it joins the same pieces with the replacement. |
| Text.RStripOf | scraper.py:28 | `rstrip` removes exactly a trailing run of the given characters that follows any other character. |
| Text.Find | scraper.py:82 | Present exactly when the pattern occurs, and then it is the leftmost occurrence. |
| Dicts.Update | joiner.py:19 | The right-biased union of the two maps. Keys new to the first dict are appended in the second's order. |
| Extractor.SepAt | extractor.py:10 | The alternatives are tried in order. ".\n" always wins at its position. Where the cross-glyph item occurs, it is a separator exactly when `$` matches after it: at the end of the text, or just before a final line break. |
| Extractor.SplitFrom | extractor.py:10 | The pieces interleaved with the separators found rebuild the scanned text. No piece holds ".\n" or the check-glyph separator. A cross-glyph separator is the last one, followed by nothing or a line break, and the last piece does not end with a cross-glyph item left unsplit. |
| Extractor.SplitBlock | extractor.py:23 | At least one piece. Some separators, a cross-glyph one only last and followed by nothing or a line break, interleaved with the pieces rebuild the block. No piece holds an unanchored separator, and the last does not end with a cross-glyph item left unsplit. |
| Extractor.SplitOfItems | extractor.py:23 | Items that hold none of the three separators, joined with ".\n", split back into exactly those items. The items may hold line breaks. |
| Extractor.CleanAnswer | extractor.py:8 | A match is one non-empty line. For a text without line breaks there is no match exactly when the text is empty. |
| Extractor.EnumeratedAnswer | extractor.py:8 | A lower-case letter and a period, followed by a line, read as that line. |
| Extractor.PlainAnswer | extractor.py:8 | A line that is not an enumerator followed by text reads whole. |
| Extractor.NonEmpty | extractor.py:25 | Exactly the non-empty pieces are kept: one piece is kept exactly when it is not empty, and never more pieces than given. |
| Extractor.NonEmptyConcat | extractor.py:19-26 | Filtering a concatenation filters each part, so the kept pieces stay in order and repeated pieces stay repeated. |
| Extractor.ExtractAnswers | extractor.py:19-26 | One answer per non-empty piece, in order. Each is the match of the piece with its line breaks turned into spaces. |
| Extractor.BlockAnswers | extractor.py:19-26 | There is one answer per non-empty piece of the split, and each is that piece with its line breaks turned into spaces, cleaned: one non-empty line. |
| Extractor.AnswersOfItems | extractor.py:19-26 | For items holding no separator joined with ".\n", one answer per non-empty item, in order: the match of the item with its line breaks turned into spaces, or of the item itself when it has none. |
| Extractor.QuestionPrompt | extractor.py:17 | A prefix of the text with "\n\r" replaced by spaces, from which only colons were dropped. It holds no "\n\r" and has no trailing colon. |
| Extractor.PromptOfLines | extractor.py:17 | Lines separated by "\n\r" read as the lines joined by single spaces. |
| Extractor.PromptDropsColons | extractor.py:17 | Colons after the question are dropped, and nothing else. |
| Joiner.JoinFiles | joiner.py:14-19 | A key is in the result exactly when some `.json` file holds it. Its value comes from the last `.json` file holding it. Keys are ordered by first appearance over the files in listing order. |
| Joiner.IgnoresOthers | joiner.py:17 | A file whose name does not end with ".json" changes nothing. |

## Left out

- Selenium: the driver, navigation, login, command-line arguments and reading the links file. A visited page is given as a `TestPage` value, and pages are given in visiting order.
- Element lookups the model does not let fail: the text of the `input` value, the `i` icon, the `input` type, the class attributes, and the `text` and `control` cells of a matching row. These are fields that are always present, so their NoSuchElementException paths are not modelled.
- The document-wide XPath fallbacks (`//*[@class='qtext']/p`, `//*[@class='answer']`) find the first such node of the whole page. They are modelled as fields of the page (`firstQtext`, `firstAnswer`), not computed from the document.
- str.casefold: Unicode case folding is a parameter `fold` of the readers.
- Answers.MatchingAnswer: the code rebuilds the statement's dictionary for every table row. Every rebuild gives the same dictionary, so it is built once, before the rows and only when there is one. With zero rows nothing is built, as in the code.
- Error handling: `main` lets every exception escape, so one failing question ends the whole run. The model's result is the first error; no question is skipped.
- Writing the JSON output (`json.dump`), and the order of `os.listdir`. The listing is taken as given.
- json.load: each `.json` file is assumed to hold an object, given as a `Dict`. Parsing and malformed files are not modelled.
- The extractor's PDF reading, its `re_questions` and `re_right_answers` patterns and its printing. The model takes the (question, answers) pairs that `re.findall` yields as input.
- Extractor.SplitOfItems: the round trip is stated for items joined with ".\n" only. The check-glyph and cross-glyph separators are characterised by `SepAt`, `SplitFrom` and `SplitBlock`, but no round-trip lemma joins items with them.
- `test.py` and the driver setup, which are not part of this model.
