# Smart AI Text Summarizer — layout, prompt and session model

A Dafny model of the pure logic of `app.py` in the Smart AI Text Summarizer,
a Streamlit app that summarises uploaded or pasted text with a hosted model
and offers the summary as a PDF download.

- `Layout` models `create_pdf_bytes`: the summary is split into words, greedily
  wrapped to the 532-point usable width of a letter page (612 − 40 − 40), and
  drawn from baseline 732 (792 − 60) downwards in steps of 18, with a new page
  whenever the cursor falls below 60. The loop is a left fold (`Run`) of one
  iteration (`Step`) followed by the final flush (`Finish`); `Compose` is the
  whole routine. The font metric `stringWidth(…, "Times-Roman", 12)` is a
  parameter `width: string -> real`. The result is the list of pages, each
  the list of `drawString(x, y, text)` calls made on it; `save()` always emits
  the last page, so a summary without words gives one blank page.
  `Compose(width, s)` is `DrawWords(width, Words(s))`: the loop applied to the
  word list `s.split()`. The layout properties are stated for `DrawWords` on
  any list of words, which `Text.Words` guarantees its result to be.
  A reference layout — a line breaker `BreakLines` composed with a paginator
  `Paginate` that cuts lines into pages of 38 — is proved equal to `DrawWords`
  for every word list, and the properties are proved on it. The paginator is
  independent of the loop (it counts lines where the loop tracks a cursor);
  the line breaker takes the same fit-or-break decision as the loop, so the
  evidence about line breaking is what is proved of it: words preserved
  (`GreedyWords`), width bound (`GreedyWidth`) and greedy breaks
  (`GreedyMaximal`).
- `Text` models Python's `str.split()` (runs of the 29 `str.isspace()`
  characters separate words) and `str.split(" ")`, with the joins they invert.
- `Prompt` models `summary_instructions` and the prompt f-string of
  `summarize_text`; a length outside the three presets is the `KeyError` the
  dictionary lookup raises.
- `Session` models the two input-mode buttons and the reset they perform.

The empty-line behaviour of the loop is kept as written: when the first word
alone is wider than the usable width, the loop draws the still-empty line
before placing that word, so the document's first drawn line is `""`.

Two behaviours one might describe differently are modelled as the code has them:
- a mode button clears the held text and summary only when it changes the mode
  (`app.py:119`); re-selecting the current mode clears nothing;
- a single over-wide word still gets a line of its own, but when it is the
  first word that line is preceded by an empty drawn line, as above.

`app.py` has CRLF line endings; Python reads source newlines as LF, so the
prompt template's line breaks are `"\n"`.

## Model

| member | source | states |
|---|---|---|
| Text.Words | app.py:61 | `summary_text.split()`: every piece is a non-empty whitespace-free word and the pieces concatenated are exactly the non-whitespace characters of the input, in order |
| Text.WordsOfJoin | app.py:61-66 | splitting words joined by single spaces gives back the same words |
| Text.WordsSplitAtSpace | app.py:61 | `split()` cuts at every whitespace character: the words of `a + c + b` for a whitespace `c` are the words of `a` followed by the words of `b` |
| Text.WordsOfWord | app.py:61 | a whitespace-free non-empty string splits into itself alone |
| Layout.ExtendWords | app.py:64 | the candidate line `Extend(line, word)` holds exactly the words of the line followed by the word |
| Layout.Step | app.py:63-74 | one loop iteration keeps the cursor on the next free row of a non-full page; when the candidate fits it becomes the line and nothing else changes; otherwise exactly the current line is drawn at the cursor, the word starts the next line, and either the cursor moves down 18 on the same page or — only when the page then holds 38 lines — the page ends and the cursor resets to 732 |
| Layout.Run | app.py:63-74 | the loop over all words keeps that state invariant |
| Layout.Finish | app.py:75-77 | after the loop the finished pages are kept, the last page is always emitted, and it gains the call `drawString(40, y, line)` at the cursor exactly when the leftover line is non-empty; from a valid state every page is placed and holds at most 38 lines |
| Layout.Paginate | app.py:59-76 | the reference paginator: always at least one page, line i of a page on baseline 732 − 18·i at x = 40, at most 38 lines per page, every page but the last full, the last empty only without lines, more than one page exactly when there are more than 38 lines, and the pages read in order give the lines back |
| Layout.RunMatchesReference | app.py:61-76 | from any valid loop state, the loop and the flush draw what the reference draws after the finished pages |
| Layout.DrawMatchesReference | app.py:52-76 | the loop draws exactly the greedy line breaking of the words cut into pages of 38 |
| Layout.DrawPreservesWords | app.py:62-76 | splitting every drawn line on single spaces (an empty line giving no words) and reading them in order gives the words back |
| Layout.Compose | app.py:52-79 | `create_pdf_bytes` emits at least one page, and its drawn lines, split on single spaces, give exactly `summary_text.split()` |
| Layout.DrawWidthBound | app.py:56-70 | every drawn line of two or more words is at most 532 wide |
| Layout.DrawIsGreedy | app.py:64-70 | every line break happens because the line extended by the next line's first word would be wider than 532 |
| Layout.DrawEmptyLineQuirk | app.py:62-76 | a line is drawn exactly when there is a word, and a drawn line is empty exactly when it is the first one and the first word alone is wider than 532 |
| Layout.DrawVerticalBounds | app.py:56-76 | every call is at x = 40 and line i of a page at y = 732 − 18·i, so 60 ≤ y ≤ 732 and y ≡ 732 (mod 18), and no page holds more than 38 lines |
| Layout.DrawPageFill | app.py:68-76 | there is at least one page, every page but the last holds 38 lines, the last page is blank only when there are no words, and there are several pages exactly when more than 38 lines are drawn |
| Layout.ComposeBlank | app.py:61-63 | an empty or whitespace-only summary gives a single blank page |
| Layout.RowsOnPage | app.py:59-71 | baseline 732 − 18·i is at or above 60 exactly for the first 38 rows |
| Prompt.BuildPrompt | app.py:31-47 | a prompt exists exactly for the three presets, any other length being a `KeyError`; it is exactly the fixed opening, the preset's instruction, the "Original Text:" header, the source text verbatim, and the fixed closing directive, each at its offset |
| Prompt.SourceTextRoundTrip | app.py:40-47 | the source text can be read back out of the prompt unchanged |
| Prompt.InstructionsDistinct | app.py:31-35 | the presets are exactly the three length keys and they map to distinct instructions |
| Prompt.PresetsGiveDistinctPrompts | app.py:31-47 | for one source text, different presets give different prompts |
| Prompt.PromptInjective | app.py:40-47 | for one preset, different source texts give different prompts |
| Prompt.OptionsArePresets | app.py:153 | every choice the length selector offers is a preset (so prompt building cannot fail from it), the default is `Medium`, and every preset is offered |
| Session.SelectMode | app.py:117-128 | after a mode button the mode is the one pressed; held summary and text are cleared when the mode changed and the state is untouched when it did not |
| Session.FirstPress | app.py:107-128 | in a fresh session (no mode, nothing held) the first mode button puts that mode in force with nothing held |
| Session.SelectModeIdempotent | app.py:118-122 | pressing the same mode button twice is pressing it once |
| Session.SelectModeClearsIff | app.py:118-128 | the held texts are empty after a press exactly when the mode changed or they were empty already |
| Session.PressAllEffect | app.py:117-128 | over a run of presses the last decides the mode, the held texts survive when every press re-selects the starting mode, and are gone once one press chose another |

## Left out

- The Streamlit page, CSS and HTML markup, the copy and download buttons and base64 encoding (`app.py:82-184` apart from the session bootstrap and the mode buttons): user-interface glue with no logic of its own; the only session state modelled is its initial value (`Session.Initial`) and what the mode buttons touch.
- Setting `text_content` from an upload or the text area (`app.py:133-148`): it calls the file extractors and widgets.
- Text extraction from PDF, DOCX and plain-text files (`app.py:16-28`): thin wrappers over PyPDF2, python-docx and UTF-8 decoding, whose behaviour is not part of this model.
- The call to the Gemini model and the `getattr(response, "text", str(response))` fallback (`app.py:12-13`, `app.py:48-49`): a remote service with an opaque response object.
- Font metrics: the width of Times-Roman at 12 points is the parameter `width`; any function is allowed, so the properties hold for every metric.
- The reportlab canvas: `setFont`, `showPage`, `save` and the PDF bytes (`app.py:53-54`, `app.py:60`, `app.py:72-73`, `app.py:77-79`) are not modelled; a page is the list of its `drawString` calls.
- Floating point: the page geometry is integral and exact in floating point, so it is modelled with integers; the comparison with the usable width is on reals.
