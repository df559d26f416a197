/**
 The summary-to-PDF layout of `create_pdf_bytes`: a greedy word wrap to the
 usable width of a letter page, drawn top-down at a fixed leading, with a new
 page whenever the cursor drops below the bottom limit.

 The loop is modelled as a left fold (`Run`) of one iteration (`Step`) over
 the words of the summary, followed by the final flush (`Finish`). Its
 reference is the composition of a line breaker (`BreakLines`) and a
 paginator (`Paginate`, which cuts the lines into pages of `LinesPerPage`);
 `DrawMatchesReference` proves the two agree on every input. The paginator
 is independent of the loop: it counts lines where the loop tracks a cursor.
 The line breaker takes the same fit-or-break decision as the loop, so the
 evidence about line breaking is the lemmas proved of it (`GreedyWords`,
 `GreedyWidth`, `GreedyMaximal`, `GreedyEmptyOnlyFirst`).

 The font metric is a parameter `width`, standing for the width of a string
 in Times-Roman at 12 points. The canvas is not modelled: the result is the
 sequence of pages, each the sequence of `drawString(x, y, text)` calls made
 on it.
 */
module Layout {
  import opened Text

  // Page geometry: a letter page in points, the margins, the first baseline,
  // the leading, and the lowest baseline allowed.
  const PageWidth: int := 612
  const PageHeight: int := 792
  const LeftMargin: int := 40
  const RightMargin: int := 40
  const UsableWidth: int := PageWidth - LeftMargin - RightMargin
  const Top: int := PageHeight - 60
  const LineHeight: int := 18
  const BottomLimit: int := 60

  /** How many baselines fit on a page: `RowY(i) >= BottomLimit` exactly when
      `i < LinesPerPage` (see `RowsOnPage`). */
  const LinesPerPage: nat := 38

  /** The width of a string in the document font. */
  type Width = string -> real

  /** One `drawString(x, y, text)` call. */
  datatype Drawn = Drawn(x: int, y: int, text: string)

  /** The calls made on one page, in order. */
  type Page = seq<Drawn>

  /** The loop state: cursor, line being accumulated, finished pages, and the
      calls made so far on the current page. */
  datatype Flow = Flow(y: int, line: string, done: seq<Page>, page: Page)

  /** The baseline of the `i`-th line of a page. */
  function RowY(i: nat): int {
    Top - LineHeight * i
  }

  lemma {:induction false} RowYResidue(i: nat)
    ensures RowY(i) % LineHeight == Top % LineHeight
  {
    if i > 0 {
      RowYResidue(i - 1);
      assert RowY(i) == RowY(i - 1) - LineHeight;
    }
  }

  lemma RowsOnPage(i: nat)
    ensures RowY(i) >= BottomLimit <==> i < LinesPerPage
  {
  }

  /** Every call of the page is at the left margin and on its row's baseline. */
  predicate Placed(p: Page) {
    forall i :: 0 <= i < |p| ==> p[i].x == LeftMargin && p[i].y == RowY(i)
  }


  /** The candidate line: the word after a single space, or the word alone
      when the line is still empty. */
  function Extend(line: string, word: string): string {
    if line != [] then line + " " + word else word
  }

  predicate Fits(width: Width, s: string) {
    width(s) <= UsableWidth as real
  }

  /** The texts drawn on a page, in order. */
  function PageTexts(p: Page): (ts: seq<string>)
    ensures |ts| == |p|
  {
    seq(|p|, i requires 0 <= i < |p| => p[i].text)
  }

  /** The texts drawn in a document, page after page. */
  function Texts(pages: seq<Page>): seq<string> {
    if pages == [] then [] else PageTexts(pages[0]) + Texts(pages[1..])
  }

  lemma {:induction false} TextsAppend(a: seq<Page>, b: seq<Page>)
    ensures Texts(a + b) == Texts(a) + Texts(b)
    decreases |a|
  {
    if a == [] {
      assert a + b == b;
    } else {
      assert (a + b)[0] == a[0];
      assert (a + b)[1..] == a[1..] + b;
      TextsAppend(a[1..], b);
    }
  }

  lemma TextsSnoc(a: seq<Page>, p: Page)
    ensures Texts(a + [p]) == Texts(a) + PageTexts(p)
  {
    TextsAppend(a, [p]);
    assert Texts([p]) == PageTexts(p) + Texts([]);
  }

  /** The words of a drawn line: `line.split(" ")`, an empty line counting as none. */
  function LineWords(line: string): seq<string> {
    if line == [] then [] else SplitOn(line, ' ')
  }

  /** The words of a sequence of drawn lines, in order. */
  function LinesWords(lines: seq<string>): seq<string> {
    if lines == [] then [] else LineWords(lines[0]) + LinesWords(lines[1..])
  }

  // ---------------------------------------------------------------------
  // The loop as written

  /** The state every page break and line commit keeps: the cursor sits on
      the baseline of the next free row of the current page, that page is not
      yet full, and every finished page holds `LinesPerPage` placed lines. */
  predicate FlowValid(st: Flow) {
    && |st.page| < LinesPerPage
    && st.y == RowY(|st.page|)
    && Placed(st.page)
    && forall k :: 0 <= k < |st.done| ==> |st.done[k]| == LinesPerPage && Placed(st.done[k])
  }

  /** The state before the first word. */
  const Start: Flow := Flow(Top, "", [], [])

  /** Everything drawn so far. */
  function Committed(st: Flow): seq<string> {
    Texts(st.done) + PageTexts(st.page)
  }

  /** One iteration of the loop over words: the word joins the current line
      when the candidate fits; otherwise the current line is drawn at the
      cursor, the cursor moves down one line, the word starts the next line,
      and a cursor below the bottom limit ends the page. */
  function Step(width: Width, st: Flow, word: string): (r: Flow)
    ensures FlowValid(st) ==> FlowValid(r)
    ensures Committed(r) == Committed(st) + (if Fits(width, Extend(st.line, word)) then [] else [st.line])
    ensures Fits(width, Extend(st.line, word)) ==> r == st.(line := Extend(st.line, word))
    ensures !Fits(width, Extend(st.line, word)) ==> r.line == word
    ensures !Fits(width, Extend(st.line, word)) && r.done == st.done ==>
              && r.y == st.y - LineHeight
              && r.page == st.page + [Drawn(LeftMargin, st.y, st.line)]
    ensures r.done != st.done ==>
              && !Fits(width, Extend(st.line, word))
              && r.done == st.done + [st.page + [Drawn(LeftMargin, st.y, st.line)]]
              && r.y == Top && r.page == []
              && (FlowValid(st) ==> |st.page| + 1 == LinesPerPage)
  {
    var candidate := Extend(st.line, word);
    if Fits(width, candidate) then
      st.(line := candidate)
    else
      var page := st.page + [Drawn(LeftMargin, st.y, st.line)];
      var y := st.y - LineHeight;
      assert PageTexts(page) == PageTexts(st.page) + [st.line];
      if y < BottomLimit then
        TextsSnoc(st.done, page);
        assert PageTexts([]) == [];
        Flow(Top, word, st.done + [page], [])
      else
        Flow(y, word, st.done, page)
  }

  /** The loop over the words, as a left fold of `Step`. */
  function Run(width: Width, st: Flow, words: seq<string>): (r: Flow)
    ensures FlowValid(st) ==> FlowValid(r)
    decreases |words|
  {
    if words == [] then st else Run(width, Step(width, st, words[0]), words[1..])
  }

  /** After the loop: the leftover line, if any, is drawn at the cursor with no
      page-break check, and `save()` emits the last page. */
  function Finish(st: Flow): (r: seq<Page>)
    ensures |r| == |st.done| + 1 && r[..|st.done|] == st.done
    ensures var last := r[|st.done|];
            && |last| == |st.page| + (if st.line != [] then 1 else 0)
            && last[..|st.page|] == st.page
            && (st.line != [] ==> last[|st.page|] == Drawn(LeftMargin, st.y, st.line))
    ensures FlowValid(st) ==> forall k :: 0 <= k < |r| ==> Placed(r[k]) && |r[k]| <= LinesPerPage
  {
    st.done + [st.page + (if st.line != [] then [Drawn(LeftMargin, st.y, st.line)] else [])]
  }

  /** The pages drawn for a list of words: the loop from the initial state,
      then the flush. */
  function DrawWords(width: Width, words: seq<string>): seq<Page> {
    Finish(Run(width, Start, words))
  }

  /** `create_pdf_bytes(summary)`, up to the serialisation of the canvas. */
  function Compose(width: Width, summary: string): (r: seq<Page>)
    ensures |r| >= 1
    ensures LinesWords(Texts(r)) == Words(summary)
  {
    DrawPreservesWords(width, Words(summary));
    DrawPageFill(width, Words(summary));
    DrawWords(width, Words(summary))
  }

  // ---------------------------------------------------------------------
  // The reference layout

  /** Greedy line breaking: the lines drawn when `line` is being accumulated
      and `words` remain. */
  function Greedy(width: Width, line: string, words: seq<string>): seq<string>
    decreases |words|
  {
    if words == [] then
      (if line != [] then [line] else [])
    else if Fits(width, Extend(line, words[0])) then
      Greedy(width, Extend(line, words[0]), words[1..])
    else
      [line] + Greedy(width, words[0], words[1..])
  }

  /** The lines of a document, before pagination. */
  function BreakLines(width: Width, words: seq<string>): seq<string> {
    Greedy(width, [], words)
  }

  /** A page holding the given lines, line `i` on row `i`. */
  function Place(lines: seq<string>): (p: Page)
    ensures |p| == |lines|
    ensures Placed(p)
    ensures PageTexts(p) == lines
  {
    seq(|lines|, i requires 0 <= i < |lines| => Drawn(LeftMargin, RowY(i), lines[i]))
  }

  /** Lines cut into pages of `LinesPerPage`: there is always a page, every page
      is placed and holds at most `LinesPerPage` lines, only the last page may
      hold fewer, the last page is empty only when there are no lines, there is
      more than one page exactly when the lines overflow one page, and reading
      the pages in order gives the lines back. */
  function Paginate(lines: seq<string>): (r: seq<Page>)
    ensures |r| >= 1
    ensures Texts(r) == lines
    ensures forall k :: 0 <= k < |r| ==> Placed(r[k]) && |r[k]| <= LinesPerPage
    ensures forall k :: 0 <= k < |r| - 1 ==> |r[k]| == LinesPerPage
    ensures (r[|r| - 1] == []) == (lines == [])
    ensures (|r| > 1) == (|lines| > LinesPerPage)
    decreases |lines|
  {
    if |lines| <= LinesPerPage then
      [Place(lines)]
    else
      var rest := Paginate(lines[LinesPerPage..]);
      assert lines[..LinesPerPage] + lines[LinesPerPage..] == lines;
      assert ([Place(lines[..LinesPerPage])] + rest)[1..] == rest;
      [Place(lines[..LinesPerPage])] + rest
  }

  lemma PlacePageTexts(p: Page)
    requires Placed(p)
    ensures Place(PageTexts(p)) == p
  {
  }

  /** The final flush draws what the reference draws for the leftover line. */
  lemma FinishMatchesReference(st: Flow)
    requires FlowValid(st)
    ensures Finish(st) == st.done + Paginate(PageTexts(st.page) + (if st.line != [] then [st.line] else []))
  {
    var before := PageTexts(st.page);
    PlacePageTexts(st.page);
    if st.line != [] {
      assert Place(before + [st.line]) == st.page + [Drawn(LeftMargin, st.y, st.line)];
    } else {
      assert before + [] == before;
      assert st.page + [] == st.page;
      assert Paginate(before) == [Place(before)];
    }
  }

  /** Committing a line in the loop draws what the reference draws for that
      line followed by any non-empty rest: the line closes the page when it is
      the page's last row, and otherwise stays on the page. */
  lemma CommitMatchesReference(st: Flow, g: seq<string>)
    requires FlowValid(st)
    requires g != []
    ensures var drawn := st.page + [Drawn(LeftMargin, st.y, st.line)];
            var reference := st.done + Paginate(PageTexts(st.page) + ([st.line] + g));
            && (|drawn| == LinesPerPage ==> st.done + [drawn] + Paginate(PageTexts([]) + g) == reference)
            && (|drawn| < LinesPerPage ==> st.done + Paginate(PageTexts(drawn) + g) == reference)
  {
    var before := PageTexts(st.page);
    PlacePageTexts(st.page);
    var drawn := st.page + [Drawn(LeftMargin, st.y, st.line)];
    assert before + ([st.line] + g) == (before + [st.line]) + g;
    assert PageTexts(drawn) == before + [st.line];
    if |drawn| == LinesPerPage {
      var all := before + [st.line] + g;
      assert all[..LinesPerPage] == before + [st.line];
      assert all[LinesPerPage..] == g;
      assert Place(before + [st.line]) == drawn;
      assert PageTexts([]) + g == g;
      assert Paginate(all) == [drawn] + Paginate(g);
    }
  }

  /** The loop, started from any valid state, draws what the reference draws
      for the lines still to come, after the pages already finished. */
  lemma {:induction false} RunMatchesReference(width: Width, st: Flow, words: seq<string>)
    requires FlowValid(st)
    requires AllWords(words)
    ensures Finish(Run(width, st, words))
            == st.done + Paginate(PageTexts(st.page) + Greedy(width, st.line, words))
    decreases |words|
  {
    if words == [] {
      FinishMatchesReference(st);
    } else {
      var w, rest := words[0], words[1..];
      var next := Step(width, st, w);
      assert Run(width, st, words) == Run(width, next, rest);
      assert AllWords(rest);
      RunMatchesReference(width, next, rest);
      if !Fits(width, Extend(st.line, w)) {
        var g := Greedy(width, w, rest);
        assert Greedy(width, st.line, words) == [st.line] + g;
        GreedyNonEmpty(width, w, rest);
        CommitMatchesReference(st, g);
      }
    }
  }

  /** The pages drawn for any list of words are the reference layout of those words. */
  lemma DrawMatchesReference(width: Width, ws: seq<string>)
    requires AllWords(ws)
    ensures DrawWords(width, ws) == Paginate(BreakLines(width, ws))
  {
    var lines := BreakLines(width, ws);
    assert FlowValid(Start);
    assert PageTexts(Start.page) + Greedy(width, Start.line, ws) == lines;
    RunMatchesReference(width, Start, ws);
    assert Start.done + Paginate(lines) == Paginate(lines);
  }

  // ---------------------------------------------------------------------
  // Properties of the line breaker

  /** Adding a word to a line adds exactly that word to the line's words. */
  lemma ExtendWords(line: string, w: string)
    requires IsWord(w)
    ensures LineWords(Extend(line, w)) == LineWords(line) + [w]
  {
    assert IsSpace(' ');
    SplitOnWithout(w, ' ');
    if line != [] {
      SplitOnAppend(line, ' ', w);
      assert line + " " + w == line + [' '] + w;
    }
  }

  lemma {:induction false} GreedyNonEmpty(width: Width, line: string, words: seq<string>)
    requires line != []
    requires AllWords(words)
    ensures Greedy(width, line, words) != []
    ensures forall j :: 0 <= j < |Greedy(width, line, words)| ==> Greedy(width, line, words)[j] != []
    decreases |words|
  {
    if words != [] {
      assert AllWords(words[1..]);
      if Fits(width, Extend(line, words[0])) {
        GreedyNonEmpty(width, Extend(line, words[0]), words[1..]);
      } else {
        GreedyNonEmpty(width, words[0], words[1..]);
      }
    }
  }

  lemma LinesWordsCons(line: string, lines: seq<string>)
    ensures LinesWords([line] + lines) == LineWords(line) + LinesWords(lines)
  {
    assert ([line] + lines)[1..] == lines;
  }

  lemma {:induction false} GreedyWords(width: Width, line: string, words: seq<string>)
    requires AllWords(words)
    ensures LinesWords(Greedy(width, line, words)) == LineWords(line) + words
    decreases |words|
  {
    if words == [] {
      if line != [] {
        LinesWordsCons(line, []);
      }
    } else {
      var w, rest := words[0], words[1..];
      assert words == [w] + rest;
      assert AllWords(rest);
      assert IsWord(w);
      var t := Extend(line, w);
      ExtendWords(line, w);
      if Fits(width, t) {
        GreedyWords(width, t, rest);
        assert LineWords(t) + rest == LineWords(line) + words;
      } else {
        var g := Greedy(width, w, rest);
        assert Greedy(width, line, words) == [line] + g;
        GreedyWords(width, w, rest);
        ExtendWords([], w);
        LinesWordsCons(line, g);
        assert LinesWords(g) == [w] + rest;
      }
    }
  }

  lemma {:induction false} GreedyWidth(width: Width, line: string, words: seq<string>)
    requires AllWords(words)
    requires line == [] || Fits(width, line) || |LineWords(line)| == 1
    ensures forall j :: 0 <= j < |Greedy(width, line, words)| ==>
              |LineWords(Greedy(width, line, words)[j])| >= 2 ==> Fits(width, Greedy(width, line, words)[j])
    decreases |words|
  {
    if words != [] {
      var w, rest := words[0], words[1..];
      assert AllWords(rest);
      if Fits(width, Extend(line, w)) {
        GreedyWidth(width, Extend(line, w), rest);
      } else {
        ExtendWords([], w);
        GreedyWidth(width, w, rest);
      }
    }
  }

  lemma {:induction false} GreedyHead(width: Width, line: string, words: seq<string>)
    requires line != []
    requires AllWords(words)
    ensures Greedy(width, line, words) != []
    ensures LineWords(Greedy(width, line, words)[0]) != []
    ensures LineWords(Greedy(width, line, words)[0])[0] == LineWords(line)[0]
    decreases |words|
  {
    if words != [] {
      var w, rest := words[0], words[1..];
      assert AllWords(rest);
      if Fits(width, Extend(line, w)) {
        ExtendWords(line, w);
        GreedyHead(width, Extend(line, w), rest);
      }
    }
  }

  lemma {:induction false} GreedyMaximal(width: Width, line: string, words: seq<string>)
    requires AllWords(words)
    ensures forall j :: 1 <= j < |Greedy(width, line, words)| ==>
              && LineWords(Greedy(width, line, words)[j]) != []
              && !Fits(width, Extend(Greedy(width, line, words)[j - 1], LineWords(Greedy(width, line, words)[j])[0]))
    decreases |words|
  {
    if words != [] {
      var w, rest := words[0], words[1..];
      assert AllWords(rest);
      if Fits(width, Extend(line, w)) {
        GreedyMaximal(width, Extend(line, w), rest);
      } else {
        var g := Greedy(width, w, rest);
        GreedyMaximal(width, w, rest);
        GreedyHead(width, w, rest);
        ExtendWords([], w);
        var r := [line] + g;
        assert forall j :: 1 <= j < |r| ==> r[j] == g[j - 1];
      }
    }
  }

  lemma GreedyEmptyOnlyFirst(width: Width, words: seq<string>)
    requires AllWords(words)
    ensures (BreakLines(width, words) == []) == (words == [])
    ensures forall j :: 0 <= j < |BreakLines(width, words)| ==>
              (BreakLines(width, words)[j] == [] <==> j == 0 && !Fits(width, words[0]))
  {
    if words != [] {
      var w, rest := words[0], words[1..];
      assert AllWords(rest);
      GreedyNonEmpty(width, w, rest);
      if !Fits(width, w) {
        var g := Greedy(width, w, rest);
        assert forall j :: 1 <= j < |[[]] + g| ==> ([[]] + g)[j] == g[j - 1];
      }
    }
  }

  // ---------------------------------------------------------------------
  // Properties of the document

  /** Word preservation: reading the drawn lines in order and splitting each
      on single spaces (an empty line contributing nothing) gives the words
      back. No word is dropped, split, merged or reordered. */
  lemma DrawPreservesWords(width: Width, words: seq<string>)
    requires AllWords(words)
    ensures LinesWords(Texts(DrawWords(width, words))) == words
  {
    DrawMatchesReference(width, words);
    GreedyWords(width, [], words);
  }

  /** Width bound: a drawn line of two or more words fits the usable width;
      only a single over-wide word (or the empty line) can be wider. */
  lemma DrawWidthBound(width: Width, words: seq<string>)
    requires AllWords(words)
    ensures forall j :: 0 <= j < |Texts(DrawWords(width, words))| ==>
              |LineWords(Texts(DrawWords(width, words))[j])| >= 2 ==> Fits(width, Texts(DrawWords(width, words))[j])
  {
    DrawMatchesReference(width, words);
    GreedyWidth(width, [], words);
  }

  /** Greediness: every line break happens because the next line's first word
      would not fit after the line it ends. */
  lemma DrawIsGreedy(width: Width, words: seq<string>)
    requires AllWords(words)
    ensures var lines := Texts(DrawWords(width, words));
            forall j :: 1 <= j < |lines| ==>
              && LineWords(lines[j]) != []
              && !Fits(width, Extend(lines[j - 1], LineWords(lines[j])[0]))
  {
    DrawMatchesReference(width, words);
    GreedyMaximal(width, [], words);
  }

  /** The empty-line quirk: a drawn line is empty exactly when it is the first
      line of the document and the first word alone is wider than the usable
      width; some line is drawn exactly when there is a word. */
  lemma DrawEmptyLineQuirk(width: Width, words: seq<string>)
    requires AllWords(words)
    ensures (Texts(DrawWords(width, words)) == []) == (words == [])
    ensures forall j :: 0 <= j < |Texts(DrawWords(width, words))| ==>
              (Texts(DrawWords(width, words))[j] == [] <==> j == 0 && !Fits(width, words[0]))
  {
    DrawMatchesReference(width, words);
    GreedyEmptyOnlyFirst(width, words);
  }

  /** Vertical bounds: line `i` of every page is drawn at the left margin on
      baseline `Top - LineHeight * i`, which lies between the bottom limit and
      the top offset and is `Top` modulo the leading; a page holds at most
      `LinesPerPage` lines. */
  lemma DrawVerticalBounds(width: Width, words: seq<string>)
    ensures forall k :: 0 <= k < |DrawWords(width, words)| ==> |DrawWords(width, words)[k]| <= LinesPerPage
    ensures forall k, i :: 0 <= k < |DrawWords(width, words)| && 0 <= i < |DrawWords(width, words)[k]| ==>
              && DrawWords(width, words)[k][i].x == LeftMargin
              && DrawWords(width, words)[k][i].y == RowY(i)
              && BottomLimit <= DrawWords(width, words)[k][i].y <= Top
              && DrawWords(width, words)[k][i].y % LineHeight == Top % LineHeight
  {
    var pages: seq<Page> := DrawWords(width, words);
    forall k: int, i: nat | 0 <= k < |pages| && i < |pages[k]|
      ensures BottomLimit <= pages[k][i].y <= Top
      ensures pages[k][i].y % LineHeight == Top % LineHeight
    {
      RowsOnPage(i);
      RowYResidue(i);
    }
  }

  /** Page breaks: there is always at least one page, every page but the last
      is full, the last page is blank only when there are no words, and the
      document runs over one page exactly when it has more lines than a page
      holds. */
  lemma DrawPageFill(width: Width, words: seq<string>)
    requires AllWords(words)
    ensures |DrawWords(width, words)| >= 1
    ensures forall k :: 0 <= k < |DrawWords(width, words)| - 1 ==> |DrawWords(width, words)[k]| == LinesPerPage
    ensures (DrawWords(width, words)[|DrawWords(width, words)| - 1] == []) == (words == [])
    ensures (|DrawWords(width, words)| > 1) == (|Texts(DrawWords(width, words))| > LinesPerPage)
  {
    DrawMatchesReference(width, words);
    GreedyEmptyOnlyFirst(width, words);
  }

  lemma {:induction false} NonSpaceOfBlank(s: string)
    requires forall i :: 0 <= i < |s| ==> IsSpace(s[i])
    ensures NonSpace(s) == []
    decreases |s|
  {
    if s != [] {
      NonSpaceOfBlank(s[1..]);
    }
  }

  /** An empty or whitespace-only summary gives one blank page. */
  lemma ComposeBlank(width: Width, summary: string)
    requires forall i :: 0 <= i < |summary| ==> IsSpace(summary[i])
    ensures Compose(width, summary) == [[]]
  {
    NonSpaceOfBlank(summary);
    var ws := Words(summary);
    assert ws == [];
    assert Run(width, Start, ws) == Start;
    assert Compose(width, summary) == DrawWords(width, ws) == Finish(Start);
    assert Start.page + [] == [];
    assert Finish(Start) == [[]];
  }
}
