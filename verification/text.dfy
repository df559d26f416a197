/**
 Python string splitting as the layout code uses it: `str.split()` with no
 argument (runs of whitespace separate words, leading and trailing whitespace
 is dropped) and `str.split(sep)` with a one-character separator (every
 occurrence separates, empty pieces are kept), together with the joins that
 undo them.
 */
module Text {

  /** Python's `str.isspace()` for one code point: the 29 characters that
      `str.split()` with no argument treats as separators. */
  predicate IsSpace(c: char) {
    || ('\U{9}' <= c <= '\U{D}')
    || ('\U{1C}' <= c <= '\U{20}')
    || c == '\U{85}'
    || c == '\U{A0}'
    || c == '\U{1680}'
    || ('\U{2000}' <= c <= '\U{200A}')
    || c == '\U{2028}'
    || c == '\U{2029}'
    || c == '\U{202F}'
    || c == '\U{205F}'
    || c == '\U{3000}'
  }

  /** A word as `str.split()` produces it: non-empty, no whitespace. */
  predicate IsWord(w: string) {
    w != [] && forall i :: 0 <= i < |w| ==> !IsSpace(w[i])
  }

  predicate AllWords(ws: seq<string>) {
    forall i :: 0 <= i < |ws| ==> IsWord(ws[i])
  }

  /** The characters of `s` that are not whitespace, in order. */
  function NonSpace(s: string): string {
    if s == [] then []
    else (if IsSpace(s[0]) then [] else [s[0]]) + NonSpace(s[1..])
  }

  /** The concatenation of a sequence of strings. */
  function Concat(ws: seq<string>): string {
    if ws == [] then [] else ws[0] + Concat(ws[1..])
  }

  /** `sep.join(parts)`. */
  function Join(parts: seq<string>, sep: char): string {
    if |parts| == 0 then []
    else if |parts| == 1 then parts[0]
    else parts[0] + [sep] + Join(parts[1..], sep)
  }

  /** Length of the longest whitespace-free prefix of `s`. */
  function LeadingWordLength(s: string): (n: nat)
    ensures n <= |s|
    ensures forall i :: 0 <= i < n ==> !IsSpace(s[i])
    ensures n < |s| ==> IsSpace(s[n])
  {
    if s == [] || IsSpace(s[0]) then 0 else 1 + LeadingWordLength(s[1..])
  }

  /** Python's `s.split()`: the maximal whitespace-free runs of `s`, in order.
      Every piece is a word, and together the pieces hold exactly the
      non-whitespace characters of `s`, none dropped, none added. */
  function Words(s: string): (ws: seq<string>)
    ensures AllWords(ws)
    ensures Concat(ws) == NonSpace(s)
    decreases |s|
  {
    if s == [] then []
    else if IsSpace(s[0]) then Words(s[1..])
    else
      var n := LeadingWordLength(s);
      NonSpaceOfWord(s[..n]);
      NonSpaceAppend(s[..n], s[n..]);
      assert s[..n] + s[n..] == s;
      [s[..n]] + Words(s[n..])
  }

  lemma {:induction false} NonSpaceAppend(a: string, b: string)
    ensures NonSpace(a + b) == NonSpace(a) + NonSpace(b)
    decreases |a|
  {
    if a == [] {
      assert a + b == b;
    } else {
      assert (a + b)[0] == a[0];
      assert (a + b)[1..] == a[1..] + b;
      NonSpaceAppend(a[1..], b);
    }
  }

  lemma {:induction false} NonSpaceOfWord(w: string)
    requires forall i :: 0 <= i < |w| ==> !IsSpace(w[i])
    ensures NonSpace(w) == w
    decreases |w|
  {
    if w != [] {
      NonSpaceOfWord(w[1..]);
    }
  }

  /** Splitting a space-joined list of words gives the words back: `split()`
      undoes `" ".join(...)` on word lists. */
  lemma {:induction false} WordsOfJoin(ws: seq<string>)
    requires AllWords(ws)
    ensures Words(Join(ws, ' ')) == ws
    decreases |ws|
  {
    if |ws| == 0 {
    } else {
      var w := ws[0];
      var tail := if |ws| == 1 then [] else [' '] + Join(ws[1..], ' ');
      var s := Join(ws, ' ');
      assert s == w + tail;
      var n := LeadingWordLength(s);
      assert forall i :: 0 <= i < |w| ==> s[i] == w[i];
      assert |ws| > 1 ==> s[|w|] == ' ';
      assert n == |w|;
      assert s[..n] == w;
      assert s[n..] == tail;
      if |ws| > 1 {
        assert tail[1..] == Join(ws[1..], ' ');
        WordsOfJoin(ws[1..]);
      }
    }
  }

  /** A word on its own splits into itself. */
  lemma WordsOfWord(w: string)
    requires IsWord(w)
    ensures Words(w) == [w]
  {
    var n := LeadingWordLength(w);
    assert n == |w|;
    assert w[..n] == w;
    assert w[n..] == [];
  }

  /** `split()` cuts at whitespace: a whitespace character splits the string
      into the words on either side of it. */
  lemma {:induction false} WordsSplitAtSpace(a: string, c: char, b: string)
    requires IsSpace(c)
    ensures Words(a + [c] + b) == Words(a) + Words(b)
    decreases |a|
  {
    var s := a + [c] + b;
    if a == [] {
      assert s == [c] + b;
      assert s[1..] == b;
    } else if IsSpace(a[0]) {
      assert s[0] == a[0];
      assert s[1..] == a[1..] + [c] + b;
      WordsSplitAtSpace(a[1..], c, b);
    } else {
      var n := LeadingWordLength(a);
      var m := LeadingWordLength(s);
      assert forall i :: 0 <= i < |a| ==> s[i] == a[i];
      assert s[|a|] == c;
      assert m == n;
      assert s[..m] == a[..n];
      assert s[m..] == a[n..] + [c] + b;
      WordsSplitAtSpace(a[n..], c, b);
    }
  }

  /** Python's `s.split(sep)` for a one-character separator: every occurrence
      of `sep` separates two pieces, so the result is never empty, no piece
      holds `sep`, and joining the pieces with `sep` restores `s`. */
  function SplitOn(s: string, sep: char): (parts: seq<string>)
    ensures |parts| >= 1
    ensures forall i, j :: 0 <= i < |parts| && 0 <= j < |parts[i]| ==> parts[i][j] != sep
    ensures Join(parts, sep) == s
    decreases |s|
  {
    if s == [] then [[]]
    else
      var rest := SplitOn(s[1..], sep);
      if s[0] == sep then
        assert s == [sep] + s[1..];
        [[]] + rest
      else
        var first := [s[0]] + rest[0];
        assert forall j :: 0 < j < |first| ==> first[j] == rest[0][j - 1];
        assert ([first] + rest[1..])[1..] == rest[1..];
        if |rest| == 1 then [first] + rest[1..]
        else
          assert Join(rest, sep) == rest[0] + [sep] + Join(rest[1..], sep);
          assert s == [s[0]] + s[1..];
          [first] + rest[1..]
  }

  /** A separator in the middle splits the string into the pieces of either side. */
  lemma {:induction false} SplitOnAppend(a: string, sep: char, b: string)
    ensures SplitOn(a + [sep] + b, sep) == SplitOn(a, sep) + SplitOn(b, sep)
    decreases |a|
  {
    if a == [] {
      assert a + [sep] + b == [sep] + b;
      assert ([sep] + b)[1..] == b;
    } else {
      var s := a + [sep] + b;
      assert s[0] == a[0];
      assert s[1..] == a[1..] + [sep] + b;
      SplitOnAppend(a[1..], sep, b);
    }
  }

  /** A string without the separator is one piece. */
  lemma {:induction false} SplitOnWithout(w: string, sep: char)
    requires forall i :: 0 <= i < |w| ==> w[i] != sep
    ensures SplitOn(w, sep) == [w]
    decreases |w|
  {
    if w != [] {
      SplitOnWithout(w[1..], sep);
      assert [w[0]] + w[1..] == w;
    }
  }
}
