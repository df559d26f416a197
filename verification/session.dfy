/**
 The per-session state of the app and the two input-mode buttons. Choosing a
 mode different from the one in force discards the held source text and
 summary; choosing the mode already in force keeps them.
 */
module Session {
  import opened Wrappers

  datatype Mode = Upload | Manual

  /** `input_mode`, `summary_text` and `text_content` of the session. */
  datatype State = State(inputMode: Option<Mode>, summaryText: string, textContent: string)

  /** The state a fresh session starts in: no mode, nothing held. */
  const Initial: State := State(None, "", "")

  /** Pressing the button for mode `m`: afterwards `m` is in force; the held
      texts are cleared when another mode (or none) was in force before, and
      nothing at all changes when `m` already was. */
  function SelectMode(s: State, m: Mode): (r: State)
    ensures r.inputMode == Some(m)
    ensures s.inputMode != Some(m) ==> r.summaryText == "" && r.textContent == ""
    ensures s.inputMode == Some(m) ==> r == s
  {
    var cleared := if s.inputMode != Some(m) then s.(summaryText := "", textContent := "") else s;
    cleared.(inputMode := Some(m))
  }

  /** The first press of a fresh session puts that mode in force with nothing held. */
  lemma FirstPress(m: Mode)
    ensures SelectMode(Initial, m) == State(Some(m), "", "")
  {
  }

  /** Pressing the same button twice is pressing it once. */
  lemma SelectModeIdempotent(s: State, m: Mode)
    ensures SelectMode(SelectMode(s, m), m) == SelectMode(s, m)
  {
  }

  /** After a mode switch the held texts are empty exactly when the mode
      changed or they were empty already. */
  lemma SelectModeClearsIff(s: State, m: Mode)
    ensures (SelectMode(s, m).summaryText == "" && SelectMode(s, m).textContent == "")
            <==> (s.inputMode != Some(m) || (s.summaryText == "" && s.textContent == ""))
  {
  }

  /** A run of button presses, one per rerun of the script. */
  function PressAll(s: State, modes: seq<Mode>): State
    decreases |modes|
  {
    if modes == [] then s else PressAll(SelectMode(s, modes[0]), modes[1..])
  }

  /** After a run of presses the last one decides the mode; the held texts
      survive only when every press re-selected the mode in force at the
      start, and are gone as soon as one press chose another. */
  lemma {:induction false} PressAllEffect(s: State, modes: seq<Mode>)
    ensures PressAll(s, modes).inputMode == if modes == [] then s.inputMode else Some(modes[|modes| - 1])
    ensures (forall i :: 0 <= i < |modes| ==> s.inputMode == Some(modes[i])) ==> PressAll(s, modes) == s
    ensures (exists i :: 0 <= i < |modes| && s.inputMode != Some(modes[i])) ==>
              PressAll(s, modes).summaryText == "" && PressAll(s, modes).textContent == ""
    decreases |modes|
  {
    if modes != [] {
      var next := SelectMode(s, modes[0]);
      var rest := modes[1..];
      PressAllEffect(next, rest);
      if s.inputMode == Some(modes[0]) {
        assert next == s;
        assert forall i :: 0 <= i < |rest| ==> rest[i] == modes[i + 1];
      } else {
        ClearedStaysCleared(next, rest);
      }
      if rest != [] {
        assert rest[|rest| - 1] == modes[|modes| - 1];
      }
    }
  }

  lemma {:induction false} ClearedStaysCleared(s: State, modes: seq<Mode>)
    requires s.summaryText == "" && s.textContent == ""
    ensures PressAll(s, modes).summaryText == "" && PressAll(s, modes).textContent == ""
    decreases |modes|
  {
    if modes != [] {
      ClearedStaysCleared(SelectMode(s, modes[0]), modes[1..]);
    }
  }
}
