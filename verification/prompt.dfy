/**
 The length presets and the prompt of `summarize_text`: a fixed map from the
 three length choices to an instruction, and an f-string that wraps the
 instruction and the source text in fixed framing. The call to the model
 itself is outside this module.
 */
module Prompt {
  import opened Wrappers

  const ShortKey: string := "Short (1-2 sentences)"
  const MediumKey: string := "Medium"
  const DetailedKey: string := "Detailed"

  /** `summary_instructions`. */
  const SummaryInstructions: map<string, string> := map[
    ShortKey := "Write a very concise summary in 1-2 sentences, capturing only the main idea.",
    MediumKey := "Write a clear and coherent summary in a short paragraph, highlighting the key points.",
    DetailedKey := "Write a detailed summary in multiple paragraphs, covering all important information with clear structure."
  ]

  /** The choices the length selector offers, in order, and the one it starts on. */
  const LengthOptions: seq<string> := [ShortKey, MediumKey, DetailedKey]
  const DefaultOption: nat := 1

  /** The `KeyError` a length outside the presets raises. */
  datatype PromptError = KeyError(key: string)

  // The fixed framing of the prompt template, around the instruction and the
  // source text (the template's lines end in LF once Python has read them).
  const Opening: string := "\n    You are an expert text summarizer. "
  const Middle: string := "\n\n    Original Text:\n    "
  const Closing: string := "\n\n    Provide the summary in clear, grammatically correct language. Maintain key details, context, and logical flow. Do not include unrelated information or filler.\n    "

  /** Where the source text starts in the prompt for a preset. */
  function TextStart(length: string): nat
    requires length in SummaryInstructions
  {
    |Opening| + |SummaryInstructions[length]| + |Middle|
  }

  /** The prompt `summarize_text(text, length)` sends: it exists exactly for the
      three presets (any other length is a `KeyError`), opens with the fixed
      framing, holds the preset's instruction right after it and the source
      text verbatim at `TextStart(length)`, and ends with the fixed closing
      directive. */
  function BuildPrompt(text: string, length: string): (r: Result<string, PromptError>)
    ensures r.Success? <==> length in SummaryInstructions
    ensures r.Failure? ==> r.error == KeyError(length)
    ensures r.Success? ==>
              && |r.value| == TextStart(length) + |text| + |Closing|
              && r.value[..|Opening|] == Opening
              && r.value[|Opening|..|Opening| + |SummaryInstructions[length]|] == SummaryInstructions[length]
              && r.value[|Opening| + |SummaryInstructions[length]|..TextStart(length)] == Middle
              && r.value[TextStart(length)..TextStart(length) + |text|] == text
              && r.value[TextStart(length) + |text|..] == Closing
  {
    if length in SummaryInstructions then
      var instruction := SummaryInstructions[length];
      FiveParts(Opening, instruction, Middle, text, Closing);
      Success(Opening + instruction + Middle + text + Closing)
    else
      Failure(KeyError(length))
  }

  /** Where each part of a five-part concatenation sits. */
  lemma FiveParts(a: string, b: string, c: string, d: string, e: string)
    ensures var s := a + b + c + d + e;
            && |s| == |a| + |b| + |c| + |d| + |e|
            && s[..|a|] == a
            && s[|a|..|a| + |b|] == b
            && s[|a| + |b|..|a| + |b| + |c|] == c
            && s[|a| + |b| + |c|..|a| + |b| + |c| + |d|] == d
            && s[|a| + |b| + |c| + |d|..] == e
  {
    var s := a + b + c + d + e;
    assert s == a + (b + (c + (d + e)));
  }

  /** The source text recovered from a prompt built for `length`. */
  function SourceText(prompt: string, length: string): string
    requires length in SummaryInstructions
    requires |prompt| >= TextStart(length) + |Closing|
  {
    prompt[TextStart(length)..|prompt| - |Closing|]
  }

  /** The prompt carries the source text verbatim: it can be read back. */
  lemma SourceTextRoundTrip(text: string, length: string)
    requires length in SummaryInstructions
    ensures BuildPrompt(text, length).Success?
    ensures SourceText(BuildPrompt(text, length).value, length) == text
  {
  }

  /** The three presets are the keys of the map and name distinct instructions. */
  lemma InstructionsDistinct()
    ensures SummaryInstructions.Keys == {ShortKey, MediumKey, DetailedKey}
    ensures forall a, b :: a in SummaryInstructions && b in SummaryInstructions && a != b ==>
              SummaryInstructions[a] != SummaryInstructions[b]
  {
    var s, m, d := SummaryInstructions[ShortKey], SummaryInstructions[MediumKey], SummaryInstructions[DetailedKey];
    assert |s| != |m| && |s| != |d| && |m| != |d|;
  }

  /** For one source text, different presets give different prompts. */
  lemma PresetsGiveDistinctPrompts(text: string, a: string, b: string)
    requires a in SummaryInstructions && b in SummaryInstructions && a != b
    ensures BuildPrompt(text, a) != BuildPrompt(text, b)
  {
    InstructionsDistinct();
  }

  /** Different source texts give different prompts for the same preset. */
  lemma PromptInjective(t1: string, t2: string, length: string)
    requires length in SummaryInstructions
    requires BuildPrompt(t1, length) == BuildPrompt(t2, length)
    ensures t1 == t2
  {
    SourceTextRoundTrip(t1, length);
    SourceTextRoundTrip(t2, length);
  }

  /** Every choice the selector offers, the default included, is a preset, so
      a prompt built from the selector never raises `KeyError`. */
  lemma OptionsArePresets(text: string)
    ensures DefaultOption < |LengthOptions| && LengthOptions[DefaultOption] == MediumKey
    ensures forall i :: 0 <= i < |LengthOptions| ==> BuildPrompt(text, LengthOptions[i]).Success?
    ensures forall k :: k in SummaryInstructions ==> k in LengthOptions
  {
  }
}
