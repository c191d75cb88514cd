/** `get_instructions`: the PlotChat system prompt, optionally followed by the user's instructions. */
module Prompts {
  import opened Text

  /** `PLOTCHAT_SYSTEM_PROMPT`, character for character (it starts and ends with a newline). */
  const SystemPrompt: string := @"
Your name is Plotly. You are an intelligent and analytical AI assistant integrated into the PlotChat platform — an AI-powered data visualization and analysis assistant built on top of PlotSense.

Your purpose is to help users explore, visualize, and understand their data easily through natural conversation. You can analyze user input, suggest visualization types, generate plots automatically, and explain their meanings clearly.

PlotSense supports three main modes of operation:

1. **Recommender** — Analyze a user's dataset or question and recommend suitable visualization types (e.g., scatter plot, bar chart, histogram, box plot, etc.). Explain why those charts fit the data or analysis goal.

2. **PlotGen** — Automatically generate plots from user data and instructions. You extract relevant variables, select the right visualization, and use PlotSense’s `plotgen()` function to render the chart. Be precise about variable selection and chart intent.

3. **Explainer** — Interpret and explain plots that have already been generated. Describe what the visualization shows, highlight patterns, correlations, or outliers, and help the user understand data insights. Provide interpretations that are clear and human-like — avoid generic commentary.

You can handle all types of data (numeric, categorical, text-based, or time series) and work across use cases such as analytics, research, and reporting.

When unsure about user intent or missing data, ask for clarification instead of guessing. Always explain your reasoning in simple, intuitive language with examples if needed.

Be professional yet friendly, concise but clear. You aim to make data analysis feel effortless and interactive.

Additionally, you are a conversational AI and have access to the ongoing chat history within this session. Use this context to make your responses relevant, connected, and aware of prior discussions.
"

  /** The separator put between the system prompt and the user's instructions. */
  const PreText: string := "\n\n---\nHere are additional instructions provided by the user:\n"

  predicate Blank(s: string) { Strip(s) == [] }

  /** `"- " + s.strip()` for every instruction that is not blank, in order. */
  function FormattedInstructions(instructions: seq<string>): (r: seq<string>)
    ensures |r| <= |instructions|
    ensures forall k :: 0 <= k < |r| ==> StartsWith(r[k], "- ") && r[k][2..] != [] && Stripped(r[k][2..])
    ensures r == [] <==> forall k :: 0 <= k < |instructions| ==> Blank(instructions[k])
  {
    if instructions == [] then []
    else
      var rest := FormattedInstructions(instructions[1..]);
      assert forall k :: 1 <= k < |instructions| ==> instructions[k] == instructions[1..][k - 1];
      if Blank(instructions[0]) then rest
      else
        var line := "- " + Strip(instructions[0]);
        assert line[2..] == Strip(instructions[0]);
        [line] + rest
  }

  /** Formatting one more instruction adds at most its own line, at the end. */
  lemma {:induction false} FormattedInstructionsAppend(instructions: seq<string>, x: string)
    ensures FormattedInstructions(instructions + [x])
      == FormattedInstructions(instructions) + (if Blank(x) then [] else ["- " + Strip(x)])
  {
    if instructions != [] {
      assert (instructions + [x])[1..] == instructions[1..] + [x];
      FormattedInstructionsAppend(instructions[1..], x);
    } else {
      assert FormattedInstructions([x]) == (if Blank(x) then [] else ["- " + Strip(x)]) + FormattedInstructions([]);
    }
  }

  /**
   * `get_instructions(user_instructions)`: the system prompt alone for an empty list.
   * Otherwise the system prompt and the separator, even when every instruction is blank,
   * followed by the formatted instructions; when no instruction has a line break inside
   * it, the text after the separator splits on newlines into exactly one `"- " + strip`
   * line per non-blank instruction, in order.
   */
  function GetInstructions(userInstructions: seq<string>): (r: string)
    ensures StartsWith(r, SystemPrompt)
    ensures userInstructions == [] ==> r == SystemPrompt
    ensures userInstructions != [] ==> StartsWith(r, SystemPrompt + PreText)
    ensures userInstructions != [] && (forall k :: 0 <= k < |userInstructions| ==> Blank(userInstructions[k])) ==>
      r == SystemPrompt + PreText
    ensures (exists k :: 0 <= k < |userInstructions| && !Blank(userInstructions[k]))
            && (forall k :: 0 <= k < |userInstructions| ==> '\n' !in userInstructions[k]) ==>
      Split(r[|SystemPrompt + PreText|..], "\n") == FormattedInstructions(userInstructions)
  {
    if userInstructions == [] then
      assert SystemPrompt[..|SystemPrompt|] == SystemPrompt;
      SystemPrompt
    else
      var body := Join(FormattedInstructions(userInstructions), "\n");
      PrefixOfAppend(SystemPrompt, PreText, body);
      BodyLines(userInstructions);
      var r := SystemPrompt + PreText + body;
      assert r[|SystemPrompt + PreText|..] == body;
      r
  }

  lemma PrefixOfAppend(a: string, b: string, c: string)
    ensures StartsWith(a + b + c, a) && StartsWith(a + b + c, a + b)
  {
    assert (a + b + c)[..|a|] == a;
    assert (a + b + c)[..|a + b|] == a + b;
  }

  /** The formatted lines, joined by newlines, split back into themselves. */
  lemma BodyLines(userInstructions: seq<string>)
    ensures (exists k :: 0 <= k < |userInstructions| && !Blank(userInstructions[k]))
            && (forall k :: 0 <= k < |userInstructions| ==> '\n' !in userInstructions[k]) ==>
      Split(Join(FormattedInstructions(userInstructions), "\n"), "\n") == FormattedInstructions(userInstructions)
  {
    if (exists k :: 0 <= k < |userInstructions| && !Blank(userInstructions[k]))
       && (forall k :: 0 <= k < |userInstructions| ==> '\n' !in userInstructions[k])
    {
      NoNewlineInFormatted(userInstructions);
      SplitJoin(FormattedInstructions(userInstructions), '\n');
    }
  }

  lemma {:induction false} NoNewlineInFormatted(instructions: seq<string>)
    requires forall k :: 0 <= k < |instructions| ==> '\n' !in instructions[k]
    ensures forall k :: 0 <= k < |FormattedInstructions(instructions)| ==> '\n' !in FormattedInstructions(instructions)[k]
  {
    if instructions != [] {
      NoNewlineInFormatted(instructions[1..]);
      if !Blank(instructions[0]) {
        var s := Strip(instructions[0]);
        assert '\n' !in s;
        assert '\n' !in "- " + s;
      }
    }
  }
}
