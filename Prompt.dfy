/** The two prompts the `/analyze` handler sends to the language model
    (backend/server.js, the `systemPrompt` and `userPrompt` template literals).
    Both are pure: the system prompt is a constant and the user prompt depends on the
    contract text alone. The user prompt is a fixed prefix, the contract text, and a
    fixed suffix; the prefix ends and the suffix begins with a triple-quote fence. */
module Prompt {

  /** The fixed system prompt, character for character (including the trailing blanks
      at the end of its first two lines and the indentation of the closing line). */
  const SystemPrompt: string :=
    "\n"
    + "      You are an expert contract analyst trained in legal risk spotting. \n"
    + "      Your role is NOT to give legal advice but to highlight potential risks in contracts \n"
    + "      and explain them in clear, plain English so a non-lawyer can understand.\n"
    + "      Always respond with structured JSON so the results can be parsed by software.\n"
    + "    "

  /** The seven risk categories, in the order the user prompt lists them. */
  const Categories: seq<string> := [
    "Termination",
    "Liability / Indemnification",
    "Intellectual Property",
    "Payment Terms",
    "Confidentiality / Non-Compete",
    "Governing Law / Dispute Resolution",
    "Other Unusual Clauses"
  ]

  /** The delimiter placed on both sides of the contract text. */
  const Fence: string := "\"\"\""

  /** The lines of the user prompt before the category list. */
  const Intro: string :=
    "\n"
    + "      Analyze the following contract. \n"
    + "      Identify clauses that may create risks for the user in the following categories:\n"
    + "\n"

  /** How each category line of the user prompt begins. */
  const Bullet: string := "      - "

  /** The lines of the user prompt between the category list and the opening fence. */
  const Instructions: string :=
    "\n"
    + "      For each risky clause you find:\n"
    + "      1. Quote the exact clause text.\n"
    + "      2. Label which category it belongs to.\n"
    + "      3. Explain in plain English why this clause could be risky (max 3 sentences).\n"
    + "      4. Rate the severity as: Low / Medium / High.\n"
    + "\n"
    + "      Return your results in JSON with this structure:\n"
    + "\n"
    + "      {\n"
    + "        \"contract_summary\": \"One-paragraph plain English summary of overall contract tone and risk level.\",\n"
    + "        \"risky_clauses\": [\n"
    + "          {\n"
    + "            \"category\": \"Liability\",\n"
    + "            \"clause_text\": \"...\",\n"
    + "            \"risk_explanation\": \"...\",\n"
    + "            \"severity\": \"High\"\n"
    + "          }\n"
    + "        ]\n"
    + "      }\n"
    + "\n"
    + "      Contract Text:\n"
    + "      "

  /** One bulleted line per category, in order. */
  function CategoryLines(cats: seq<string>): (lines: string)
  {
    if cats == [] then "" else Bullet + cats[0] + "\n" + CategoryLines(cats[1..])
  }

  /** Everything in the user prompt before the contract text; it ends with the opening fence. */
  const UserPrefix: string := Intro + CategoryLines(Categories) + Instructions + Fence

  /** Everything in the user prompt after the contract text; it begins with the closing fence. */
  const UserSuffix: string := Fence + "\n    "

  /** The user prompt for a contract text: the fixed prefix, the text, the fixed suffix. */
  function UserPrompt(contractText: string): (p: string)
    ensures |p| == |UserPrefix| + |contractText| + |UserSuffix|
    ensures p[..|UserPrefix|] == UserPrefix && p[|UserPrefix| + |contractText|..] == UserSuffix
  {
    UserPrefix + contractText + UserSuffix
  }

  /** The contract text appears verbatim in its user prompt, fenced on both sides. */
  lemma ContractTextFenced(contractText: string)
    ensures |UserPrompt(contractText)| == |UserPrefix| + |contractText| + |UserSuffix|
    ensures |Fence| <= |UserPrefix| && UserPrompt(contractText)[|UserPrefix| - |Fence| .. |UserPrefix|] == Fence
    ensures UserPrompt(contractText)[|UserPrefix| .. |UserPrefix| + |contractText|] == contractText
    ensures UserPrompt(contractText)[|UserPrefix| + |contractText| .. |UserPrefix| + |contractText| + |Fence|] == Fence
  {
  }

  /** Different contract texts give different user prompts: the prompt determines the text. */
  lemma {:induction false} UserPromptInjective(a: string, b: string)
    requires UserPrompt(a) == UserPrompt(b)
    ensures a == b
  {
    var n := |UserPrefix|;
    ContractTextFenced(a);
    ContractTextFenced(b);
    calc {
      a;
      UserPrompt(a)[n .. n + |a|];
      UserPrompt(b)[n .. n + |b|];
      b;
    }
  }

  /** Offset in `CategoryLines(cats)` at which the line of category `k` starts. */
  function LineStart(cats: seq<string>, k: nat): (offset: nat)
    requires k <= |cats|
  {
    if k == 0 then 0 else |Bullet| + |cats[0]| + 1 + LineStart(cats[1..], k - 1)
  }

  /** Category `k` stands right after its bullet, and the next line starts right after it. */
  lemma {:induction false} CategoryLineAt(cats: seq<string>, k: nat)
    requires k < |cats|
    ensures LineStart(cats, k) + |Bullet| + |cats[k]| + 1 <= |CategoryLines(cats)|
    ensures CategoryLines(cats)[LineStart(cats, k) + |Bullet| .. LineStart(cats, k) + |Bullet| + |cats[k]|] == cats[k]
    ensures LineStart(cats, k + 1) == LineStart(cats, k) + |Bullet| + |cats[k]| + 1
  {
    var head := Bullet + cats[0] + "\n";
    var rest := CategoryLines(cats[1..]);
    assert CategoryLines(cats) == head + rest;
    if k == 0 {
      assert (head + rest)[|Bullet| .. |Bullet| + |cats[0]|] == head[|Bullet| .. |Bullet| + |cats[0]|];
    } else {
      CategoryLineAt(cats[1..], k - 1);
      var s := LineStart(cats[1..], k - 1) + |Bullet|;
      assert (head + rest)[|head| + s .. |head| + s + |cats[k]|] == rest[s .. s + |cats[k]|];
    }
  }

  /** A slice of the middle part of a concatenation. */
  lemma SliceOfMiddle(x: string, y: string, z: string, i: nat, j: nat)
    requires i <= j <= |y|
    ensures (x + y + z)[|x| + i .. |x| + j] == y[i .. j]
  {
  }

  /** Lines further down the list start further on. */
  lemma {:induction false} LineStartMonotone(cats: seq<string>, i: nat, j: nat)
    requires i <= j <= |cats|
    ensures LineStart(cats, i) <= LineStart(cats, j)
  {
    if i > 0 {
      LineStartMonotone(cats[1..], i - 1, j - 1);
    }
  }

  /** In a prompt made of some lines, the category lines of a list, and further text, every
      category of the list stands, after its bullet, at its offset. The caller names the
      position and the category, so that at a call the conclusion is its own goal word for word. */
  lemma {:induction false} CategoryAtPosition(prefix: string, prompt: string, intro: string,
                                              cats: seq<string>, instructions: string, fence: string,
                                              contractText: string, suffix: string,
                                              k: nat, pos: nat, cat: string)
    requires k < |cats| && cat == cats[k]
    requires prefix == intro + CategoryLines(cats) + instructions + fence
    requires prompt == prefix + contractText + suffix
    requires pos == |intro| + LineStart(cats, k) + |Bullet|
    ensures pos + |cat| <= |prefix| - |fence|
    ensures prompt[pos .. pos + |cat|] == cat
  {
    CategoryLineAt(cats, k);
    var s := LineStart(cats, k) + |Bullet|;
    SliceOfMiddle(intro, CategoryLines(cats), instructions + fence + contractText + suffix, s, s + |cat|);
    assert prompt == intro + CategoryLines(cats) + (instructions + fence + contractText + suffix);
  }

  /** Position in every user prompt at which the name of category `k` starts. */
  function CategoryPos(k: nat): (pos: nat)
    requires k < |Categories|
  {
    |Intro| + LineStart(Categories, k) + |Bullet|
  }

  /** Category `k` appears in the user prompt at `CategoryPos(k)`, before the opening fence,
      whatever the contract text is. */
  lemma CategoryInPrompt(contractText: string, k: nat)
    requires k < |Categories|
    ensures CategoryPos(k) + |Categories[k]| <= |UserPrefix| - |Fence|
    ensures UserPrompt(contractText)[CategoryPos(k) .. CategoryPos(k) + |Categories[k]|] == Categories[k]
  {
    CategoryAtPosition(UserPrefix, UserPrompt(contractText), Intro, Categories, Instructions, Fence,
                       contractText, UserSuffix, k, CategoryPos(k), Categories[k]);
  }

  /** The categories are listed in their fixed order: an earlier category ends before a later one starts. */
  lemma CategoriesInOrder(i: nat, j: nat)
    requires i < j < |Categories|
    ensures CategoryPos(i) + |Categories[i]| < CategoryPos(j)
  {
    CategoryLineAt(Categories, i);
    LineStartMonotone(Categories, i + 1, j);
  }
}
