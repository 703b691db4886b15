# Contract checker request pipeline, in Dafny

A model of the back end of an AI contract checker (`backend/server.js`): an Express server
with two routes. `/upload` takes a PDF or DOCX file and answers with its plain text;
`/analyze` takes contract text, refuses text shorter than 50 characters, sends a fixed system
prompt and a templated user prompt to a language model, and turns the model's reply into a
JSON value by a three-step recovery (parse the reply; else parse the part from the first `{`
to the last `}`; else answer `{raw_output: reply}`).

Modules:

- `Wrappers` — `Option` and `Result`, for foreign calls that may throw.
- `JsonValues` — the JSON values the server sends and `JSON.parse` returns.
- `Prompt` — the system prompt and the user prompt, character for character, with lemmas
  that the contract text sits verbatim between two `"""` fences, that the prompt determines
  the text, and that the seven risk categories are listed in their fixed order. Both prompts
  are functions of the contract text alone, so composing them is deterministic.
- `Recovery` — the search for the first `{` and the last `}`, proved to be the match
  JavaScript reports for `/\{[\s\S]*\}/` (leftmost start, then greedy); the three-step
  recovery as a function and as the step-by-step method the handler runs; lemmas for each
  outcome, including the prose-wrapped example and the plain-text example.
- `Server` — the two handlers as methods that return the status and JSON body they send and
  the list of foreign calls they made (reading the file, decoding it, calling the model), so
  that "the file is never read" and "the model is never called" are statements about that list.

Foreign capabilities are parameters: `readFile` (the `fs.readFileSync` of the stored upload),
`pdfParse`, `extractRawText` (mammoth), `model` (the chat-completion call, returning the reply's
text or the thrown error's message) and `parse` (`JSON.parse`). A call that throws is `None` or
`Failure`.

The code never deletes the stored upload, accepts any JSON value from either parse step
without checking its shape, and never fills in a missing `risky_clauses`; the model states
none of these.

## Model

| member | source | states |
|---|---|---|
| Server.Upload | backend/server.js:28-55 | no file: 400 "No file uploaded." and nothing read; MIME type exactly `application/pdf` or exactly the DOCX type: read the file, decode with the matching decoder, answer 200 `{contractText: text}` with the text unchanged (also when empty), or 500 "File processing failed." as soon as reading or decoding throws; any other type: 400 "Unsupported file type." with nothing read |
| Server.AcceptedText | backend/server.js:67-69 | the text is accepted exactly when it is a string of at least 50 characters (exactly 50 passes), and is then passed on unchanged |
| Server.PassesCheckAsWritten | backend/server.js:67-69 | the check as written: a missing member is refused; a string passes exactly when it has at least 50 characters; a non-string passes exactly when it is truthy and its `.length < 50` is false |
| Server.ChecksAgreeOnStrings | backend/server.js:67-69 | for a missing member or any string, the check as written and the intended check give the same verdict |
| Server.NumberPassesCheckAsWritten | backend/server.js:67 | a truthy value whose `.length < 50` is false, such as the number 42, passes the check as written, though it is not text |
| Server.Analyze | backend/server.js:63-147 | text missing or under 50 characters: 400 "Contract text is too short." and no model call; otherwise exactly one model call with the system prompt and the user prompt of that text; a failed call gives 500 `{error: "Analysis failed.", details: message}`; a reply gives 200 with the recovered value |
| Prompt.UserPrompt | backend/server.js:78-112 | the user prompt is the fixed prefix (ending in the opening `"""`), then the contract text, then the fixed suffix (starting with the closing `"""`); its length is the sum of the three |
| Prompt.ContractTextFenced | backend/server.js:78-112 | the user prompt is prefix, text, suffix: its length is their sum, the text appears verbatim right after an opening `"""` and right before a closing `"""` |
| Prompt.UserPromptInjective | backend/server.js:78-112 | two texts with the same user prompt are equal |
| Prompt.CategoryInPrompt | backend/server.js:80-88 | each of the seven categories appears in every user prompt at a fixed position before the opening fence |
| Prompt.CategoriesInOrder | backend/server.js:82-88 | an earlier category of the list ends before a later one begins |
| Recovery.FirstIndexOf | backend/server.js:130 | the result is a position of the character, and no earlier position holds it; none exactly when the character is absent |
| Recovery.LastIndexOf | backend/server.js:130 | the result is a position of the character, and no later position holds it; none exactly when the character is absent |
| Recovery.BraceSpan | backend/server.js:130 | a span found runs from a `{` to a later `}` |
| Recovery.BraceSpanIsRegexMatch | backend/server.js:130-131 | the span found is the leftmost-then-longest match of `/\{[\s\S]*\}/`, and none is found exactly when the expression has no match |
| Recovery.BraceCandidate | backend/server.js:130 | the candidate exists exactly when a span does, is the contiguous substring of the span, starts with `{` and ends with `}` |
| Recovery.CandidateOfWrapped | backend/server.js:130-133 | with no `{` before and no `}` after a brace-delimited text, that text is the candidate |
| Recovery.CandidateIdempotent | backend/server.js:130 | extracting the candidate of a candidate gives it back |
| Recovery.Recovered | backend/server.js:126-140 | a reply that parses is the result as it is, with no check of its shape; otherwise the result is the parsed brace candidate or `{raw_output: reply}`; it is defined for every reply and every parser |
| Recovery.RecoverParsed | backend/server.js:125-140 | the value `parsed` ends with is the three-step recovery of the reply |
| Recovery.RecoveryOutcomes | backend/server.js:126-142 | recovery always yields a value: the reply parsed whole, or (the whole failing) a parsed regular-expression match, or (the whole failing) `{raw_output: reply}` |
| Recovery.RegexMatchWins | backend/server.js:129-133 | when the whole reply does not parse and its regular-expression match does, the result is the parsed match |
| Recovery.RawFallback | backend/server.js:134-139 | when neither the reply nor its match parses, the result is `{raw_output: reply}` with the reply unchanged |
| Recovery.RecoversWrappedObject | backend/server.js:129-133 | a JSON object surrounded by prose with no `{` before and no `}` after is recovered when it parses and the whole reply does not |
| Recovery.RecoversProseExample | backend/server.js:129-133 | `Here is the result: {"contract_summary":"ok","risky_clauses":[]} Thanks!` recovers the embedded object |
| Recovery.PlainTextComesBackRaw | backend/server.js:134-139 | `not json at all`, which does not parse, comes back as `{raw_output: "not json at all"}` |

## Left out

- HTTP wiring: Express, multer, CORS, body-parser, static files, dotenv, the exit on a missing API key and `app.listen` (backend/server.js:1-26, 57-61, 149-152) are framework set-up with no logic of their own.
- The stored upload is never deleted by the code, so the model states no clean-up.
- PDF and DOCX decoding are foreign libraries; they are the parameters `pdfParse` and `extractRawText`, which may fail.
- The model call is network I/O; it is the parameter `model`. The model name and `temperature: 0` are configuration. Reading `response.choices[0].message.content` is part of that call: a reply without choices throws and counts as a failed call; a `null` content (which `JSON.parse` turns into `null`) is not modelled.
- The JSON grammar: `JSON.parse` is the parameter `parse`. Numbers are reals, not doubles.
- `console.error` logging has no effect on the answer and is left out.
- String lengths count characters, where JavaScript counts UTF-16 code units.
- Server.Analyze: for a `contractText` that is not a string, the model rejects it with 400 (the intended check, see Findings), whereas the code as written lets some such values through and interpolates their string form into the prompt; that string conversion is not modelled.
- Server.Analyze: the error message of a failed call is always a string; when the thrown value has no `message`, the code omits `details`, which the model does not distinguish.
- The front end (`frontend/src/App.js`) is presentation only and is not part of this model.

## Findings

| source | as written | input that shows it | evidently intended | confidence | as-written member | corrected member |
|---|---|---|---|---|---|---|
| backend/server.js:67 | the length check rejects only falsy values and values whose `.length` is below 50, so a truthy non-string whose `.length` is undefined is let through and sent to the model | request body `{"contractText": 42}` (also `true` or `{}`) | only a string of at least 50 characters reaches the model | medium; not executed | Server.NumberPassesCheckAsWritten | Server.AcceptedText |
