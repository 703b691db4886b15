/** Recovery of a JSON value from the language model's reply (backend/server.js, the
    "Robust JSON parsing" block of the `/analyze` handler). Three steps, first success wins:
    parse the whole reply; otherwise parse the first match of the regular expression
    /\{[\s\S]*\}/, which runs from the first `{` to the last `}` after it; otherwise
    wrap the reply, unchanged, as `{raw_output: reply}`.
    `JSON.parse` is a parameter `parse` that yields `None` where it would throw. */
module Recovery {
  import opened Wrappers
  import opened JsonValues

  /** Index of the first occurrence of `c` in `s`, if any. */
  function FirstIndexOf(s: string, c: char): (r: Option<nat>)
    ensures r.Some? ==> r.value < |s| && s[r.value] == c
    ensures forall k :: 0 <= k < |s| && s[k] == c ==> r.Some? && r.value <= k
  {
    if s == [] then None
    else if s[0] == c then Some(0)
    else match FirstIndexOf(s[1..], c)
      case None => None
      case Some(i) => Some(i + 1)
  }

  /** Index of the last occurrence of `c` in `s`, if any. */
  function LastIndexOf(s: string, c: char): (r: Option<nat>)
    ensures r.Some? ==> r.value < |s| && s[r.value] == c
    ensures forall k :: 0 <= k < |s| && s[k] == c ==> r.Some? && k <= r.value
  {
    if s == [] then None
    else if s[|s| - 1] == c then Some(|s| - 1)
    else
      var init := s[..|s| - 1];
      assert forall k :: 0 <= k < |init| ==> init[k] == s[k];
      LastIndexOf(init, c)
  }

  /** `s[i..j + 1]` is a match of /\{[\s\S]*\}/: a `{`, any characters, then a `}`. */
  ghost predicate MatchesAt(s: string, i: int, j: int)
  {
    0 <= i < j < |s| && s[i] == '{' && s[j] == '}'
  }

  /** The match that JavaScript's `String.prototype.match` reports for /\{[\s\S]*\}/:
      the leftmost starting position that has a match, and from there the longest match,
      since `[\s\S]*` is greedy. */
  ghost predicate IsRegexMatch(s: string, i: int, j: int)
  {
    && MatchesAt(s, i, j)
    && (forall i', j' :: MatchesAt(s, i', j') ==> i <= i')
    && (forall j' :: MatchesAt(s, i, j') ==> j' <= j)
  }

  /** The bounds (inclusive) of the brace-delimited candidate: the first `{` and the last `}`,
      when the latter comes after the former. */
  function BraceSpan(s: string): (r: Option<(nat, nat)>)
    ensures r.Some? ==> MatchesAt(s, r.value.0, r.value.1)
  {
    match (FirstIndexOf(s, '{'), LastIndexOf(s, '}'))
    case (Some(i), Some(j)) => if i < j then Some((i, j)) else None
    case _ => None
  }

  /** The brace search computes exactly the regular expression's match, and finds none
      exactly when the expression has no match at all. */
  lemma BraceSpanIsRegexMatch(s: string)
    ensures BraceSpan(s).Some? ==> IsRegexMatch(s, BraceSpan(s).value.0, BraceSpan(s).value.1)
    ensures BraceSpan(s).None? <==> forall i, j :: !MatchesAt(s, i, j)
  {
  }

  /** The substring the recovery tries to parse in its second step, if there is one. */
  function BraceCandidate(s: string): (r: Option<string>)
    ensures r.Some? ==> 2 <= |r.value| && r.value[0] == '{' && r.value[|r.value| - 1] == '}'
    ensures r.Some? <==> BraceSpan(s).Some?
    ensures r.Some? ==> r.value == s[BraceSpan(s).value.0 .. BraceSpan(s).value.1 + 1]
  {
    match BraceSpan(s)
    case Some((i, j)) => Some(s[i..j + 1])
    case None => None
  }

  /** Prose around a JSON object: text without `{` before it and text without `}` after it
      leave the object itself as the candidate. */
  lemma {:induction false} CandidateOfWrapped(before: string, embedded: string, after: string)
    requires '{' !in before && '}' !in after
    requires 2 <= |embedded| && embedded[0] == '{' && embedded[|embedded| - 1] == '}'
    ensures BraceCandidate(before + embedded + after) == Some(embedded)
  {
    var s := before + embedded + after;
    var i, j := |before|, |before| + |embedded| - 1;
    assert s[i] == '{' && s[j] == '}';
    assert forall k :: 0 <= k < i ==> s[k] == before[k];
    assert forall k :: j < k < |s| ==> s[k] == after[k - |before| - |embedded|];
    assert s[i..j + 1] == embedded;
  }

  /** The candidate is its own candidate: a second extraction changes nothing. */
  lemma CandidateIdempotent(s: string)
    requires BraceCandidate(s).Some?
    ensures BraceCandidate(BraceCandidate(s).value) == BraceCandidate(s)
  {
    var c := BraceCandidate(s).value;
    CandidateOfWrapped("", c, "");
    assert "" + c + "" == c;
  }

  /** The `{raw_output: output}` object of the last step. */
  function RawOutput(output: string): (r: Json)
  {
    JObject([("raw_output", JString(output))])
  }

  /** The value the three-step recovery produces from a reply: a reply that parses is taken
      as it is; otherwise the result is the parsed candidate or, failing that, the reply
      itself under `raw_output`. It is defined for every reply and every parser. */
  function Recovered(output: string, parse: string -> Option<Json>): (r: Json)
    ensures parse(output).Some? ==> r == parse(output).value
    ensures parse(output).None? ==>
      || r == RawOutput(output)
      || (BraceCandidate(output).Some? && parse(BraceCandidate(output).value) == Some(r))
  {
    match parse(output)
    case Some(v) => v
    case None =>
      match BraceCandidate(output)
      case None => RawOutput(output)
      case Some(candidate) =>
        match parse(candidate)
        case Some(v) => v
        case None => RawOutput(output)
  }

  /** The recovery as the handler performs it, assigning `parsed` step by step. */
  method RecoverParsed(output: string, parse: string -> Option<Json>) returns (parsed: Json)
    ensures parsed == Recovered(output, parse)
  {
    var direct := parse(output);
    if direct.Some? {
      parsed := direct.value;
    } else {
      var match0 := BraceCandidate(output);
      if match0.Some? {
        var inner := parse(match0.value);
        if inner.Some? {
          parsed := inner.value;
        } else {
          parsed := RawOutput(output);
        }
      } else {
        parsed := RawOutput(output);
      }
    }
  }

  /** Recovery never fails and yields one of three things: the reply parsed whole, a parsed
      match of the regular expression, or the reply itself, verbatim, under `raw_output`. */
  lemma RecoveryOutcomes(output: string, parse: string -> Option<Json>)
    ensures var r := Recovered(output, parse);
      || parse(output) == Some(r)
      || (parse(output).None? && exists i, j :: IsRegexMatch(output, i, j) && parse(output[i..j + 1]) == Some(r))
      || (r == RawOutput(output) && parse(output).None?)
  {
    BraceSpanIsRegexMatch(output);
  }

  /** When the direct parse fails, a match of the regular expression that parses is the result. */
  lemma RegexMatchWins(output: string, parse: string -> Option<Json>, i: int, j: int)
    requires parse(output).None?
    requires IsRegexMatch(output, i, j) && parse(output[i..j + 1]).Some?
    ensures Recovered(output, parse) == parse(output[i..j + 1]).value
  {
  }

  /** When neither the reply nor a match of the regular expression parses, the result is
      the reply itself, unchanged, under `raw_output`. */
  lemma RawFallback(output: string, parse: string -> Option<Json>)
    requires parse(output).None?
    requires forall i, j :: IsRegexMatch(output, i, j) ==> parse(output[i..j + 1]).None?
    ensures Recovered(output, parse) == RawOutput(output)
  {
    BraceSpanIsRegexMatch(output);
  }

  /** A JSON object wrapped in prose, with no `{` before it and no `}` after it, is recovered
      when the whole reply does not parse but the object does. */
  lemma RecoversWrappedObject(before: string, embedded: string, after: string, parse: string -> Option<Json>)
    requires '{' !in before && '}' !in after
    requires 2 <= |embedded| && embedded[0] == '{' && embedded[|embedded| - 1] == '}'
    requires parse(before + embedded + after).None? && parse(embedded).Some?
    ensures Recovered(before + embedded + after, parse) == parse(embedded).value
  {
    CandidateOfWrapped(before, embedded, after);
  }

  /** The reply `Here is the result: {"contract_summary":"ok","risky_clauses":[]} Thanks!`
      yields the embedded object, given that `JSON.parse` rejects the whole reply and accepts
      the object. */
  lemma RecoversProseExample(parse: string -> Option<Json>)
    requires parse("Here is the result: " + "{\"contract_summary\":\"ok\",\"risky_clauses\":[]}" + " Thanks!").None?
    requires parse("{\"contract_summary\":\"ok\",\"risky_clauses\":[]}").Some?
    ensures Recovered("Here is the result: " + "{\"contract_summary\":\"ok\",\"risky_clauses\":[]}" + " Thanks!", parse)
            == parse("{\"contract_summary\":\"ok\",\"risky_clauses\":[]}").value
  {
    RecoversWrappedObject("Here is the result: ", "{\"contract_summary\":\"ok\",\"risky_clauses\":[]}", " Thanks!", parse);
  }

  /** A reply with no brace at all that does not parse comes back verbatim under `raw_output`. */
  lemma PlainTextComesBackRaw(parse: string -> Option<Json>)
    requires parse("not json at all").None?
    ensures Recovered("not json at all", parse) == RawOutput("not json at all")
  {
    assert '{' !in "not json at all";
  }
}
