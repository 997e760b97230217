/**
 * The `/chat` endpoint of the backend: strip the user's input, reject it when
 * empty, pick a canned visualization payload from keywords, ask the language
 * model for a reply, and build the response envelope.
 *
 * The language model is outside the model: `generate` stands for it and
 * answers either a reply text or a failure message.
 */
module ChatEndpoint {
  import opened Wrappers
  import opened Text
  import Json

  /** What the model call produced: `response.text`, or the exception's text. */
  datatype Outcome = Reply(text: string) | Failure(message: string)

  /** The HTTP result: a `ChatResponse` body, or an `HTTPException`. */
  datatype ChatResult =
    | Response(botResponse: string, visualizationData: Option<Json.Value>, responseType: string)
    | HttpError(status: int, detail: string)

  const EMPTY_INPUT_DETAIL: string := "Input cannot be empty."
  const FALLBACK_REPLY: string := "Sorry, I couldn't generate a response."
  const SERVICE_ERROR_PREFIX: string := "Error communicating with AI service: "
  const TRIGGERS: seq<string> := ["visualize", "show me", "draw"]

  /** Characters Python's `str.strip()` removes (`str.isspace`). */
  predicate IsPyWhitespace(c: char)
  {
    c == ' ' || ('\t' <= c <= '\r') || ('\U{1c}' <= c <= '\U{1f}') || c == '\U{85}' || c == '\U{a0}'
    || c == '\U{1680}' || ('\U{2000}' <= c <= '\U{200a}') || c == '\U{2028}' || c == '\U{2029}'
    || c == '\U{202f}' || c == '\U{205f}' || c == '\U{3000}'
  }

  function TrimStart(s: string): (r: string)
    ensures |r| <= |s| && r == s[|s| - |r|..]
    ensures r == [] || !IsPyWhitespace(r[0])
    ensures forall i :: 0 <= i < |s| - |r| ==> IsPyWhitespace(s[i])
  {
    if |s| > 0 && IsPyWhitespace(s[0]) then TrimStart(s[1..]) else s
  }

  function TrimEnd(s: string): (r: string)
    ensures |r| <= |s| && r == s[..|r|]
    ensures r == [] || !IsPyWhitespace(r[|r| - 1])
    ensures forall i :: |r| <= i < |s| ==> IsPyWhitespace(s[i])
  {
    if |s| > 0 && IsPyWhitespace(s[|s| - 1]) then TrimEnd(s[..|s| - 1]) else s
  }

  /** `str.strip()`: the input without leading and trailing whitespace. */
  function Strip(s: string): (r: string)
    ensures |r| <= |s|
    ensures r == [] || !IsPyWhitespace(r[|r| - 1])
  {
    TrimEnd(TrimStart(s))
  }

  /** The stripped text is a contiguous piece of the input with no whitespace at
      either end, and it is empty exactly when the input is all whitespace. */
  lemma StripSpec(s: string)
    ensures exists i :: OccursAt(s, Strip(s), i)
    ensures Strip(s) != [] ==> !IsPyWhitespace(Strip(s)[0]) && !IsPyWhitespace(Strip(s)[|Strip(s)| - 1])
    ensures Strip(s) == [] <==> forall i :: 0 <= i < |s| ==> IsPyWhitespace(s[i])
  {
    StripOccurs(s);
    StripFirst(s);
    StripEmpty(s);
  }

  /** The stripped text starts where the leading whitespace ends. */
  lemma StripOccurs(s: string)
    ensures OccursAt(s, Strip(s), |s| - |TrimStart(s)|)
  {
    var t := TrimStart(s);
    var r := TrimEnd(t);
    var k := |s| - |t|;
    assert t == s[k..] && r == t[..|r|];
    assert s[k..k + |r|] == r;
  }

  /** The stripped text does not start with whitespace. */
  lemma StripFirst(s: string)
    ensures Strip(s) != [] ==> !IsPyWhitespace(Strip(s)[0])
  {
    var t := TrimStart(s);
    var r := TrimEnd(t);
    if r != [] {
      assert r[0] == t[0];
    }
  }

  /** Stripping leaves nothing exactly when every character is whitespace. */
  lemma StripEmpty(s: string)
    ensures Strip(s) == [] <==> forall i :: 0 <= i < |s| ==> IsPyWhitespace(s[i])
  {
    var t := TrimStart(s);
    var k := |s| - |t|;
    if TrimEnd(t) == [] {
      assert t == [] && k == |s|;
    } else {
      assert t[0] == s[k] && 0 <= k < |s|;
    }
  }

  /** `str.lower()` on ASCII letters. */
  function LowerChar(c: char): char
  {
    if 'A' <= c <= 'Z' then (c as int + 32) as char else c
  }

  function Lower(s: string): (r: string)
    ensures |r| == |s|
    ensures forall i :: 0 <= i < |s| ==> r[i] == LowerChar(s[i])
  {
    if s == [] then [] else [LowerChar(s[0])] + Lower(s[1..])
  }

  /** `any(kw in text for kw in [...])`. */
  predicate HasTrigger(text: string)
  {
    exists kw :: kw in TRIGGERS && Contains(text, kw)
  }

  /** The trigger test asks for any one of the three phrases. */
  lemma TriggerPhrases(text: string)
    ensures HasTrigger(text) <==> Contains(text, "visualize") || Contains(text, "show me") || Contains(text, "draw")
  {
    assert TRIGGERS == ["visualize", "show me", "draw"];
  }

  /** Words put around a request never take its visualization intent away. */
  lemma TriggerInContext(text: string, pre: string, post: string)
    ensures HasTrigger(text) ==> HasTrigger(pre + text + post)
  {
    if HasTrigger(text) {
      var kw :| kw in TRIGGERS && Contains(text, kw);
      ContainsInContext(text, kw, pre, post);
    }
  }

  /** `generate_bubble_sort_data()`: the canned sorting payload. */
  function BubbleSortData(): (r: Json.Value)
    ensures Json.Get(r, "visualizationType") == Some(Json.Str("sorting"))
    ensures Json.PyTruthy(r)
  {
    Json.Obj([
      ("visualizationType", Json.Str("sorting")),
      ("algorithm", Json.Str("bubble_sort")),
      ("steps", Json.Arr([
        SortStep([5, 3, 8, 6], "Initial array"),
        SortStep([3, 5, 8, 6], "Step 1: Compare 5 and 3, swap"),
        SortStep([3, 5, 6, 8], "Step 2: Continue sorting..."),
        SortStep([3, 5, 6, 8], "Sorted array")]))])
  }

  function SortStep(a: seq<int>, message: string): Json.Value
  {
    Json.Obj([("array", Json.Arr(seq(|a|, i requires 0 <= i < |a| => Json.Num(a[i])))), ("message", Json.Str(message))])
  }

  function TreeNode(id: string, value: int, children: seq<string>): Json.Value
  {
    Json.Obj([
      ("id", Json.Str(id)),
      ("value", Json.Num(value)),
      ("children", Json.Arr(seq(|children|, i requires 0 <= i < |children| => Json.Str(children[i]))))])
  }

  /** `generate_binary_tree_data()`: the canned tree payload. */
  function BinaryTreeData(): (r: Json.Value)
    ensures Json.Get(r, "visualizationType") == Some(Json.Str("tree"))
    ensures Json.PyTruthy(r)
  {
    var f := [
      ("visualizationType", Json.Str("tree")),
      ("structure", Json.Str("binary_tree")),
      ("nodes", Json.Arr([
        TreeNode("A", 10, ["B", "C"]),
        TreeNode("B", 5, ["D", "E"]),
        TreeNode("C", 15, []),
        TreeNode("D", 2, []),
        TreeNode("E", 7, [])])),
      ("layout", Json.Str("hierarchical"))];
    assert Json.Get(Json.Obj(f[..1]), "visualizationType") == Some(Json.Str("tree"));
    assert f[..2][..1] == f[..1] && f[..3][..2] == f[..2] && f[..4][..3] == f[..3] && f[..4] == f;
    assert Json.Get(Json.Obj(f[..2]), "visualizationType") == Some(Json.Str("tree"));
    assert Json.Get(Json.Obj(f[..3]), "visualizationType") == Some(Json.Str("tree"));
    Json.Obj(f)
  }

  /**
   * The endpoint. `prompt` is the text handed to the language model, or `None`
   * when the model is not called.
   */
  method Chat(userInput: string, generate: string -> Outcome) returns (result: ChatResult, prompt: Option<string>)
    // an input that is empty after stripping is refused before the model is asked
    ensures Strip(userInput) == [] ==> result == HttpError(400, EMPTY_INPUT_DETAIL) && prompt == None
    // otherwise the model is asked with exactly the stripped input
    ensures Strip(userInput) != [] ==> prompt == Some(Strip(userInput))
    // a model failure is a 500 whatever payload had been chosen
    ensures Strip(userInput) != [] && generate(Strip(userInput)).Failure?
      ==> result == HttpError(500, SERVICE_ERROR_PREFIX + generate(Strip(userInput)).message)
    ensures Strip(userInput) != [] && generate(Strip(userInput)).Reply? ==> result.Response?
    // the reply text, with the fallback for an empty reply
    ensures result.Response? ==>
      result.botResponse == (if generate(Strip(userInput)).text == [] then FALLBACK_REPLY else generate(Strip(userInput)).text)
    // the payload is attached exactly on a trigger word plus a known subject, sorting first
    ensures result.Response? ==> var text := Lower(Strip(userInput));
      && (result.visualizationData.Some? <==>
            (Contains(text, "visualize") || Contains(text, "show me") || Contains(text, "draw"))
            && (Contains(text, "bubble sort") || Contains(text, "binary tree")))
      && (result.visualizationData.Some? && Contains(text, "bubble sort") ==> result.visualizationData == Some(BubbleSortData()))
      && (result.visualizationData.Some? && !Contains(text, "bubble sort") ==> result.visualizationData == Some(BinaryTreeData()))
    // the response type tells whether a payload is there
    ensures result.Response? ==>
      (result.responseType == "visualization" <==> result.visualizationData.Some?)
      && (result.visualizationData.None? <==> result.responseType == "text")
  {
    var input := Strip(userInput);
    if input == [] {
      return HttpError(400, EMPTY_INPUT_DETAIL), None;
    }
    var visualizationData: Option<Json.Value> := None;
    var requested := false;
    var lowered := Lower(input);
    TriggerPhrases(lowered);
    if HasTrigger(lowered) {
      if Contains(lowered, "bubble sort") {
        visualizationData := Some(BubbleSortData());
        requested := true;
      } else if Contains(lowered, "binary tree") {
        visualizationData := Some(BinaryTreeData());
        requested := true;
      }
    }
    prompt := Some(input);
    var outcome := generate(input);
    if outcome.Failure? {
      return HttpError(500, SERVICE_ERROR_PREFIX + outcome.message), prompt;
    }
    var text := outcome.text;
    if text == [] {
      text := FALLBACK_REPLY;
    }
    if requested && visualizationData.Some? && Json.PyTruthy(visualizationData.value) {
      result := Response(text, visualizationData, "visualization");
    } else {
      result := Response(text, None, "text");
    }
  }
}
