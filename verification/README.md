# Marketing-post API core, modelled in Dafny

The service turns a topic (`tema`) into a prompt and sends it to a generative
language model. It strips markdown code fences from the reply and returns what
is left as a JSON-typed HTTP body. This project models the three pieces of
`app.py` that are pure logic and proves properties about them:

- **Reply cleanup** (`Cleanup`, line 57). The reply is stripped of surrounding
  whitespace with `str.strip()`. Then every `` ```json `` is deleted, and after
  that every `` ``` ``. The `Text` module models Python's `str.strip()` and
  `str.replace` (leftmost, non-overlapping matches) on `seq<char>`. It also
  defines substring search (`Contains`) and the subsequence order.
- **Prompt builder** (`PromptBuilder`, lines 44-53). The f-string template,
  character for character, with the topic put in verbatim.
- **`POST /gerar-post`** (`Endpoint`, lines 70-81, together with
  `gerar_post_instagram`, lines 40-61). A pure function from the parsed body
  and the model client to one of `BadRequest`, `ServerError` or `Ok(body)`.

The model client is a parameter of type `string -> Option<string>`. It maps a
prompt to the reply text, and `None` stands for any exception the call raises.
The statement "the model is not consulted" is written as "the response does
not depend on the client".

Three consequences of line 57 are easy to get wrong:

- One might expect a fenced reply `` ```json\n{...}\n``` `` to come back as
  exactly `{...}`. The code strips whitespace *before* it deletes the fences,
  so the newlines inside the fences survive and the body is `\n{...}\n`
  (`Cleanup.FencedReplyKeepsInnerNewlines`, `Endpoint.FencedReplyIsForwarded`).
- A reply made only of fences becomes the empty string, and the handler then
  answers 500. This holds only when the whitespace is *outside* the fences
  (`Cleanup.FenceOnlyReplyCleansToEmpty`). Whitespace between the fences
  survives (`Cleanup.WhitespaceBetweenFencesSurvives`): `` ```json\n``` ``
  cleans to `"\n"`. That string is truthy, so the handler answers 200 with a
  body that is only whitespace (`Endpoint.FencedWhitespaceIsForwarded`,
  `Endpoint.JsonFenceNewlineFenceIsForwarded`).
- The deletions can remove characters that belong to no fence of the raw
  reply. In `` `````json` `` (two backticks, `` ```json ``, one backtick) the
  first `replace` glues the three remaining backticks into a new `` ``` ``,
  which the second `replace` deletes; the reply cleans to the empty string
  (`Cleanup.GluedFenceIsDeleted`). Cleanup drops only the surrounding
  whitespace exactly when the reply holds no `` ``` `` (`Cleanup.CleanIsTrimIffNoFence`).

## Model

| member | source | states |
|---|---|---|
| Text.IsWhitespace | app.py:57 | The characters `str.isspace` accepts, and so the ones `strip()` removes: the ASCII controls 9-13 and 28-31, space, U+0085, U+00A0, U+1680, U+2000-U+200A, U+2028, U+2029, U+202F, U+205F and U+3000 |
| Text.Trim | app.py:57 | `strip()` returns the contiguous middle of the reply. Everything cut off on either side is whitespace. The result is empty exactly when the reply is all whitespace; otherwise it neither starts nor ends with whitespace |
| Text.TrimOfPadded | app.py:57 | Reference characterisation of `strip()`: surround with whitespace a string that is empty or has non-whitespace ends, and stripping gives that string back |
| Text.ReplaceAll | app.py:57 | `str.replace(old, new)`. Deleting a non-empty pattern, or replacing it with text no longer than it, never makes the string longer. Leftmost, non-overlapping matching is stated by the next two rows |
| Text.ReplaceAllFirstMatch | app.py:57 | `replace` is leftmost and non-overlapping. The text before the first occurrence is kept, that occurrence is replaced, and the scan resumes right after it |
| Text.ReplaceAllAbsent | app.py:57 | `replace` changes nothing when the pattern does not occur |
| Text.DeletionIsSubsequence | app.py:57 | Deleting every occurrence of a pattern keeps the other characters in their order |
| Cleanup.StripFences | app.py:57 | The two `replace` calls in source order, `` ```json `` first. The result holds no `` ``` `` and is a subsequence of its input |
| Cleanup.Clean | app.py:57 | The cleaned reply never contains `` ``` ``. It is a subsequence of the raw reply and never longer than it |
| Cleanup.FenceDeletionLeavesNone | app.py:57 | Deleting every `` ``` `` leftmost-first never creates a new `` ``` `` from the pieces left behind |
| Cleanup.StripFencesIdempotent | app.py:57 | Applying the two `replace` calls a second time changes nothing |
| Cleanup.CleanedReplyHasNothingToStrip | app.py:57 | A cleaned reply passes through both `replace` calls unchanged |
| Cleanup.FencedReplyKeepsInnerNewlines | app.py:57 | For `` ```json\n<x>\n``` `` with surrounding whitespace, where x is any text holding no `` ``` `` (inline backticks allowed), the result is `\n<x>\n`. Trimming comes first, so the inner newlines survive and `json` leaves with its fence |
| Cleanup.InnerFenceIsDeleted | app.py:57 | A `` ``` `` in the middle of legitimate content is deleted too (blind substring removal) |
| Cleanup.FenceOnlyReplyCleansToEmpty | app.py:57 | A reply made only of `` ``` ``/`` ```json `` markers, with whitespace only around them, cleans to the empty string |
| Cleanup.CleanIsTrimIffNoFence | app.py:57 | For every reply, cleanup drops only the surrounding whitespace if and only if the reply holds no `` ``` ``: otherwise some fence lies inside the stripped text and is deleted |
| Cleanup.GluedFenceIsDeleted | app.py:57 | `` `````json` `` cleans to the empty string, although its last backtick lies in no `` ``` `` and no `` ```json `` occurrence of the raw reply: the second `replace` deletes a fence the first one glued together |
| Cleanup.WhitespaceBetweenFencesSurvives | app.py:57 | `` ```json `` + w + `` ``` `` with w all whitespace, padded by whitespace, cleans to w: stripping happens before the fences go |
| Cleanup.PlainReplyUnchanged | app.py:57 | A reply with no `` ``` `` and no surrounding whitespace is returned unchanged |
| PromptBuilder.Prompt | app.py:44-53 | The prompt holds the topic verbatim, as one contiguous piece, right after the fixed preamble. Its length is the topic's length plus the template's |
| PromptBuilder.TopicOfPrompt | app.py:44-46 | The topic can be read back out of its prompt |
| PromptBuilder.TopicOfOnlyPrompts | app.py:44-53 | Every text the topic reader accepts is the prompt of the topic it returns |
| PromptBuilder.PromptInjective | app.py:44-53 | Different topics give different prompts, because no escaping merges them |
| PromptBuilder.PromptNamesFields | app.py:49-52 | For every topic, the prompt names the three requested fields `"legenda"`, `"hashtags"` and `"sugestao_imagem"` |
| Endpoint.Truthy | app.py:78 | Python truthiness of the generation result: `None` and `""` are false, every other string is true |
| Endpoint.Response.Status | app.py:73-81 | The status code of each outcome: 400 for the missing topic (line 73), 500 for failed generation (line 81), 200 for success (line 79) |
| Endpoint.Response.ContentType | app.py:73-81 | The success path sets `application/json; charset=utf-8` explicitly; the error paths carry `jsonify`'s `application/json` |
| Endpoint.GeneratePost | app.py:54-61 | Generation fails exactly when the model call fails. A successful result holds no `` ``` ``, is a subsequence of the reply, and is the stripped reply exactly when the reply holds no `` ``` ``. That it is exactly the cleaned reply is stated by `Endpoint.HandleGerarPost` |
| Endpoint.HandleGerarPost | app.py:70-81 | 400 exactly when the body or `tema` is missing, with the required-field message. Otherwise the answer is 200 with the cleaned reply exactly when the model answered and the cleaned text is non-empty, and 500 with the generation-failed message in every other case |
| Endpoint.MissingTopicSkipsModel | app.py:71-73 | With no body or no `tema`, the response is the same 400 for every model client, so generation is never invoked |
| Endpoint.ModelSeesOnlyTopicPrompt | app.py:72-76 | `tema` is only checked for presence. The response depends on the model only through its reply to `Prompt(tema)`, with `tema` unchanged |
| Endpoint.EmptyTopicReachesModel | app.py:72-76 | An empty `tema` is not refused. It is answered with 200 exactly when the model's reply to its prompt cleans to non-empty text |
| Endpoint.FailedCallIsServerError | app.py:78-81 | A failed model call gives 500 with the generation-failed message |
| Endpoint.FenceOnlyReplyIsServerError | app.py:78-81 | A reply made only of fences and surrounding whitespace is falsy after cleanup and gives 500 |
| Endpoint.FencedReplyIsForwarded | app.py:78-79 | A fenced reply `` ```json\n<x>\n``` ``, where x is any text holding no `` ``` ``, gives 200 with a JSON content type and body `\n<x>\n`. The body is not validated as JSON |
| Endpoint.FencedWhitespaceIsForwarded | app.py:78-79 | A reply `` ```json `` + w + `` ``` `` with w non-empty whitespace gives 200 with the body w |
| Endpoint.JsonFenceNewlineFenceIsForwarded | app.py:78-79 | The reply `` ```json\n``` `` gives 200 with the body `"\n"` |
| Endpoint.PlainReplyIsForwarded | app.py:78-79 | A non-empty reply with no `` ``` `` and no surrounding whitespace is forwarded verbatim with 200, whether or not it is JSON |

## Left out

- The model client's setup and the call itself (app.py lines 23 and 31-34, and line 55) go to an external network service. The client is a parameter. Its exceptions, including a failure to read `response.text`, all appear as `None`.
- Generation settings (lines 25-30): floating-point values passed to a foreign library, with no logic attached.
- Reading the API key and port from the environment, and refusing to start without the key (lines 16-21 and 113-120): process configuration.
- Flask routing, the `GET /` HTML page (lines 65-67) and `request.get_json()` (line 71): framework plumbing. The body arrives as what `get_json()` returned: `None` (a JSON `null` body) or a map from member names to values.
- The rejections `get_json()` raises itself (line 71): a request without a JSON content type (415 in current Flask, 400 in Flask 2.1-2.2) or with unparsable JSON (400). They happen before line 72, with Flask's own error page rather than the required-field message, and are not modelled. Flask before 2.1 returned `None` for a non-JSON request instead, which the model's `None` body covers.
- Endpoint.HandleGerarPost: the model covers only JSON-object bodies with string values. A non-object body, such as a JSON list or string, takes a different Python path through `'tema' in data` and `data['tema']`. A non-string `tema` is rendered by the f-string through `str()`. Both are left out.
- The serialised bytes that `jsonify` produces (key order, escaping of non-ASCII characters): error responses carry the message text of their `erro` member instead.
- The scheduler thread, the `schedule` library and the one-second `time.sleep` loop (lines 106-117): concurrency and wall-clock timing.
- The daily job (lines 85-104): it picks a topic with `random.choice` and only prints. Randomness and console output are not modelled.
- The error logging in the `except` branch (line 60): console output only.
- Text.IsWhitespace: this is the set of characters that `str.isspace` accepts in current CPython, written out as character ranges. Changes to that set in other Unicode versions are not modelled.
