/**
  The generation step `gerar_post_instagram` (app.py lines 40-61) and the
  `POST /gerar-post` handler (lines 70-81). The model client is a parameter:
  a total function from prompt to reply text, None standing for any
  exception the call raises.
*/
module Endpoint {
  import opened Optional
  import opened Text
  import opened Cleanup
  import opened PromptBuilder

  /**
    The request body as `request.get_json()` returned it: None (a JSON `null`
    body), else the members of a JSON object.
  */
  type Body = Option<map<string, string>>

  /** The external model: reply text for a prompt, or None when the call raises. */
  type ModelClient = string -> Option<string>

  const TopicKey: string := "tema"
  const TopicRequired: string := "O campo 'tema' \U{E9} obrigat\U{F3}rio."
  const GenerationFailed: string := "N\U{E3}o foi poss\U{ED}vel gerar o conte\U{FA}do."

  /** The three outcomes of the handler; the error outcomes carry the `erro` message of their JSON object. */
  datatype Response =
    | BadRequest(erro: string)
    | ServerError(erro: string)
    | Ok(body: string)
  {
    function Status(): int {
      match this
      case BadRequest(_) => 400
      case ServerError(_) => 500
      case Ok(_) => 200
    }

    /** `jsonify` answers with a JSON type; the success path sets the header explicitly. */
    function ContentType(): string {
      if Ok? then "application/json; charset=utf-8" else "application/json"
    }
  }

  /** Python truthiness of the generation result: None and "" are both false. */
  predicate Truthy(post: Option<string>) {
    post.Some? && |post.value| > 0
  }

  /**
    `gerar_post_instagram`: asks the model with the topic's prompt. A failed
    call gives None; a reply gives its cleaned text, which holds no "```" and
    keeps the reply's characters in order.
  */
  function GeneratePost(tema: string, client: ModelClient): (r: Option<string>)
    ensures r.None? <==> client(Prompt(tema)).None?
    ensures r.Some? ==> !Contains(r.value, Fence) && IsSubsequence(r.value, client(Prompt(tema)).value)
    ensures r.Some? ==> (r.value == Trim(client(Prompt(tema)).value) <==> !Contains(client(Prompt(tema)).value, Fence))
  {
    match client(Prompt(tema))
    case None => None
    case Some(raw) =>
      CleanIsTrimIffNoFence(raw);
      Some(Clean(raw))
  }

  /**
    `endpoint_gerar_post`. A body without "tema" is refused with 400. Any
    present topic, whatever its text, goes to the model; the answer is 200
    with the cleaned reply exactly when that is non-empty, and 500 otherwise.
  */
  function HandleGerarPost(body: Body, client: ModelClient): (r: Response)
    ensures r.BadRequest? <==> body.None? || TopicKey !in body.value
    ensures r.BadRequest? ==> r.erro == TopicRequired
    ensures r.ServerError? ==> r.erro == GenerationFailed
    ensures r.Ok? ==> |r.body| > 0 && !Contains(r.body, Fence)
    ensures body.Some? && TopicKey in body.value ==>
      var reply := client(Prompt(body.value[TopicKey]));
      && (r.Ok? <==> reply.Some? && |Clean(reply.value)| > 0)
      && (r.Ok? ==> r.body == Clean(reply.value))
  {
    if body.None? || |body.value| == 0 || TopicKey !in body.value then
      BadRequest(TopicRequired)
    else
      var post := GeneratePost(body.value[TopicKey], client);
      if Truthy(post) then Ok(post.value) else ServerError(GenerationFailed)
  }

  /** A missing body or topic is answered with 400 whatever the model would say: the model is not consulted. */
  lemma MissingTopicSkipsModel(body: Body, c1: ModelClient, c2: ModelClient)
    requires body.None? || TopicKey !in body.value
    ensures HandleGerarPost(body, c1) == HandleGerarPost(body, c2) == BadRequest(TopicRequired)
    ensures HandleGerarPost(body, c1).Status() == 400
  {
  }

  /**
    The topic is only checked for presence and reaches the model unchanged:
    two clients that answer the topic's prompt alike give the same response.
  */
  lemma ModelSeesOnlyTopicPrompt(fields: map<string, string>, c1: ModelClient, c2: ModelClient)
    requires TopicKey in fields
    requires c1(Prompt(fields[TopicKey])) == c2(Prompt(fields[TopicKey]))
    ensures HandleGerarPost(Some(fields), c1) == HandleGerarPost(Some(fields), c2)
    ensures HandleGerarPost(Some(fields), c1).Status() != 400
  {
  }

  /** An empty topic is not refused: it goes to the model like any other. */
  lemma EmptyTopicReachesModel(client: ModelClient)
    ensures HandleGerarPost(Some(map[TopicKey := ""]), client).Status() != 400
    ensures HandleGerarPost(Some(map[TopicKey := ""]), client).Status() == 200
      <==> client(Prompt("")).Some? && |Clean(client(Prompt("")).value)| > 0
  {
  }

  /** A failed model call is answered with 500. */
  lemma FailedCallIsServerError(fields: map<string, string>, client: ModelClient)
    requires TopicKey in fields
    requires client(Prompt(fields[TopicKey])).None?
    ensures HandleGerarPost(Some(fields), client) == ServerError(GenerationFailed)
    ensures HandleGerarPost(Some(fields), client).Status() == 500
  {
  }

  /** A reply made only of fence markers and surrounding whitespace cleans to "" and is answered with 500. */
  lemma FenceOnlyReplyIsServerError(
    fields: map<string, string>, client: ModelClient, w1: string, ms: seq<FenceMark>, w2: string)
    requires TopicKey in fields
    requires AllWhitespace(w1) && AllWhitespace(w2)
    requires client(Prompt(fields[TopicKey])) == Some(w1 + Spell(ms) + w2)
    ensures HandleGerarPost(Some(fields), client) == ServerError(GenerationFailed)
    ensures HandleGerarPost(Some(fields), client).Status() == 500
  {
    FenceOnlyReplyCleansToEmpty(w1, ms, w2);
  }

  /**
    A fenced JSON reply "```json\n<x>\n```", x holding no "```", is answered
    with 200, a JSON content type and the body "\n<x>\n": the newlines inside
    the fences survive, and nothing checks that the body is JSON.
  */
  lemma FencedReplyIsForwarded(fields: map<string, string>, client: ModelClient, x: string)
    requires TopicKey in fields
    requires !Contains(x, Fence)
    requires client(Prompt(fields[TopicKey])) == Some(JsonFence + "\n" + x + "\n" + Fence)
    ensures HandleGerarPost(Some(fields), client) == Ok("\n" + x + "\n")
    ensures HandleGerarPost(Some(fields), client).Status() == 200
    ensures HandleGerarPost(Some(fields), client).ContentType() == "application/json; charset=utf-8"
  {
    assert JsonFence + "\n" + x + "\n" + Fence == [] + JsonFence + "\n" + x + "\n" + Fence + [];
    FencedReplyKeepsInnerNewlines([], x, []);
  }

  /**
    Whitespace between the fences survives cleanup and is truthy, so a reply
    "```json" + w + "```" with non-empty whitespace w is answered with 200 and
    the body w, which holds no content at all.
  */
  lemma FencedWhitespaceIsForwarded(fields: map<string, string>, client: ModelClient, w: string)
    requires TopicKey in fields
    requires AllWhitespace(w) && |w| > 0
    requires client(Prompt(fields[TopicKey])) == Some(JsonFence + w + Fence)
    ensures HandleGerarPost(Some(fields), client) == Ok(w)
    ensures HandleGerarPost(Some(fields), client).Status() == 200
  {
    assert JsonFence + w + Fence == [] + JsonFence + w + Fence + [];
    WhitespaceBetweenFencesSurvives([], w, []);
  }

  /** The smallest such reply: "```json\n```" is answered with 200 and the body "\n". */
  lemma JsonFenceNewlineFenceIsForwarded(fields: map<string, string>, client: ModelClient)
    requires TopicKey in fields
    requires client(Prompt(fields[TopicKey])) == Some(JsonFence + "\n" + Fence)
    ensures HandleGerarPost(Some(fields), client) == Ok("\n")
  {
    FencedWhitespaceIsForwarded(fields, client, "\n");
  }

  /**
    A reply with no "```" that neither starts nor ends with whitespace is
    forwarded byte for byte with 200, whether or not it is JSON.
  */
  lemma PlainReplyIsForwarded(fields: map<string, string>, client: ModelClient, x: string)
    requires TopicKey in fields
    requires !Contains(x, Fence) && |x| > 0 && !IsWhitespace(x[0]) && !IsWhitespace(x[|x| - 1])
    requires client(Prompt(fields[TopicKey])) == Some(x)
    ensures HandleGerarPost(Some(fields), client) == Ok(x)
  {
    PlainReplyUnchanged(x);
  }
}
