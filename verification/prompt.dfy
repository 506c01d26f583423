/**
  The instruction sent to the model (app.py lines 44-53): a fixed f-string
  template with the topic interpolated verbatim, with no escaping, between
  single quotes.
*/
module PromptBuilder {
  import opened Optional
  import opened Text

  /** A JSON field name as the template quotes it. */
  function Quoted(name: string): string {
    "\"" + name + "\""
  }

  /** One bullet of the field list: the quoted field name, then what to put in it. */
  function FieldLine(name: string, description: string): string {
    "    - " + Quoted(name) + ": " + description + "\n"
  }

  /** The three fields of the requested JSON object. */
  const CaptionField: string := "legenda"
  const HashtagsField: string := "hashtags"
  const ImageField: string := "sugestao_imagem"

  /** Template text before the topic. */
  const Preamble: string :=
    "\n    Aja como um especialista em social media para uma ag\U{EA}ncia de marketing digital.\n"
    + "    Crie um post completo para o Instagram sobre o seguinte tema: '"

  /** Template text between the topic and the field list. */
  const Request: string :=
    "'.\n    O post deve ser otimizado para engajamento.\n\n"
    + "    Por favor, gere uma resposta no formato JSON contendo os seguintes campos:\n"

  const CaptionHint: string :=
    "Um texto cativante e informativo para a legenda, com quebras de linha usando '\\n'."
  const HashtagsHint: string :=
    "Uma string com as 10 melhores hashtags para este post, separadas por espa\U{E7}o."
  const ImageHint: string :=
    "Uma descri\U{E7}\U{E3}o detalhada para uma imagem que combine com o post, para ser usada em uma "
    + "ferramenta de IA de gera\U{E7}\U{E3}o de imagem como Midjourney ou DALL-E."

  const CaptionLine: string := FieldLine(CaptionField, CaptionHint)
  const HashtagsLine: string := FieldLine(HashtagsField, HashtagsHint)
  const ImageLine: string := FieldLine(ImageField, ImageHint)

  /** Template text after the topic: the closing quote, the request and the field list. */
  const Closing: string := Request + CaptionLine + HashtagsLine + ImageLine + "    "

  /**
    The prompt for a topic. The topic appears in it verbatim, as one
    contiguous piece, right after the fixed preamble.
  */
  function Prompt(tema: string): (p: string)
    ensures |p| == |Preamble| + |tema| + |Closing|
    ensures OccursAt(p, tema, |Preamble|)
    ensures Contains(p, tema)
  {
    InfixContained(Preamble, tema, Closing);
    Preamble + tema + Closing
  }

  /** Recovers the topic from a prompt; None for text the template cannot produce. */
  function TopicOf(p: string): Option<string> {
    if |p| >= |Preamble| + |Closing| && IsPrefix(Preamble, p) && p[|p| - |Closing|..] == Closing
    then Some(p[|Preamble|..|p| - |Closing|])
    else None
  }

  /** The topic can be read back from its prompt. */
  lemma TopicOfPrompt(tema: string)
    ensures TopicOf(Prompt(tema)) == Some(tema)
  {
    var p := Prompt(tema);
    assert p[..|Preamble|] == Preamble;
    assert p[|p| - |Closing|..] == Closing;
    assert p[|Preamble|..|p| - |Closing|] == tema;
  }

  /** Conversely, whatever `TopicOf` accepts is the prompt of the topic it returns. */
  lemma TopicOfOnlyPrompts(p: string)
    requires TopicOf(p).Some?
    ensures p == Prompt(TopicOf(p).value)
  {
    var t := TopicOf(p).value;
    assert p == p[..|Preamble|] + p[|Preamble|..|p| - |Closing|] + p[|p| - |Closing|..];
  }

  /** Distinct topics give distinct prompts. */
  lemma PromptInjective(a: string, b: string)
    requires Prompt(a) == Prompt(b)
    ensures a == b
  {
    TopicOfPrompt(a);
    TopicOfPrompt(b);
  }

  lemma ContainsExtended(a: string, s: string, b: string, q: string)
    requires Contains(s, q)
    ensures Contains(a + s + b, q)
  {
    var i :| 0 <= i <= |s| && OccursAt(s, q, i);
    assert (a + s + b)[|a| + i..][..|q|] == s[i..][..|q|];
    assert OccursAt(a + s + b, q, |a| + i);
  }

  /** Whatever the topic, the prompt names each of the three JSON fields, quoted. */
  lemma PromptNamesFields(tema: string)
    ensures Contains(Prompt(tema), Quoted(CaptionField))
    ensures Contains(Prompt(tema), Quoted(HashtagsField))
    ensures Contains(Prompt(tema), Quoted(ImageField))
  {
    var head := Preamble + tema + Request;
    FieldLineNamesField(CaptionField, CaptionHint);
    FieldLineNamesField(HashtagsField, HashtagsHint);
    FieldLineNamesField(ImageField, ImageHint);
    PromptSplit(tema, head);
    ContainsExtended(head, CaptionLine, HashtagsLine + ImageLine + "    ", Quoted(CaptionField));
    ContainsExtended(head + CaptionLine, HashtagsLine, ImageLine + "    ", Quoted(HashtagsField));
    ContainsExtended(head + CaptionLine + HashtagsLine, ImageLine, "    ", Quoted(ImageField));
  }

  /** The prompt cut around each field line. */
  lemma PromptSplit(tema: string, head: string)
    requires head == Preamble + tema + Request
    ensures Prompt(tema) == head + CaptionLine + (HashtagsLine + ImageLine + "    ")
    ensures Prompt(tema) == head + CaptionLine + HashtagsLine + (ImageLine + "    ")
    ensures Prompt(tema) == head + CaptionLine + HashtagsLine + ImageLine + "    "
  {
    var c, h, i, e := CaptionLine, HashtagsLine, ImageLine, "    ";
    assert Closing == Request + c + h + i + e;
    SeqAssoc(Preamble + tema, Request, c, h, i, e);
  }

  lemma SeqAssoc(a: string, r: string, c: string, h: string, i: string, e: string)
    ensures a + (r + c + h + i + e) == (a + r) + c + (h + i + e)
    ensures a + (r + c + h + i + e) == (a + r) + c + h + (i + e)
    ensures a + (r + c + h + i + e) == (a + r) + c + h + i + e
  {
  }

  lemma FieldLineNamesField(name: string, description: string)
    ensures Contains(FieldLine(name, description), Quoted(name))
  {
    assert FieldLine(name, description) == "    - " + Quoted(name) + (": " + description + "\n");
    InfixContained("    - ", Quoted(name), ": " + description + "\n");
  }
}
