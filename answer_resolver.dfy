/** The answer policy behind the Send button: a keyword hit is answered from
    the FAQ; otherwise the semantic search picks a prompt (with the found
    passages as context, or a plain one without), the primary provider is
    asked, then the secondary one if the first gave nothing, and a fixed
    escalation message stands in when neither answered.  The search and the
    providers are parameters; the resolution records which of them were called. */
module AnswerResolver {
  import opened Wrappers
  import opened PyStr
  import opened FaqStore
  import opened KeywordMatcher

  // ------------------------------------------------------------ providers

  /** How a provider client behaves on one prompt: no client (library or key
      missing), the request raising, or a reply with this content. */
  datatype Backend = Unconfigured | Raises | Replies(content: string)

  /** `call_openai`: the reply's content trimmed; `None`, and never an
      exception, without a client or when the request raises. */
  function CallOpenAI(b: Backend): (r: Option<string>)
    ensures r.None? <==> !b.Replies?
    ensures r.Some? ==> IsStripped(r.value) && r.value == Strip(b.content)
  {
    if b.Replies? then Some(Strip(b.content)) else None
  }

  /** `call_gemini`: the reply's text as it is; `None`, and never an
      exception, without a client or when the request raises. */
  function CallGemini(b: Backend): (r: Option<string>)
    ensures r.None? <==> !b.Replies?
    ensures r.Some? ==> r.value == b.content
  {
    if b.Replies? then Some(b.content) else None
  }

  /** Python truthiness of a wrapper result: neither `None` nor `""`. */
  predicate Truthy(r: Option<string>) {
    r.Some? && r.value != []
  }

  // -------------------------------------------------------------- prompts

  const ContextHeader: string := "CONTEXT:"
  const DocSeparator: string := "\n---\n"
  const TopK: nat := 3

  // The pieces of the two prompt templates; every line after the first is
  // indented by 12 spaces.
  const Indent: string := "\n            "
  const ContextHead: string := Indent + ContextHeader + Indent
  const ContextQuestion: string := "\n" + Indent + "QUESTION: "
  const ContextEscalate: string := "\n" + Indent + "If unsure, escalate to "
  const ContextEnd: string := "." + Indent
  const PlainHead: string := Indent + "User asked: "
  const PlainEscalate: string := Indent + "If you don't know the answer, say:" + Indent + "'Please contact support at "
  const PlainEnd: string := "'" + Indent

  /** The prompt built around the passages the semantic search found. */
  function ContextPrompt(docs: seq<string>, query: string, email: string): string {
    ContextHead + Join(docs, DocSeparator) + ContextQuestion + query + ContextEscalate + email + ContextEnd
  }

  /** The prompt used when the search found nothing. */
  function PlainPrompt(query: string, email: string): string {
    PlainHead + query + PlainEscalate + email + PlainEnd
  }

  /** The prompt for the found passages: the context prompt when there are any. */
  function PromptFor(docs: seq<string>, query: string, email: string): string {
    if docs != [] then ContextPrompt(docs, query, email) else PlainPrompt(query, email)
  }

  /** The context prompt names its header, carries the passages joined by
      `\n---\n`, the question and the support address. */
  lemma ContextPromptMentions(docs: seq<string>, query: string, email: string)
    ensures var p := ContextPrompt(docs, query, email);
      Contains(p, ContextHeader) && Contains(p, Join(docs, DocSeparator)) &&
      Contains(p, query) && Contains(p, email)
  {
    var context := Join(docs, DocSeparator);
    var p1 := ContextHead + context;
    var p2 := p1 + ContextQuestion;
    var p3 := p2 + query;
    var p4 := p3 + ContextEscalate;
    var p5 := p4 + email;
    // the header
    ContainsMiddle(Indent, ContextHeader, Indent);
    ContainsLeft(ContextHead, context, ContextHeader);
    ContainsLeft(p1, ContextQuestion, ContextHeader);
    ContainsLeft(p2, query, ContextHeader);
    ContainsLeft(p3, ContextEscalate, ContextHeader);
    ContainsLeft(p4, email, ContextHeader);
    ContainsLeft(p5, ContextEnd, ContextHeader);
    // the passages
    ContainsMiddle(ContextHead, context, []);
    assert ContextHead + context + [] == p1;
    ContainsLeft(p1, ContextQuestion, context);
    ContainsLeft(p2, query, context);
    ContainsLeft(p3, ContextEscalate, context);
    ContainsLeft(p4, email, context);
    ContainsLeft(p5, ContextEnd, context);
    // the question
    ContainsMiddle(p2, query, []);
    assert p2 + query + [] == p3;
    ContainsLeft(p3, ContextEscalate, query);
    ContainsLeft(p4, email, query);
    ContainsLeft(p5, ContextEnd, query);
    // the address
    ContainsMiddle(p4, email, ContextEnd);
  }

  /** The plain prompt carries the question and the support address, and has
      no context header unless the question or the address brings one. */
  lemma PlainPromptMentions(query: string, email: string)
    ensures var p := PlainPrompt(query, email);
      Contains(p, query) && Contains(p, email) &&
      (!Contains(query, ContextHeader) && !Contains(email, ContextHeader) ==> !Contains(p, ContextHeader))
  {
    var p1 := PlainHead + query;
    var p2 := p1 + PlainEscalate;
    ContainsMiddle(PlainHead, query, []);
    assert PlainHead + query + [] == p1;
    ContainsLeft(p1, PlainEscalate, query);
    ContainsLeft(p2, email, query);
    ContainsLeft(p2 + email, PlainEnd, query);
    ContainsMiddle(p2, email, PlainEnd);
    if !Contains(query, ContextHeader) && !Contains(email, ContextHeader) {
      PlainPromptHasNoHeader(query, email);
    }
  }

  /** The fixed text of the plain template holds no `C`, and the characters
      next to the two holes are a space before and a newline or quote after. */
  lemma PlainTemplateFacts()
    ensures 'C' !in PlainHead && 'C' !in PlainEscalate && 'C' !in PlainEnd
    ensures PlainHead != [] && PlainHead[|PlainHead| - 1] == ' '
    ensures PlainEscalate != [] && PlainEscalate[0] == '\n' && PlainEscalate[|PlainEscalate| - 1] == ' '
    ensures PlainEnd != [] && PlainEnd[0] == '\''
  {
    PlainHeadFacts();
    PlainEscalateFacts();
    PlainEndFacts();
  }

  lemma IndentFacts()
    ensures 'C' !in Indent && Indent[0] == '\n'
  {
  }

  lemma PlainHeadFacts()
    ensures 'C' !in PlainHead && PlainHead != [] && PlainHead[|PlainHead| - 1] == ' '
  {
    IndentFacts();
    assert 'C' !in "User asked: ";
  }

  lemma PlainEscalateFacts()
    ensures 'C' !in PlainEscalate && PlainEscalate != []
    ensures PlainEscalate[0] == '\n' && PlainEscalate[|PlainEscalate| - 1] == ' '
  {
    IndentFacts();
    var say := "If you don't know the answer, say:";
    var contact := "'Please contact support at ";
    assert 'C' !in say && 'C' !in contact;
    assert PlainEscalate == Indent + say + Indent + contact;
    assert PlainEscalate[0] == Indent[0];
    assert PlainEscalate[|PlainEscalate| - 1] == contact[|contact| - 1];
  }

  lemma PlainEndFacts()
    ensures 'C' !in PlainEnd && PlainEnd != [] && PlainEnd[0] == '\''
  {
    IndentFacts();
  }

  /** The header starts with the only `C` of the template and holds no
      space, newline or quote. */
  lemma HeaderFacts()
    ensures ContextHeader != [] && ContextHeader[0] == 'C'
    ensures ' ' !in ContextHeader && '\n' !in ContextHeader && '\'' !in ContextHeader
  {
  }

  /** A pattern starting with `C` and free of the joining characters does not
      occur in `head + query + mid + email + tail` unless one of the parts
      holds it. */
  lemma {:induction false} NoPatternInTemplate(head: string, query: string, mid: string, email: string, tail: string, h: string)
    requires h != [] && h[0] !in head && h[0] !in mid && h[0] !in tail
    requires head != [] && head[|head| - 1] !in h
    requires mid != [] && mid[0] !in h && mid[|mid| - 1] !in h
    requires tail != [] && tail[0] !in h
    requires !Contains(query, h) && !Contains(email, h)
    ensures !Contains(head + query + mid + email + tail, h)
  {
    assert forall c :: c in h[..|h| - 1] ==> c in h;
    assert forall c :: c in h[1..] ==> c in h;
    NotContainsByChar(head, h, 0);
    NotContainsByChar(mid, h, 0);
    NotContainsByChar(tail, h, 0);
    NotContainsJoinAfter(head, query, h);
    NotContainsJoinBefore(head + query, mid, h);
    var p2 := head + query + mid;
    assert p2[|p2| - 1] == mid[|mid| - 1];
    NotContainsJoinAfter(p2, email, h);
    NotContainsJoinBefore(p2 + email, tail, h);
  }

  lemma PlainPromptHasNoHeader(query: string, email: string)
    requires !Contains(query, ContextHeader) && !Contains(email, ContextHeader)
    ensures !Contains(PlainPrompt(query, email), ContextHeader)
  {
    PlainTemplateFacts();
    HeaderFacts();
    NoPatternInTemplate(PlainHead, query, PlainEscalate, email, PlainEnd, ContextHeader);
  }

  // ---------------------------------------------------------------- answers

  /** `f"### {best['q']}\n\n{best['a']}"`. */
  function HitAnswer(best: Faq): (r: string)
    ensures StartsWith(r, "### ") && Contains(r, best.q) && Contains(r, best.a)
  {
    ContainsMiddle("### ", best.q, "\n\n" + best.a);
    assert "### " + best.q + "\n\n" + best.a == "### " + best.q + ("\n\n" + best.a);
    ContainsMiddle("### " + best.q + "\n\n", best.a, []);
    assert "### " + best.q + "\n\n" + best.a + [] == "### " + best.q + "\n\n" + best.a;
    "### " + best.q + "\n\n" + best.a
  }

  /** The escalation message used when no answer was produced. */
  function Fallback(email: string): (r: string)
    ensures r != [] && Contains(r, email)
  {
    ContainsMiddle("I'm not sure. Please contact support at ", email, ".");
    "I'm not sure. Please contact support at " + email + "."
  }

  /** One call made while resolving a query. */
  datatype Call =
    | SemanticSearch(query: string, topK: nat)
    | Primary(prompt: string)
    | Secondary(prompt: string)

  /** An answer, before the escalation fallback, and the calls that produced it. */
  datatype Attempt = Attempt(reply: Option<string>, calls: seq<Call>)

  /** The final answer and the calls made, in order. */
  datatype Resolution = Resolution(answer: string, calls: seq<Call>)

  /** `call_openai(prompt) or call_gemini(prompt)`: the secondary provider is
      asked only when the primary's result is falsy. */
  function AskProviders(prompt: string, primary: string -> Backend, secondary: string -> Backend): (r: Attempt)
    ensures r.calls == [Primary(prompt)] || r.calls == [Primary(prompt), Secondary(prompt)]
    ensures |r.calls| == 2 <==> !Truthy(CallOpenAI(primary(prompt)))
    ensures Truthy(r.reply) <==> Truthy(CallOpenAI(primary(prompt))) || Truthy(CallGemini(secondary(prompt)))
  {
    var first := CallOpenAI(primary(prompt));
    if Truthy(first) then Attempt(first, [Primary(prompt)])
    else Attempt(CallGemini(secondary(prompt)), [Primary(prompt), Secondary(prompt)])
  }

  /** The three tiers before the fallback: the best keyword match, else the
      providers on the prompt the semantic search leads to. */
  function Tiers(query: string, matches: seq<Match>, search: (string, nat) -> seq<string>,
                 primary: string -> Backend, secondary: string -> Backend, email: string): Attempt
  {
    if matches != [] then Attempt(Some(HitAnswer(matches[0].item)), [])
    else
      var asked := AskProviders(PromptFor(search(query, TopK), query, email), primary, secondary);
      Attempt(asked.reply, [SemanticSearch(query, TopK)] + asked.calls)
  }

  /** The resolver block of the Send handler: the tiers, then `if not answer:`
      the escalation message. */
  function Resolve(query: string, matches: seq<Match>, search: (string, nat) -> seq<string>,
                   primary: string -> Backend, secondary: string -> Backend, email: string): (r: Resolution)
    ensures r.answer != []
    ensures matches != [] ==> r.answer == HitAnswer(matches[0].item) && r.calls == []
    ensures matches == [] ==> 2 <= |r.calls| <= 3 && r.calls[0] == SemanticSearch(query, TopK)
  {
    var t := Tiers(query, matches, search, primary, secondary, email);
    Resolution(if Truthy(t.reply) then t.reply.value else Fallback(email), t.calls)
  }

  /** Without a keyword hit the prompt given to the providers is the context
      prompt exactly when the search found passages. */
  lemma PromptFollowsSearch(query: string, matches: seq<Match>, search: (string, nat) -> seq<string>,
                            primary: string -> Backend, secondary: string -> Backend, email: string)
    requires matches == []
    ensures var r := Resolve(query, matches, search, primary, secondary, email);
      var docs := search(query, TopK);
      r.calls[1].Primary? &&
      (docs != [] ==> r.calls[1].prompt == ContextPrompt(docs, query, email)) &&
      (docs == [] ==> r.calls[1].prompt == PlainPrompt(query, email))
  {
  }

  /** Without a keyword hit: the secondary provider is asked exactly when the
      primary gave nothing usable, and the answer is the first non-empty reply,
      or the escalation message when there is none. */
  lemma FirstNonEmptyReplyWins(query: string, matches: seq<Match>, search: (string, nat) -> seq<string>,
                               primary: string -> Backend, secondary: string -> Backend, email: string)
    requires matches == []
    ensures var r := Resolve(query, matches, search, primary, secondary, email);
      var prompt := PromptFor(search(query, TopK), query, email);
      var first := CallOpenAI(primary(prompt));
      var second := CallGemini(secondary(prompt));
      (Secondary(prompt) in r.calls <==> !Truthy(first)) &&
      (Truthy(first) ==> r.answer == first.value) &&
      (!Truthy(first) && Truthy(second) ==> r.answer == second.value) &&
      (!Truthy(first) && !Truthy(second) ==> r.answer == Fallback(email))
  {
    var prompt := PromptFor(search(query, TopK), query, email);
    var asked := AskProviders(prompt, primary, secondary);
    assert Primary(prompt) != Secondary(prompt);
    if Truthy(CallOpenAI(primary(prompt))) {
      assert Secondary(prompt) !in [SemanticSearch(query, TopK)] + asked.calls;
    }
  }
}
