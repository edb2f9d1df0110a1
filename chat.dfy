/**
 * The chat view's transcript state machine. Every network response is an
 * input value; each handler runs as one atomic step from its start to the
 * end of its `finally` block.
 */
module Chat {
  import opened Wrappers
  import opened JsString

  datatype Role = User | Ai

  /** A citation the backend attaches to an answer. */
  datatype Source = Source(filename: string, contentExcerpt: string)

  /** One transcript entry; `None` stands for a field the object does not carry. */
  datatype Message = Message(role: Role, content: string, sources: Option<seq<Source>>,
                             provider: Option<string>, isError: bool)

  const Greeting: string :=
    "Hello! I'm your Neural RAG Assistant.\n\nI can answer questions based on the documents you ingest. Try uploading a text file and asking me about it!"

  const NoAnswer: string := "I couldn't find an answer in your documents."

  /** A string-valued field is truthy when it is present and not empty. */
  predicate Truthy(s: Option<string>) {
    s.Some? && s.value != ""
  }

  // ---------------------------------------------------------------------------
  // Sending a question.
  // ---------------------------------------------------------------------------

  /** The body the chat endpoint sends back, each field present or absent. */
  datatype ChatData = ChatData(status: Option<string>, message: Option<string>,
                               respuestaIa: Option<string>, fuentes: Option<seq<Source>>,
                               provider: Option<string>, sessionId: Option<string>)

  /** How the request ends: a parsed body, or a thrown error with its message. */
  datatype ChatOutcome = Responded(data: ChatData) | Threw(error: string)

  /** What a send posts: the question, the chosen provider and the current session id. */
  datatype ChatRequest = ChatRequest(question: string, provider: string, sessionId: Option<string>)

  /** The outcome takes the error path: a thrown failure or a body whose status is "error". */
  predicate Failed(o: ChatOutcome) {
    o.Threw? || o.data.status == Some("error")
  }

  /** The message of the error the catch block sees; an absent message gives "". */
  function ErrorText(o: ChatOutcome): string
    requires Failed(o)
  {
    if o.Threw? then o.error else o.data.message.GetOr("")
  }

  function UserMessage(text: string): Message {
    Message(User, text, None, None, false)
  }

  /** The one message a send appends after the user's: the answer or the error. */
  function AiReply(o: ChatOutcome): (m: Message)
    ensures m.role == Ai
    ensures m.isError <==> Failed(o)
  {
    if Failed(o) then Message(Ai, ErrorText(o), None, None, true)
    else
      var d := o.data;
      Message(Ai, if Truthy(d.respuestaIa) then d.respuestaIa.value else NoAnswer,
              d.fuentes, d.provider, false)
  }

  /**
   * An error reply carries the error's message and nothing else. A successful
   * reply is never empty: it shows the answer when there is one and the
   * fallback otherwise, with the response's sources and provider.
   */
  lemma AiReplyContents(o: ChatOutcome)
    ensures Failed(o) ==>
      AiReply(o) == Message(Ai, ErrorText(o), None, None, true)
    ensures !Failed(o) ==>
      && AiReply(o).content != ""
      && (Truthy(o.data.respuestaIa) ==> AiReply(o).content == o.data.respuestaIa.value)
      && (!Truthy(o.data.respuestaIa) ==> AiReply(o).content == NoAnswer)
      && AiReply(o).sources == o.data.fuentes
      && AiReply(o).provider == o.data.provider
  {
  }

  /** The session id after a send whose captured id was `current`. */
  function NextSessionId(current: Option<string>, o: ChatOutcome): (r: Option<string>)
    ensures r != current ==> !Failed(o) && Truthy(o.data.sessionId) && r == o.data.sessionId
    ensures !Failed(o) && Truthy(o.data.sessionId) ==> r == o.data.sessionId
  {
    if !Failed(o) && Truthy(o.data.sessionId) && o.data.sessionId != current then o.data.sessionId
    else current
  }

  /**
   * Errors never move the session; replaying the same response in the session
   * it produced changes nothing more.
   */
  lemma NextSessionIdSettles(current: Option<string>, o: ChatOutcome)
    ensures Failed(o) ==> NextSessionId(current, o) == current
    ensures NextSessionId(NextSessionId(current, o), o) == NextSessionId(current, o)
  {
  }

  /** The transcript after a send of `input` that ended in `o`. */
  function AfterSend(ms: seq<Message>, input: string, o: ChatOutcome): seq<Message> {
    if Trim(input) == [] then ms else ms + [UserMessage(input), AiReply(o)]
  }

  lemma AppendTwo<T>(a: seq<T>, x: T, y: T)
    ensures a + [x] + [y] == a + [x, y]
  {
  }

  /**
   * A blank input leaves the transcript alone; any other input keeps every
   * earlier message and appends exactly the user's message, verbatim, then one
   * AI message.
   */
  lemma AfterSendAppends(ms: seq<Message>, input: string, o: ChatOutcome)
    ensures IsBlank(input) ==> AfterSend(ms, input, o) == ms
    ensures !IsBlank(input) ==>
      && |AfterSend(ms, input, o)| == |ms| + 2
      && AfterSend(ms, input, o)[..|ms|] == ms
      && AfterSend(ms, input, o)[|ms|] == Message(User, input, None, None, false)
      && AfterSend(ms, input, o)[|ms| + 1].role == Ai
      && (AfterSend(ms, input, o)[|ms| + 1].isError <==> Failed(o))
  {
    TrimEmptyIffBlank(input);
  }

  // ---------------------------------------------------------------------------
  // Loading a session's history.
  // ---------------------------------------------------------------------------

  /** A stored message as the history endpoint lists it. */
  datatype HistoryEntry = HistoryEntry(role: string, content: string, provider: Option<string>)

  /** The parsed history body: an array of entries or some other JSON value. */
  datatype HistoryBody = Entries(entries: seq<HistoryEntry>) | NotAnArray

  /** How the history request ends: a response with its `ok` flag, or a thrown error. */
  datatype HistoryOutcome = HistoryResponse(ok: bool, body: HistoryBody) | HistoryThrew

  function RoleOf(role: string): (r: Role)
    ensures r == User <==> role == "user"
  {
    if role == "user" then User else Ai
  }

  function FromEntry(e: HistoryEntry): Message {
    Message(RoleOf(e.role), e.content, None, e.provider, false)
  }

  function FromHistory(h: seq<HistoryEntry>): (ms: seq<Message>)
    ensures |ms| == |h|
  {
    if h == [] then [] else [FromEntry(h[0])] + FromHistory(h[1..])
  }

  /**
   * The conversion keeps length and order: a `user` entry becomes a user
   * message, every other role an AI one, and content and provider are copied.
   */
  lemma {:induction false} FromHistoryPointwise(h: seq<HistoryEntry>)
    ensures forall i :: 0 <= i < |h| ==>
      && (FromHistory(h)[i].role == User <==> h[i].role == "user")
      && FromHistory(h)[i].content == h[i].content
      && FromHistory(h)[i].provider == h[i].provider
      && FromHistory(h)[i].sources.None?
      && !FromHistory(h)[i].isError
  {
    if h != [] {
      FromHistoryPointwise(h[1..]);
      forall i | 0 <= i < |h|
        ensures FromHistory(h)[i] == FromEntry(h[i])
      {
        if i > 0 {
          assert FromHistory(h)[i] == FromHistory(h[1..])[i - 1];
        }
      }
    }
  }

  /** The entries a transcript would be stored as. */
  function ToHistory(ms: seq<Message>): (h: seq<HistoryEntry>)
    ensures |h| == |ms|
  {
    if ms == [] then []
    else [HistoryEntry(if ms[0].role == User then "user" else "ai", ms[0].content, ms[0].provider)]
         + ToHistory(ms[1..])
  }

  predicate Plain(m: Message) {
    m.sources.None? && !m.isError
  }

  /** Stored and reloaded, a transcript without sources or error flags comes back unchanged. */
  lemma {:induction false} HistoryRoundTrip(ms: seq<Message>)
    requires forall i :: 0 <= i < |ms| ==> Plain(ms[i])
    ensures FromHistory(ToHistory(ms)) == ms
  {
    if ms != [] {
      assert Plain(ms[0]);
      assert ToHistory(ms)[1..] == ToHistory(ms[1..]);
      HistoryRoundTrip(ms[1..]);
      assert FromEntry(ToHistory(ms)[0]) == ms[0];
    }
  }

  /** The transcript after the history request: replaced only by an ok array body. */
  function AfterHistory(ms: seq<Message>, o: HistoryOutcome): seq<Message> {
    if o.HistoryResponse? && o.ok && o.body.Entries? then FromHistory(o.body.entries) else ms
  }

  lemma AfterHistoryReplacesOnlyOnSuccess(ms: seq<Message>, o: HistoryOutcome)
    ensures !(o.HistoryResponse? && o.ok && o.body.Entries?) ==> AfterHistory(ms, o) == ms
    ensures o.HistoryResponse? && o.ok && o.body.Entries? ==> |AfterHistory(ms, o)| == |o.body.entries|
  {
  }

  function GreetingMessage(): Message {
    Message(Ai, Greeting, None, None, false)
  }

  // ---------------------------------------------------------------------------
  // The invariant every transcript keeps.
  // ---------------------------------------------------------------------------

  /** Only AI messages are errors, and user messages carry no sources. */
  predicate WellFormed(ms: seq<Message>) {
    forall i :: 0 <= i < |ms| ==>
      (ms[i].isError ==> ms[i].role == Ai) && (ms[i].role == User ==> ms[i].sources.None?)
  }

  lemma WellFormedExchange(ms: seq<Message>, input: string, o: ChatOutcome)
    requires WellFormed(ms)
    ensures WellFormed(ms + [UserMessage(input), AiReply(o)])
  {
    var r := ms + [UserMessage(input), AiReply(o)];
    forall i | 0 <= i < |r|
      ensures (r[i].isError ==> r[i].role == Ai) && (r[i].role == User ==> r[i].sources.None?)
    {
      if i < |ms| {
        assert r[i] == ms[i];
      }
    }
  }

  lemma WellFormedAfterSend(ms: seq<Message>, input: string, o: ChatOutcome)
    requires WellFormed(ms)
    ensures WellFormed(AfterSend(ms, input, o))
  {
    WellFormedExchange(ms, input, o);
  }

  lemma WellFormedAfterHistory(ms: seq<Message>, h: HistoryOutcome)
    requires WellFormed(ms)
    ensures WellFormed(AfterHistory(ms, h))
  {
    if h.HistoryResponse? && h.ok && h.body.Entries? {
      FromHistoryPointwise(h.body.entries);
    }
  }

  lemma WellFormedSteps(ms: seq<Message>, input: string, o: ChatOutcome, h: HistoryOutcome)
    requires WellFormed(ms)
    ensures WellFormed(AfterSend(ms, input, o))
    ensures WellFormed(AfterHistory(ms, h))
    ensures WellFormed([GreetingMessage()])
  {
    WellFormedAfterSend(ms, input, o);
    WellFormedAfterHistory(ms, h);
  }

  /** Enter without Shift sends; Shift+Enter and every other key do not. */
  predicate ShouldSend(key: string, shift: bool) {
    key == "Enter" && !shift
  }

  lemma ShouldSendOnlyPlainEnter(key: string, shift: bool)
    ensures ShouldSend(key, shift) ==> key == "Enter"
    ensures ShouldSend("Enter", false) && !ShouldSend("Enter", true)
  {
  }

  // ---------------------------------------------------------------------------
  // The view's state.
  // ---------------------------------------------------------------------------

  /**
   * The chat view: its transcript, the text box, the loading flag and the
   * chosen provider, with the current session id and the access token that
   * the parent passes in.
   */
  class ChatPanel {
    var messages: seq<Message>
    var input: string
    var loading: bool
    var provider: string
    var currentSessionId: Option<string>
    var accessToken: Option<string>

    /**
     * The transcript invariant (only AI messages are errors, user messages
     * carry no sources): established by the constructor and preserved by
     * every handler, so it holds in every state the view renders.
     */
    ghost predicate Valid()
      reads this
    {
      WellFormed(messages)
    }

    constructor (sessionId: Option<string>, token: Option<string>)
      ensures Valid()
      ensures messages == [] && input == "" && !loading && provider == "gemini"
      ensures currentSessionId == sessionId && accessToken == token
    {
      messages := [];
      input := "";
      loading := false;
      provider := "gemini";
      currentSessionId := sessionId;
      accessToken := token;
    }

    /**
     * Sends the text box. A blank input changes nothing and sends nothing.
     * Otherwise the posted request carries the input, the provider and the
     * session id as they were, the transcript gains the user's message and one
     * reply, the text box is cleared, loading ends false, and the session id
     * moves only to a new id the response announces.
     */
    method HandleSend(outcome: ChatOutcome) returns (request: Option<ChatRequest>)
      requires Valid()
      modifies this
      ensures Valid()
      ensures messages == AfterSend(old(messages), old(input), outcome)
      ensures IsBlank(old(input)) ==>
        request.None? && input == old(input) && loading == old(loading)
        && currentSessionId == old(currentSessionId)
      ensures !IsBlank(old(input)) ==>
        && request == Some(ChatRequest(old(input), old(provider), old(currentSessionId)))
        && input == "" && !loading
        && currentSessionId == NextSessionId(old(currentSessionId), outcome)
      ensures provider == old(provider) && accessToken == old(accessToken)
    {
      TrimEmptyIffBlank(input);
      AfterSendAppends(messages, input, outcome);
      if Trim(input) == [] {
        return None;
      }
      request := Exchange(outcome);
    }

    /** The part of a send after the blank-input guard: the request and its reply. */
    method Exchange(outcome: ChatOutcome) returns (request: Option<ChatRequest>)
      requires Valid()
      modifies this
      ensures Valid()
      ensures messages == old(messages) + [UserMessage(old(input)), AiReply(outcome)]
      ensures request == Some(ChatRequest(old(input), old(provider), old(currentSessionId)))
      ensures input == "" && !loading
      ensures currentSessionId == NextSessionId(old(currentSessionId), outcome)
      ensures provider == old(provider) && accessToken == old(accessToken)
    {
      WellFormedExchange(messages, input, outcome);
      ghost var before := messages;
      var userMsg := UserMessage(input);
      var sessionAtSend := currentSessionId;
      messages := messages + [userMsg];
      input := "";
      loading := true;
      request := Some(ChatRequest(userMsg.content, provider, sessionAtSend));
      if outcome.Responded? && outcome.data.status != Some("error") {
        var d := outcome.data;
        if Truthy(d.sessionId) && d.sessionId != sessionAtSend {
          currentSessionId := d.sessionId;
        }
      }
      messages := messages + [AiReply(outcome)];
      AppendTwo(before, userMsg, AiReply(outcome));
      loading := false;
    }

    /**
     * Loads a session's messages. A missing or empty id returns at once;
     * otherwise the transcript is replaced only by an ok array response and
     * loading ends false.
     */
    method FetchHistory(sessionId: Option<string>, outcome: HistoryOutcome)
      requires Valid()
      modifies this
      ensures Valid()
      ensures !Truthy(sessionId) ==> messages == old(messages) && loading == old(loading)
      ensures Truthy(sessionId) ==> messages == AfterHistory(old(messages), outcome) && !loading
      ensures input == old(input) && provider == old(provider)
      ensures currentSessionId == old(currentSessionId) && accessToken == old(accessToken)
    {
      WellFormedSteps(messages, "", Threw(""), outcome);
      if !Truthy(sessionId) {
        return;
      }
      loading := true;
      if outcome.HistoryResponse? && outcome.ok {
        match outcome.body
        case Entries(h) =>
          messages := FromHistory(h);
        case NotAnArray =>
      }
      loading := false;
    }

    /**
     * Runs when the session id or the session changes: with both an id and an
     * access token the history is loaded, otherwise the transcript becomes
     * the greeting alone.
     */
    method OnSessionChange(history: HistoryOutcome)
      requires Valid()
      modifies this
      ensures Valid()
      ensures Truthy(old(currentSessionId)) && Truthy(old(accessToken)) ==>
        messages == AfterHistory(old(messages), history) && !loading
      ensures !(Truthy(old(currentSessionId)) && Truthy(old(accessToken))) ==>
        messages == [GreetingMessage()] && loading == old(loading)
      ensures input == old(input) && provider == old(provider)
      ensures currentSessionId == old(currentSessionId) && accessToken == old(accessToken)
    {
      if Truthy(currentSessionId) && Truthy(accessToken) {
        FetchHistory(currentSessionId, history);
      } else {
        WellFormedSteps(messages, "", Threw(""), history);
        messages := [GreetingMessage()];
      }
    }

    /**
     * A key press in the text box: Enter without Shift suppresses the
     * newline and sends; any other key leaves everything as it was.
     */
    method HandleKeyDown(key: string, shift: bool, outcome: ChatOutcome)
      returns (prevented: bool, request: Option<ChatRequest>)
      requires Valid()
      modifies this
      ensures Valid()
      ensures prevented <==> ShouldSend(key, shift)
      ensures ShouldSend(key, shift) ==> messages == AfterSend(old(messages), old(input), outcome)
      ensures ShouldSend(key, shift) && IsBlank(old(input)) ==>
        request.None? && input == old(input) && loading == old(loading)
        && currentSessionId == old(currentSessionId)
      ensures ShouldSend(key, shift) && !IsBlank(old(input)) ==>
        && request == Some(ChatRequest(old(input), old(provider), old(currentSessionId)))
        && input == "" && !loading
        && currentSessionId == NextSessionId(old(currentSessionId), outcome)
      ensures !ShouldSend(key, shift) ==>
        request.None? && messages == old(messages) && input == old(input) && loading == old(loading)
        && currentSessionId == old(currentSessionId)
      ensures provider == old(provider) && accessToken == old(accessToken)
    {
      prevented := false;
      request := None;
      if key == "Enter" && !shift {
        prevented := true;
        request := HandleSend(outcome);
      }
    }
  }
}
