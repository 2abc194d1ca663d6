/** The chat panel's state: the message history, the text being typed, the
    language sent with each request and the in-flight flag, with the send
    handler split at its one network call. */
module Chat {
  import opened PyText

  /** One history entry; `id` and `timestamp` come from the clock and are
      otherwise opaque. */
  datatype Message = Message(id: int, text: string, isUser: bool, timestamp: int)

  /** The JSON body posted to the backend's chat endpoint. */
  datatype ChatRequest = ChatRequest(message: string, language: string, useVoice: bool)

  /** How the request ended: a parsed body carrying `response`, or a throw
      (network failure or a body that is not JSON). */
  datatype FetchResult = Responded(response: string) | Threw

  const ErrorReply := "Sorry, I encountered an error. Please try again."

  /** The characters JavaScript's `String.prototype.trim` removes. */
  predicate IsJsSpace(c: char)
  {
    c == ' ' || ('\t' <= c <= '\r') || c == '\U{00A0}' || c == '\U{1680}'
    || ('\U{2000}' <= c <= '\U{200A}') || c == '\U{2028}' || c == '\U{2029}'
    || c == '\U{202F}' || c == '\U{205F}' || c == '\U{3000}' || c == '\U{FEFF}'
  }

  /** `s.trim()` is empty. */
  predicate IsBlank(s: string)
  {
    forall i :: 0 <= i < |s| ==> IsJsSpace(s[i])
  }

  function WelcomeText(fileCount: nat): string
  {
    "Welcome to NEXUS! I've processed " + NatToString(fileCount)
    + " document(s). Ask me anything about your documents."
  }

  /** The text of the reply appended when a request completes. */
  function ReplyText(result: FetchResult): string
  {
    match result
    case Responded(response) => response
    case Threw => ErrorReply
  }

  /** The first half of handleSend, from the state before to the state after,
      with the request it issues: a blank input or a send in flight changes
      nothing and issues nothing; otherwise the input becomes a user message,
      the input is cleared, the flag is raised and the input is posted. */
  predicate SendStep(
    messages: seq<Message>, input: string, isLoading: bool, language: string,
    messages': seq<Message>, input': string, isLoading': bool,
    req: Option<ChatRequest>, now: int)
  {
    if IsBlank(input) || isLoading then
      req == None && messages' == messages && input' == input && isLoading' == isLoading
    else
      req == Some(ChatRequest(input, language, false))
      && messages' == messages + [Message(now, input, true, now)]
      && input' == "" && isLoading'
  }

  class ChatSession {
    var messages: seq<Message>
    var input: string
    var language: string
    var isLoading: bool

    /** The language starts as "en" and nothing ever changes it. */
    ghost predicate Valid()
      reads this
    {
      language == "en"
    }

    constructor ()
      ensures Valid()
      ensures messages == [] && input == "" && !isLoading
    {
      messages := [];
      input := "";
      language := "en";
      isLoading := false;
    }

    /** The text field's change handler. */
    method SetInput(text: string)
      modifies this
      ensures input == text
      ensures messages == old(messages) && language == old(language) && isLoading == old(isLoading)
    {
      input := text;
    }

    /** handleSend up to the `fetch` call. */
    method BeginSend(now: int) returns (req: Option<ChatRequest>)
      requires Valid()
      modifies this
      ensures Valid()
      ensures SendStep(old(messages), old(input), old(isLoading), old(language), messages, input, isLoading, req, now)
      ensures req.Some? ==> req.value.language == "en" && !req.value.useVoice
    {
      if IsBlank(input) || isLoading {
        return None;
      }
      var userMessage := Message(now, input, true, now);
      req := Some(ChatRequest(input, language, false));
      messages := messages + [userMessage];
      input := "";
      isLoading := true;
    }

    /** handleSend after the `fetch` call: exactly one non-user message is
        appended, and the flag is lowered whatever the outcome. */
    method CompleteSend(result: FetchResult, now: int)
      modifies this
      ensures messages == old(messages) + [Message(now + 1, ReplyText(result), false, now)]
      ensures !isLoading
      ensures input == old(input) && language == old(language)
    {
      var reply := Message(now + 1, ReplyText(result), false, now);
      messages := messages + [reply];
      isLoading := false;
    }

    /** handleSend run to completion with no other event in between: an
        accepted send grows the history by exactly two, the user's message
        followed by the reply, and leaves the earlier history untouched. */
    method HandleSend(result: FetchResult, now: int, later: int) returns (req: Option<ChatRequest>)
      requires Valid()
      modifies this
      ensures Valid()
      ensures req.None? ==> messages == old(messages) && input == old(input) && isLoading == old(isLoading)
      ensures req.Some? ==>
        && |messages| == |old(messages)| + 2
        && messages[..|old(messages)|] == old(messages)
        && messages[|old(messages)|] == Message(now, old(input), true, now)
        && messages[|old(messages)| + 1] == Message(later + 1, ReplyText(result), false, later)
        && input == "" && !isLoading
        && req.value == ChatRequest(old(input), "en", false)
    {
      req := BeginSend(now);
      if req.Some? {
        CompleteSend(result, later);
      }
    }

    /** The files-changed effect: a non-empty file list replaces the whole
        history with one welcome message stating the file count. */
    method FilesChanged(fileCount: nat, now: int)
      modifies this
      ensures fileCount > 0 ==> messages == [Message(now, WelcomeText(fileCount), false, now)]
      ensures fileCount == 0 ==> messages == old(messages)
      ensures input == old(input) && language == old(language) && isLoading == old(isLoading)
    {
      if fileCount > 0 {
        messages := [Message(now, WelcomeText(fileCount), false, now)];
      }
    }

    /** handleKeyPress: Enter without Shift sends; any other key does nothing. */
    method KeyPress(key: string, shift: bool, now: int) returns (req: Option<ChatRequest>)
      requires Valid()
      modifies this
      ensures Valid()
      ensures key == "Enter" && !shift ==>
        SendStep(old(messages), old(input), old(isLoading), old(language), messages, input, isLoading, req, now)
      ensures key != "Enter" || shift ==>
        req == None && messages == old(messages) && input == old(input) && isLoading == old(isLoading)
    {
      if key == "Enter" && !shift {
        req := BeginSend(now);
      } else {
        req := None;
      }
    }
  }

  /** A send while a request is in flight is refused, whatever the input. */
  lemma {:induction false} NoSendWhileLoading(
    messages: seq<Message>, input: string, language: string,
    messages': seq<Message>, input': string, isLoading': bool,
    req: Option<ChatRequest>, now: int)
    requires SendStep(messages, input, true, language, messages', input', isLoading', req, now)
    ensures req == None && messages' == messages && input' == input && isLoading'
  {
  }

  /** An accepted send carries the untrimmed input as its message. */
  lemma {:induction false} AcceptedSendKeepsInput(
    messages: seq<Message>, input: string, isLoading: bool, language: string,
    messages': seq<Message>, input': string, isLoading': bool,
    req: Option<ChatRequest>, now: int)
    requires SendStep(messages, input, isLoading, language, messages', input', isLoading', req, now)
    requires req.Some?
    ensures !IsBlank(input) && !isLoading
    ensures req.value.message == input && input != []
    ensures messages'[|messages|].text == input && messages'[|messages|].isUser
  {
  }
}
