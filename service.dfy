/** The chat session of the legacy AI service (`Service`): a chat is created
    once, and the system prompt goes out with the first message only. The
    two client calls are foreign code: their outcomes are parameters, and
    every call made is recorded in `calls`. */
module Session {
  import opened Common

  datatype Role = System | User

  datatype Message = Message(role: Role, content: string)

  /** A call made on the client. */
  datatype Call =
    | CreateChat(firstMessage: string)
    | Send(chatID: string, messages: seq<Message>)
    | SendStream(chatID: string, messages: seq<Message>)
  {
    predicate IsSend() { Send? || SendStream? }
  }

  /** The messages of a request: the question alone, or preceded by the
      system prompt while the session has not yet been opened. */
  function Outgoing(initialized: bool, prompt: string, question: string): (m: seq<Message>)
    ensures |m| == (if initialized then 1 else 2)
    ensures m[|m| - 1] == Message(User, question)
    ensures m[0].role == System <==> !initialized
    ensures !initialized ==> m[0] == Message(System, prompt)
  {
    if initialized then [Message(User, question)]
    else [Message(System, prompt), Message(User, question)]
  }

  /** The message lists sent on the client, in order. */
  function Sent(calls: seq<Call>): (r: seq<seq<Message>>)
    ensures |r| <= |calls|
  {
    if calls == [] then []
    else
      var last := calls[|calls| - 1];
      Sent(calls[..|calls| - 1]) + (if last.IsSend() then [last.messages] else [])
  }

  /** The system prompt is sent once, in the first request, and every
      request ends with the user's question. */
  predicate PromptOnce(sent: seq<seq<Message>>, prompt: string) {
    forall k :: 0 <= k < |sent| ==>
      |sent[k]| == (if k == 0 then 2 else 1)
      && sent[k][0].role == (if k == 0 then System else User)
      && (k == 0 ==> sent[k][0] == Message(System, prompt) && sent[k][1].role == User)
  }

  const DefaultPrompt: string :=
    "Ты ZeroWorkflow AI - помощник разработчика. \nОтвечай кратко и по делу на русском языке.\n"
    + "Используй markdown для форматирования.\nДля блоков кода используй тройные бэктики с указанием языка: "
    + "```язык\nкод\n```"

  class Service {
    var chatID: string
    var initialized: bool
    const systemPrompt: string
    var calls: seq<Call>

    /** The session is opened exactly when a request has been sent, and the
        prompt went out with the first of them only. */
    predicate Valid()
      reads this
    {
      initialized == (Sent(calls) != []) && PromptOnce(Sent(calls), systemPrompt)
    }

    /** NewService, once its client exists: no chat and no request yet. */
    constructor ()
      ensures chatID == "" && !initialized && calls == [] && systemPrompt == DefaultPrompt
      ensures Valid()
    {
      chatID := "";
      initialized := false;
      systemPrompt := DefaultPrompt;
      calls := [];
    }

    /** ensureChat: with a chat id nothing happens; without one the client
        is asked to create a chat, whose id is kept on success. */
    method EnsureChat(firstMessage: string, created: Result<string, string>) returns (r: Outcome<string>)
      modifies this
      ensures initialized == old(initialized)
      ensures old(chatID) != "" ==> r == Pass && chatID == old(chatID) && calls == old(calls)
      ensures old(chatID) == "" ==> calls == old(calls) + [CreateChat(firstMessage)]
      ensures old(chatID) == "" && created.Success? ==> r == Pass && chatID == created.value
      ensures old(chatID) == "" && created.Failure? ==>
                r == Fail("failed to init chat: " + created.error) && chatID == ""
    {
      if chatID != "" {
        return Pass;
      }
      calls := calls + [CreateChat(firstMessage)];
      match created
        case Failure(e) =>
          return Fail("failed to init chat: " + e);
        case Success(id) =>
          chatID := id;
          return Pass;
    }

    /** Ask: after the chat is ensured, the question is sent, preceded by the
        system prompt on the first request; the session counts as opened
        before the reply is known, so a failed send never repeats the prompt. */
    method Ask(question: string, created: Result<string, string>, reply: Result<string, string>)
      returns (r: Result<string, string>)
      requires Valid()
      modifies this
      ensures Valid()
      ensures old(chatID) != "" ==> chatID == old(chatID)
      ensures (old(chatID) == "" && created.Failure?) ==>
                r == Failure("failed to init chat: " + created.error) && chatID == ""
                && initialized == old(initialized) && calls == old(calls) + [CreateChat(question)]
                && Sent(calls) == Sent(old(calls))
      ensures (old(chatID) != "" || created.Success?) ==>
                r == reply && initialized
                && chatID == (if old(chatID) == "" then created.value else old(chatID))
                && calls == old(calls) + (if old(chatID) == "" then [CreateChat(question)] else [])
                             + [Send(chatID, Outgoing(old(initialized), systemPrompt, question))]
    {
      r := Request(question, created, reply, false);
    }

    /** AskStream: as Ask, through the streaming send; the delta callback is
        handed to the client and is not part of this model. */
    method AskStream(question: string, created: Result<string, string>, reply: Result<string, string>)
      returns (r: Result<string, string>)
      requires Valid()
      modifies this
      ensures Valid()
      ensures old(chatID) != "" ==> chatID == old(chatID)
      ensures (old(chatID) == "" && created.Failure?) ==>
                r == Failure("failed to init chat: " + created.error) && chatID == ""
                && initialized == old(initialized) && calls == old(calls) + [CreateChat(question)]
                && Sent(calls) == Sent(old(calls))
      ensures (old(chatID) != "" || created.Success?) ==>
                r == reply && initialized
                && chatID == (if old(chatID) == "" then created.value else old(chatID))
                && calls == old(calls) + (if old(chatID) == "" then [CreateChat(question)] else [])
                             + [SendStream(chatID, Outgoing(old(initialized), systemPrompt, question))]
    {
      r := Request(question, created, reply, true);
    }

    /** The body shared by Ask and AskStream. */
    method Request(question: string, created: Result<string, string>, reply: Result<string, string>, streaming: bool)
      returns (r: Result<string, string>)
      requires Valid()
      modifies this
      ensures Valid()
      ensures old(chatID) != "" ==> chatID == old(chatID)
      ensures (old(chatID) == "" && created.Failure?) ==>
                r == Failure("failed to init chat: " + created.error) && chatID == ""
                && initialized == old(initialized) && calls == old(calls) + [CreateChat(question)]
                && Sent(calls) == Sent(old(calls))
      ensures (old(chatID) != "" || created.Success?) ==>
                r == reply && initialized
                && chatID == (if old(chatID) == "" then created.value else old(chatID))
                && calls == old(calls) + (if old(chatID) == "" then [CreateChat(question)] else [])
                             + [SendCall(streaming, chatID, Outgoing(old(initialized), systemPrompt, question))]
    {
      ghost var before := calls;
      ghost var created0 := if chatID == "" then [CreateChat(question)] else [];
      var ok := EnsureChat(question, created);
      if ok.Fail? {
        SentSnoc(before, CreateChat(question));
        return Failure(ok.error);
      }
      assert calls == before + created0;
      var wasInitialized := initialized;
      var msgs := Outgoing(initialized, systemPrompt, question);
      initialized := true;
      var c := SendCall(streaming, chatID, msgs);
      OpenCalls(calls, c, wasInitialized, question);
      calls := calls + [c];
      r := reply;
    }

    /** The request as the next client call records it. */
    lemma OpenCalls(before: seq<Call>, c: Call, wasInitialized: bool, question: string)
      requires initialized && c.IsSend()
      requires wasInitialized == (Sent(before) != []) && PromptOnce(Sent(before), systemPrompt)
      requires c.messages == Outgoing(wasInitialized, systemPrompt, question)
      ensures Sent(before + [c]) != [] && PromptOnce(Sent(before + [c]), systemPrompt)
    {
      SentSnoc(before, c);
    }
  }

  /** The record of a request, through the plain or the streaming send. */
  function SendCall(streaming: bool, chatID: string, messages: seq<Message>): (c: Call)
    ensures c.IsSend() && c.chatID == chatID && c.messages == messages
    ensures c.SendStream? <==> streaming
  {
    if streaming then SendStream(chatID, messages) else Send(chatID, messages)
  }

  /** Recording one more call adds its message list when it is a request. */
  lemma SentSnoc(calls: seq<Call>, c: Call)
    ensures Sent(calls + [c]) == Sent(calls) + (if c.IsSend() then [c.messages] else [])
  {
    assert (calls + [c])[..|calls|] == calls;
  }
}
