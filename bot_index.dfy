/**
  The entry point of `src/index.js`: the command table built once at load
  time, and the decision `handleUpdate` takes for each Telegram update:
  whether the message text is a command, which name it carries, and which
  handler (if any) runs. The handlers themselves, the Telegram client and
  the HTTP plumbing are outside the model; whether the handler that ran
  threw is a parameter.
 */
module BotIndex {
  import opened Wrappers
  import opened JsStrings

  /** The handler each imported command module contributes. */
  datatype Handler = Start | Ping | CurrencyPrize

  /** A command module's `{ name, handler }`. */
  datatype Command = Command(name: string, handler: Handler)

  const StartCommand: Command := Command("/start", Start)
  const PingCommand: Command := Command("/ping", Ping)
  const CurrencyPrizeCommand: Command := Command("/currencyprize", CurrencyPrize)

  /** The `Map` of command names to handlers. */
  class CommandTable {
    var handlers: map<string, Handler>

    /** `new Map()`. */
    constructor()
      ensures handlers == map[]
    {
      handlers := map[];
    }

    /** `commands.set(name, handler)`: adds the entry, or replaces the handler already under `name`. */
    method Set(name: string, handler: Handler)
      modifies this
      ensures handlers == old(handlers)[name := handler]
    {
      handlers := handlers[name := handler];
    }

    /** `commands.has(name)`. */
    predicate Has(name: string)
      reads this
    {
      name in handlers
    }

    /** `commands.get(name)`, with `undefined` as `None`. */
    function Get(name: string): (h: Option<Handler>)
      reads this
      ensures h.Some? <==> Has(name)
      ensures h.Some? ==> h.value == handlers[name]
    {
      if name in handlers then Some(handlers[name]) else None
    }
  }

  /** The three registered commands, by name. */
  function RegisteredCommands(): map<string, Handler>
  {
    map["/start" := Start, "/ping" := Ping, "/currencyprize" := CurrencyPrize]
  }

  /** The table the module builds when it loads: `new Map()` and three `commands.set` calls. */
  method BuildCommands() returns (t: CommandTable)
    ensures fresh(t)
    ensures t.handlers == RegisteredCommands()
  {
    t := new CommandTable();
    t.Set(StartCommand.name, StartCommand.handler);
    t.Set(PingCommand.name, PingCommand.handler);
    t.Set(CurrencyPrizeCommand.name, CurrencyPrizeCommand.handler);
  }

  /** Exactly `/start`, `/ping` and `/currencyprize` are registered, each to its own handler. */
  lemma RegisteredCommandsExactly(name: string)
    ensures name in RegisteredCommands() <==> name == "/start" || name == "/ping" || name == "/currencyprize"
    ensures name == "/start" ==> RegisteredCommands()[name] == Start
    ensures name == "/ping" ==> RegisteredCommands()[name] == Ping
    ensures name == "/currencyprize" ==> RegisteredCommands()[name] == CurrencyPrize
  {
  }

  // ---------------------------------------------------------------------------
  // The command name
  // ---------------------------------------------------------------------------

  /**
    The command name in `text`: `text.split(' ')[0].split('@')[0]` when
    `text` starts with `/`, and `None` when it is not a command at all.
    The name runs from the `/` up to the first space or `@`, and holds neither.
   */
  function CommandName(text: string): (r: Option<string>)
    ensures r.Some? <==> StartsWith(text, "/")
    ensures r.Some? ==>
      && 0 < |r.value| <= |text| && r.value == text[..|r.value|] && r.value[0] == '/'
      && ' ' !in r.value && '@' !in r.value
      && (|r.value| < |text| ==> text[|r.value|] == ' ' || text[|r.value|] == '@')
  {
    if StartsWith(text, "/") then
      var word := SplitHead(text, ' ');
      assert word != [];
      var name := SplitHead(word, '@');
      assert name != [];
      Some(name)
    else None
  }

  /** The name `split` cuts out is the prefix of `text` before the first space or `@`. */
  lemma CommandNameFirstSeparator(text: string, i: nat)
    requires StartsWith(text, "/") && i <= |text|
    requires forall k :: 0 <= k < i ==> text[k] != ' ' && text[k] != '@'
    requires i < |text| ==> text[i] == ' ' || text[i] == '@'
    ensures CommandName(text) == Some(text[..i])
  {
  }

  /** A name followed by a space or `@` and anything at all is cut off at that separator. */
  lemma CommandNameBeforeSeparator(name: string, sep: char, rest: string)
    requires StartsWith(name, "/") && ' ' !in name && '@' !in name
    requires sep == ' ' || sep == '@'
    ensures CommandName(name + [sep] + rest) == Some(name)
  {
    var text := name + [sep] + rest;
    forall k | 0 <= k < |name| ensures text[k] != ' ' && text[k] != '@' {
      assert text[k] == name[k];
    }
    CommandNameFirstSeparator(text, |name|);
    assert text[..|name|] == name;
  }

  /** `/ping@YourBotName x` names the command `/ping`. */
  lemma CommandNameStripsBotSuffix()
    ensures CommandName("/ping@YourBotName x") == Some("/ping")
  {
    var text := "/ping@YourBotName x";
    assert text[..5] == "/ping" by {
      assert text[0] == '/' && text[1] == 'p' && text[2] == 'i' && text[3] == 'n' && text[4] == 'g';
    }
    CommandNameFirstSeparator(text, 5);
  }

  /** Only U+0020 ends the name: `/ping` followed by a newline and an argument is one name. */
  lemma CommandNameIgnoresNewline()
    ensures CommandName("/ping\nx") == Some("/ping\nx")
  {
    var text := "/ping\nx";
    CommandNameFirstSeparator(text, |text|);
    assert text[..|text|] == text;
  }

  // ---------------------------------------------------------------------------
  // handleUpdate
  // ---------------------------------------------------------------------------

  /** The part of a Telegram message the bot reads. */
  datatype Message = Message(chatId: int, threadId: Option<int>, text: Option<string>)

  /** A Telegram update, which may or may not carry a message. */
  datatype Update = Update(message: Option<Message>)

  /**
    A call `telegram.sendMessage(chatId, text, env, threadId)`, with the
    arguments it is passed. The transport sends `chatId` and `text` only.
   */
  datatype Reply = Reply(chatId: int, threadId: Option<int>, text: string)

  /** What `handleUpdate` did: the handler it ran, the replies it sent itself, and its HTTP response body. */
  datatype Outcome = Outcome(ran: Option<Handler>, replies: seq<Reply>, response: string)

  const ErrorReplyText: string := "An error occurred while processing your command."

  const OkResponse: string := "OK"

  /** `message.text || ''`. */
  function TextOf(m: Message): string
  {
    match m.text
    case None => ""
    case Some(t) => t
  }

  /**
    The handler `handleUpdate` picks for `update`: `commands.has(name)`, then
    `commands.get(name)`, for the name its text carries.
   */
  function Dispatch(commands: CommandTable, update: Update): (h: Option<Handler>)
    reads commands
    ensures h.Some? <==>
      && update.message.Some?
      && CommandName(TextOf(update.message.value)).Some?
      && CommandName(TextOf(update.message.value)).value in commands.handlers
    ensures h.Some? ==> h.value == commands.handlers[CommandName(TextOf(update.message.value)).value]
  {
    match update.message
    case None => None
    case Some(m) =>
      match CommandName(TextOf(m))
      case None => None
      case Some(name) => if commands.Has(name) then commands.Get(name) else None
  }

  /**
    `handleUpdate(update, env)`: run the handler the command names, if one
    is registered; when it throws (`handlerFails`), send one error reply to
    the message's chat, passing its thread too. The response is `OK` in every case.
   */
  function HandleUpdate(commands: CommandTable, update: Update, handlerFails: bool): (o: Outcome)
    reads commands
    ensures o.response == OkResponse
    ensures o.ran == Dispatch(commands, update)
    ensures o.replies != [] <==> o.ran.Some? && handlerFails
    ensures o.replies != [] ==>
      o.replies == [Reply(update.message.value.chatId, update.message.value.threadId, ErrorReplyText)]
  {
    var ran := Dispatch(commands, update);
    if ran.Some? && handlerFails then
      var m := update.message.value;
      Outcome(ran, [Reply(m.chatId, m.threadId, ErrorReplyText)], OkResponse)
    else
      Outcome(ran, [], OkResponse)
  }

  /** Text that does not start with `/` runs nothing and sends nothing. */
  lemma NonCommandRunsNothing(commands: CommandTable, m: Message, handlerFails: bool)
    requires !StartsWith(TextOf(m), "/")
    ensures HandleUpdate(commands, Update(Some(m)), handlerFails) == Outcome(None, [], OkResponse)
  {
  }

  /** No message, or a message without text, dispatches nothing. */
  lemma NoTextRunsNothing(commands: CommandTable, update: Update, handlerFails: bool)
    requires update.message.None? || update.message.value.text.None?
    ensures HandleUpdate(commands, update, handlerFails) == Outcome(None, [], OkResponse)
  {
  }

  /**
    With the table the module builds (see `BuildCommands`), a handler runs exactly for the names
    `/start`, `/ping` and `/currencyprize`, and it is that command's handler.
   */
  lemma OnlyRegisteredCommandsRun(commands: CommandTable, update: Update)
    requires commands.handlers == RegisteredCommands()
    ensures Dispatch(commands, update).Some? <==>
      && update.message.Some?
      && CommandName(TextOf(update.message.value)).Some?
      && CommandName(TextOf(update.message.value)).value in {"/start", "/ping", "/currencyprize"}
    ensures Dispatch(commands, update) == Some(Start) ==>
      CommandName(TextOf(update.message.value)) == Some("/start")
    ensures Dispatch(commands, update) == Some(Ping) ==>
      CommandName(TextOf(update.message.value)) == Some("/ping")
    ensures Dispatch(commands, update) == Some(CurrencyPrize) ==>
      CommandName(TextOf(update.message.value)) == Some("/currencyprize")
  {
    if update.message.Some? && CommandName(TextOf(update.message.value)).Some? {
      RegisteredCommandsExactly(CommandName(TextOf(update.message.value)).value);
    }
  }

  /** A failing handler gets exactly one error reply, addressed to the chat and thread it came from. */
  lemma FailureSendsOneReply(commands: CommandTable, m: Message)
    requires Dispatch(commands, Update(Some(m))).Some?
    ensures HandleUpdate(commands, Update(Some(m)), true).replies == [Reply(m.chatId, m.threadId, ErrorReplyText)]
    ensures HandleUpdate(commands, Update(Some(m)), false).replies == []
  {
  }

  /** Once the name is known, the table alone decides. */
  lemma DispatchByName(commands: CommandTable, m: Message, name: string)
    requires CommandName(TextOf(m)) == Some(name)
    ensures Dispatch(commands, Update(Some(m))) == if name in commands.handlers then Some(commands.handlers[name]) else None
  {
  }

  /** `/ping@YourBotName x` in a thread runs the ping handler. */
  lemma PingWithBotSuffixRuns(commands: CommandTable, chatId: int, threadId: Option<int>)
    requires commands.handlers == RegisteredCommands()
    ensures Dispatch(commands, Update(Some(Message(chatId, threadId, Some("/ping@YourBotName x")))))
         == Some(Ping)
  {
    var m := Message(chatId, threadId, Some("/ping@YourBotName x"));
    CommandNameStripsBotSuffix();
    DispatchByName(commands, m, "/ping");
    RegisteredCommandsExactly("/ping");
  }

  /** `/ping` with a newline before its argument is not a registered name, so nothing runs. */
  lemma PingWithNewlineDoesNotRun(commands: CommandTable, chatId: int, threadId: Option<int>)
    requires commands.handlers == RegisteredCommands()
    ensures Dispatch(commands, Update(Some(Message(chatId, threadId, Some("/ping\nx"))))) == None
  {
    var m := Message(chatId, threadId, Some("/ping\nx"));
    CommandNameIgnoresNewline();
    DispatchByName(commands, m, "/ping\nx");
    RegisteredCommandsExactly("/ping\nx");
  }
}
