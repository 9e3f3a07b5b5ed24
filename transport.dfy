/**
 The Telegram Bot API as the reply pipeline sees it: one call, `send_message`,
 that either succeeds or raises an API exception. The exception is classified
 into the kinds the sender distinguishes, and the transport's behaviour is an
 oracle: the answer to a call may depend on its position in the conversation's
 call history and on the message itself.
 */
module Telegram {

  datatype Option<T> = None | Some(value: T)

  /** `parse_mode='Markdown'` or no parse mode at all. */
  datatype ParseMode = Markdown | Plain

  /** One call of `bot.send_message(chat_id, text, parse_mode, reply_to_message_id)`. */
  datatype Delivery = Delivery(chat: int, text: string, mode: ParseMode, replyTo: Option<int>)

  /** How a call ends: success; an `ApiTelegramException` whose text contains
      "can't parse entities" (checked first), one whose text contains "message is too
      long", or any other `ApiTelegramException`; or an exception of another class
      (a network failure, say), which no handler of the reply pipeline catches. */
  datatype Outcome = Ok | ParseError | TooLong | Other | Unhandled

  /** The bot object: a fixed oracle and the record of every call made through it. */
  class Transport {
    const respond: (nat, Delivery) -> Outcome
    var calls: seq<Delivery>

    constructor (respond: (nat, Delivery) -> Outcome)
      ensures this.respond == respond
      ensures calls == []
    {
      this.respond := respond;
      calls := [];
    }

    /** Performs one API call; it is recorded whether or not it raised. */
    method SendMessage(d: Delivery) returns (o: Outcome)
      modifies this
      ensures calls == old(calls) + [d]
      ensures o == respond(|old(calls)|, d)
    {
      o := respond(|calls|, d);
      calls := calls + [d];
    }
  }
}
