/**
 The safe sender: delivers one message, first with the requested parse mode,
 and reacts to the API's exception. A parse error is answered by one plain
 resend of the stripped text; "too long" by one plain, stripped, truncated
 copy with the overflow notice, after which the batch is stopped; any other
 API error ends the call. An exception that is not an API exception escapes,
 and so does any exception of the two fallback sends, which are not guarded.
 */
module SafeSender {
  import opened Telegram
  import opened Stripper
  import opened Constants

  /** How a call to the sender ends: it returns a flag, or an exception escapes it. */
  datatype Status = Returned(success: bool) | Raised(error: Outcome)

  /** The API calls one send made and how it ended. */
  datatype Step = Step(calls: seq<Delivery>, status: Status)

  function ModeFor(attemptMarkdown: bool): ParseMode {
    if attemptMarkdown then Markdown else Plain
  }

  /** Python's `s[:n]`, which clamps at the end of the string. */
  function Take(s: string, n: nat): (r: string)
    ensures |r| == if |s| <= n then |s| else n
    ensures r == s[..|r|]
  {
    if |s| <= n then s else s[..n]
  }

  /** An unguarded follow-up call: success keeps the planned status, a failure escapes. */
  function Settle(o: Outcome, planned: Status): Status {
    if o == Ok then planned else Raised(o)
  }

  /** The decision procedure, against the oracle `respond` whose next call has index `k`. */
  function SafeSend(respond: (nat, Delivery) -> Outcome, k: nat, chat: int, text: string,
                    replyTo: Option<int>, attemptMarkdown: bool): Step
  {
    var first := Delivery(chat, text, ModeFor(attemptMarkdown), replyTo);
    match respond(k, first)
    case Ok => Step([first], Returned(true))
    case ParseError =>
      var retry := Delivery(chat, Clean(text), Plain, replyTo);
      Step([first, retry], Settle(respond(k + 1, retry), Returned(true)))
    case TooLong =>
      var notice := Delivery(chat, Take(Clean(text), MaxTelegramLength) + OverflowMessage, Plain, replyTo);
      Step([first, notice], Settle(respond(k + 1, notice), Returned(false)))
    case Other => Step([first], Returned(false))
    case Unhandled => Step([first], Raised(Unhandled))
  }

  /** The shape of every call: one or two API calls, both to the same chat with the same
      reply id; a second call exactly after a parse or length error, always plain; `True`
      exactly when the first call or the plain resend was accepted; an exception escapes
      exactly when the first call raised one that is not an API exception or the second call
      failed, and it is that exception. */
  lemma SafeSendShape(respond: (nat, Delivery) -> Outcome, k: nat, chat: int, text: string,
                      replyTo: Option<int>, attemptMarkdown: bool)
    ensures var r := SafeSend(respond, k, chat, text, replyTo, attemptMarkdown);
            var o := respond(k, r.calls[0]);
            1 <= |r.calls| <= 2 &&
            r.calls[0] == Delivery(chat, text, ModeFor(attemptMarkdown), replyTo) &&
            (forall d :: d in r.calls ==> d.chat == chat && d.replyTo == replyTo) &&
            (|r.calls| == 2 <==> o == ParseError || o == TooLong) &&
            (|r.calls| == 2 ==> r.calls[1].mode == Plain) &&
            (r.status == Returned(true) <==> o == Ok || (o == ParseError && respond(k + 1, r.calls[1]) == Ok)) &&
            (r.status.Raised? <==> o == Unhandled || (|r.calls| == 2 && respond(k + 1, r.calls[1]) != Ok)) &&
            (r.status.Raised? ==> r.status.error == if |r.calls| == 2 then respond(k + 1, r.calls[1]) else Unhandled)
  {
  }

  /** First attempt accepted: one call, in the requested mode, and `True`. */
  lemma FirstAttemptAccepted(respond: (nat, Delivery) -> Outcome, k: nat, chat: int, text: string,
                             replyTo: Option<int>, attemptMarkdown: bool)
    requires respond(k, Delivery(chat, text, ModeFor(attemptMarkdown), replyTo)) == Ok
    ensures SafeSend(respond, k, chat, text, replyTo, attemptMarkdown)
         == Step([Delivery(chat, text, if attemptMarkdown then Markdown else Plain, replyTo)], Returned(true))
  {
  }

  /** Parse error: exactly one further plain call with the stripped text and the same reply id. */
  lemma ParseErrorFallsBackToPlain(respond: (nat, Delivery) -> Outcome, k: nat, chat: int, text: string,
                                   replyTo: Option<int>, attemptMarkdown: bool)
    requires respond(k, Delivery(chat, text, ModeFor(attemptMarkdown), replyTo)) == ParseError
    ensures var r := SafeSend(respond, k, chat, text, replyTo, attemptMarkdown);
            r.calls[1..] == [Delivery(chat, Clean(text), Plain, replyTo)] &&
            (respond(k + 1, r.calls[1]) == Ok ==> r.status == Returned(true))
  {
  }

  /** Too long: one plain call with the stripped text cut to 4096 characters plus the
      overflow notice, and `False` even though that copy was sent. */
  lemma TooLongTruncates(respond: (nat, Delivery) -> Outcome, k: nat, chat: int, text: string,
                         replyTo: Option<int>, attemptMarkdown: bool)
    requires respond(k, Delivery(chat, text, ModeFor(attemptMarkdown), replyTo)) == TooLong
    ensures var r := SafeSend(respond, k, chat, text, replyTo, attemptMarkdown);
            r.calls[1..] == [Delivery(chat, Take(Clean(text), MaxTelegramLength) + OverflowMessage, Plain, replyTo)] &&
            r.status != Returned(true) &&
            (respond(k + 1, r.calls[1]) == Ok ==> r.status == Returned(false))
  {
  }

  /** The overflow copy is the stripped text, cut to 4096 characters, followed by the 55-character
      notice; so from a stripped text of 4042 characters on it is itself over Telegram's limit. */
  lemma OverflowCopyLength(text: string)
    ensures var n := |Clean(text)|;
            |Take(Clean(text), MaxTelegramLength) + OverflowMessage| == (if n <= MaxTelegramLength then n else MaxTelegramLength) + 55
    ensures |Take(Clean(text), MaxTelegramLength) + OverflowMessage| > MaxTelegramLength <==> |Clean(text)| > MaxTelegramLength - 55
  {
    assert |OverflowMessage| == 55;
  }

  /** Any other error: no further call, and `False`. */
  lemma OtherErrorGivesUp(respond: (nat, Delivery) -> Outcome, k: nat, chat: int, text: string,
                          replyTo: Option<int>, attemptMarkdown: bool)
    requires respond(k, Delivery(chat, text, ModeFor(attemptMarkdown), replyTo)) == Other
    ensures SafeSend(respond, k, chat, text, replyTo, attemptMarkdown).calls
         == [Delivery(chat, text, ModeFor(attemptMarkdown), replyTo)]
    ensures SafeSend(respond, k, chat, text, replyTo, attemptMarkdown).status == Returned(false)
  {
  }

  /** An exception that is not an API exception escapes at once, after the one call. */
  lemma UnhandledEscapes(respond: (nat, Delivery) -> Outcome, k: nat, chat: int, text: string,
                         replyTo: Option<int>, attemptMarkdown: bool)
    requires respond(k, Delivery(chat, text, ModeFor(attemptMarkdown), replyTo)) == Unhandled
    ensures SafeSend(respond, k, chat, text, replyTo, attemptMarkdown)
         == Step([Delivery(chat, text, ModeFor(attemptMarkdown), replyTo)], Raised(Unhandled))
  {
  }

  /** When the sender reports success, its last call was accepted and carried the reply's
      content: the text as given, or its stripped form, which strips to the same thing. */
  lemma SuccessDeliversContent(respond: (nat, Delivery) -> Outcome, k: nat, chat: int, text: string,
                               replyTo: Option<int>, attemptMarkdown: bool)
    requires SafeSend(respond, k, chat, text, replyTo, attemptMarkdown).status == Returned(true)
    ensures var r := SafeSend(respond, k, chat, text, replyTo, attemptMarkdown);
            var last := |r.calls| - 1;
            respond(k + last, r.calls[last]) == Ok &&
            (r.calls[last].text == text || r.calls[last].text == Clean(text)) &&
            Clean(r.calls[last].text) == Clean(text)
  {
    CleanIdempotent(text);
  }

  /** `send_message_safely` on the bot object. */
  method SendSafely(bot: Transport, chat: int, text: string, replyTo: Option<int>, attemptMarkdown: bool)
    returns (status: Status)
    modifies bot
    ensures var r := SafeSend(bot.respond, |old(bot.calls)|, chat, text, replyTo, attemptMarkdown);
            bot.calls == old(bot.calls) + r.calls && status == r.status
  {
    var first := Delivery(chat, text, ModeFor(attemptMarkdown), replyTo);
    var o := bot.SendMessage(first);
    match o {
      case Ok =>
        status := Returned(true);
      case ParseError =>
        var o2 := bot.SendMessage(Delivery(chat, Clean(text), Plain, replyTo));
        status := Settle(o2, Returned(true));
      case TooLong =>
        var o2 := bot.SendMessage(Delivery(chat, Take(Clean(text), MaxTelegramLength) + OverflowMessage, Plain, replyTo));
        status := Settle(o2, Returned(false));
      case Other =>
        status := Returned(false);
      case Unhandled =>
        status := Raised(Unhandled);
    }
  }
}
