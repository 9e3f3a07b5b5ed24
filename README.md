# Reply delivery of a Telegram chat bot, modelled in Dafny

The bot answers a user's message with text from a language model. Reply text can be long and full of
Markdown, so it goes out through a small pipeline of three functions:

- `split_and_send_messages` cuts the text into windows of at most 3800 characters. It appends a
  continuation notice to every window but the last, then sends the pieces in order. Only the first
  piece is a reply to the user's message. The batch stops at the first piece that is not reported
  as sent.
- `send_message_safely` sends one piece with Telegram's `Markdown` parse mode. It reacts to the
  API's exception:
  - "can't parse entities" → one plain resend of the stripped text, then `True`;
  - "message is too long" → one plain copy of the stripped text cut to 4096 characters plus an
    overflow notice, then `False`;
  - any other API exception → `False`.
- `clean_text_from_markdown` deletes the four markup characters `*`, `_`, `` ` `` and `~`.

The model keeps the three functions and the four constants. They live in five modules:

- `Constants` (constants.dfy): the limits 4096 and 3800, and the two Russian notices, verbatim.
- `Stripper` (stripper.dfy): the stripper, written as the source writes it (four chained
  one-character replacements, `RemoveAll`). It is proved equal to a one-pass reference filter,
  `Strip`.
- `Telegram` (transport.dfy): the bot object as a class, `Transport`. Its `calls` field records
  every `send_message` call in order. Its `respond` oracle says how the call with a given index and
  content ends. API answers, and exceptions with their message classified, are therefore
  parameters of the model and not assumptions about Telegram.
- `SafeSender` (sender.dfy): `send_message_safely`.
  - `SafeSend` is the reference function over the oracle.
  - `SendSafely` is the imperative method on the bot object, proved to make exactly the calls
    `SafeSend` lists.
  - The two sends inside the `except` branches are not guarded. An exception they raise escapes
    the function, and so does an exception that is not an `ApiTelegramException`. The model's
    `Status` therefore has a `Raised` case beside the returned flag.
- `Chunker` (chunker.dfy): the chunking loop, as the method `Split`. It is proved equal to the
  recursive `Chunks`, and the windows themselves are `Bodies`.
- `Orchestrator` (orchestrator.dfy): the send loop.
  - `DeliverFrom` is the reference run, with one `Attempt` per chunk tried.
  - `SendAll` is the loop on the bot object, and `SplitAndSend` is the whole of
    `split_and_send_messages`.
  - `Escaped` is the exception, if any, that leaves the batch.

## Model

| member | source | states |
|---|---|---|
| Stripper.CleanIsStrip | main.py:32-34 | the four chained replacements delete exactly the markup characters and keep every other character in its original order (equal to the one-pass filter) |
| Stripper.CleanMembers | main.py:32-34 | a character occurs in the stripped text iff it occurs in the input and is none of the four markup characters |
| Stripper.RemoveAllMembers | main.py:34 | one `replace(c, '')` keeps exactly the characters other than `c` |
| Stripper.CleanIdempotent | main.py:32-34 | stripping twice gives the same text as stripping once |
| Stripper.CleanFixesPlainText | main.py:32-34 | text without markup passes through unchanged |
| Stripper.CleanLength | main.py:32-34 | the stripped text is shorter than the input by exactly the number of markup characters |
| Telegram.Transport.SendMessage | main.py:44-51 | one API call is appended to the bot's call history, and its outcome is the oracle's answer for that position and message |
| SafeSender.Take | main.py:68 | Python's `s[:n]`: the first `min(len(s), n)` characters |
| SafeSender.SafeSendShape | main.py:36-73 | one or two calls, all to the same chat with the same reply id; a second call exactly after a parse or length error, always plain; `True` exactly when the first call or the plain resend succeeded; an exception escapes exactly when the first call raised a non-API exception or the second call failed, and it is that exception |
| SafeSender.FirstAttemptAccepted | main.py:41-53 | accepted first call: exactly that call, in the requested parse mode, then `True` |
| SafeSender.ParseErrorFallsBackToPlain | main.py:55-63 | parse error: exactly one further call, plain, with the stripped text and the same reply id; `True` when that call succeeds |
| SafeSender.TooLongTruncates | main.py:65-69 | length error: exactly one further call, plain, with the stripped text cut to 4096 characters plus the overflow notice and the same reply id; never `True` |
| SafeSender.OverflowCopyLength | main.py:67-68 | the overflow copy has length min(len(stripped), 4096) + 55 (the notice of line 27), so it is over 4096 exactly when the stripped text has more than 4041 characters |
| SafeSender.OtherErrorGivesUp | main.py:71-73 | any other API error: no further call, `False` |
| SafeSender.UnhandledEscapes | main.py:41-55 | an exception of another class: no further call, and the exception escapes |
| SafeSender.SuccessDeliversContent | main.py:53-63 | when the sender reports success, its last call was accepted and carried either the reply's text or its stripped form, and either strips to the same text |
| SafeSender.SendSafely | main.py:36-73 | the calls made on the bot are exactly those of the reference decision procedure, and the returned flag or escaping exception is its status |
| Chunker.Split | main.py:79-92 | the chunking loop produces exactly the recursive chunk list |
| Chunker.BodiesRebuildText | main.py:83-92 | the windows concatenate back to the text |
| Chunker.BodiesSizes | main.py:84-85 | every window is non-empty and at most 3800 characters |
| Chunker.BodiesAreWindows | main.py:83-92 | window `i` is `text[i*3800 : min((i+1)*3800, len)]`, so the windows are consecutive |
| Chunker.BodyAt | main.py:84-92 | the same for one window |
| Chunker.ChunksMarkBodies | main.py:87-91 | every chunk but the last is its window plus the continuation notice; the last is its window alone |
| Chunker.ChunkAt | main.py:87-91 | the same for one chunk |
| Chunker.ChunkCount | main.py:83-92 | the number of chunks is ceil(len / 3800) |
| Chunker.ShortText | main.py:83-92 | empty text gives no chunk; text of at most 3800 characters gives one chunk, the text itself, with no notice |
| Chunker.ChunksFitTelegram | main.py:84-89 | every chunk, notice included, has at most 4096 characters (3800 plus the 40-character notice) |
| Chunker.TenThousandCharacters | main.py:83-92 | a 10000-character text becomes chunks of 3840, 3840 and 2400 characters: two full windows with notices and the remainder |
| Orchestrator.DeliverShape | main.py:95-104 | the attempts are on a prefix of the chunk list, in order; chunk 0's attempt carries the caller's reply id and later ones none (DeliverCalls states the same of the calls they make); every attempt but the last reported success; the loop stops early only after a failure |
| Orchestrator.DeliverFromLength | main.py:95 | a run makes at most one attempt per chunk, and at least one when there is a chunk |
| Orchestrator.DeliverFromAt | main.py:95-100 | attempt `j` is on chunk `j`, with the reply id exactly when `j` is 0 |
| Orchestrator.StepIsSend | main.py:95-100 | the calls of attempt `j` are the safe sender's run on chunk `j` with chunk `j`'s reply id |
| Orchestrator.DeliverCalls | main.py:95-100 | every attempt makes one or two calls; the first is chunk `j` itself in Markdown; all go to the chat, with the caller's reply id for chunk 0 and none after |
| Orchestrator.DeliverFromGoesOn | main.py:102-104 | the run goes on past attempt `j` iff that attempt reported success and a chunk is left |
| Orchestrator.EmptyReplySendsNothing | main.py:83-95 | an empty reply makes no attempt and no API call |
| Orchestrator.AllAcceptedDeliversEverything | main.py:95-104 | when Telegram accepts every call, every chunk goes out exactly once, in order, as Markdown, each to the chat, and only the first as a reply |
| Orchestrator.ExpectedAt | main.py:95-100 | the reference sequence of deliveries has one entry per chunk: chunk `i`, Markdown, with the reply id exactly when `i` is 0 |
| Orchestrator.SendAll | main.py:95-104 | the calls made on the bot are exactly those of the reference run, and the exception that escapes, if any, is the one its last attempt raised |
| Orchestrator.SplitAndSend | main.py:75-104 | chunk the reply, then send the chunks: the calls made are those of the reference run over the recursive chunk list |

## Left out

- The rest of the bot is not part of this model: the webhook and Flask routes, the Gemini client and the
  per-chat session store, the command and message handlers, the system prompt, `send_chat_action`,
  environment configuration, and the `print` logging inside `send_message_safely`.
- Classifying an exception by a substring of its text (`'can't parse entities' in str(e)`, then
  `'message is too long'`): the model receives the class as an `Outcome` from the oracle. How
  Telegram itself decides to reject a message (its UTF-16 length count, its Markdown parser) is the
  oracle's business and is not modelled.
- Lengths and slices count code points, as Python's `len` and slicing do on `str`. A Dafny `string`
  holds Unicode scalar values only, so a Python string with a lone surrogate (U+D800 to U+DFFF,
  which `json.loads` can produce) is outside the model.
- SafeSender.TooLongTruncates: states no length bound for the overflow copy, because the source gives
  none; OverflowCopyLength gives its exact length, which exceeds 4096 for long stripped texts.
- Orchestrator.DeliverFromAt: states the chunk and reply id of attempt `j`. StepIsSend and
  DeliverCalls state that the attempt's calls are the safe sender's run on that chunk and reply id.
  SendAll states that the calls on the bot are exactly those of the run. No lemma gives the index
  in the call history at which attempt `j` starts.
- Concurrency between webhook requests sharing the one bot object is not modelled; each batch is
  taken to run alone against the bot's call history.
