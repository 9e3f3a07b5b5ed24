/**
 The delivery orchestrator: chunks a reply and sends the chunks in order
 through the safe sender. Only the first chunk is threaded as a reply to
 the user's message; the first chunk that does not report success (or whose
 fallback raised) ends the batch.
 */
module Orchestrator {
  import opened Telegram
  import opened Chunker
  import opened SafeSender

  /** One call of the safe sender, given the index of the next API call, the chunk
      and the reply id. */
  type Sender = (nat, string, Option<int>) -> Step

  /** `send_message_safely` towards one chat, with Markdown attempted first. */
  function SenderFor(respond: (nat, Delivery) -> Outcome, chat: int): Sender {
    (k: nat, text: string, rt: Option<int>) => SafeSend(respond, k, chat, text, rt, true)
  }

  /** One call of the safe sender on one chunk. */
  datatype Attempt = Attempt(chunk: string, replyTo: Option<int>, step: Step)

  /** The reply id chunk `i` is sent with. */
  function ReplyFor(i: nat, replyTo: Option<int>): Option<int> {
    if i == 0 then replyTo else None
  }

  /** Every API call made by a run of attempts, in order. */
  function Calls(attempts: seq<Attempt>): seq<Delivery> {
    if |attempts| == 0 then [] else attempts[0].step.calls + Calls(attempts[1..])
  }

  /** The send loop from chunk `i` on, with the next API call at index `k`. */
  function DeliverFrom(send: Sender, k: nat, chunks: seq<string>, replyTo: Option<int>, i: nat): seq<Attempt>
    requires i <= |chunks|
    decreases |chunks| - i
  {
    if i == |chunks| then []
    else
      var rt := ReplyFor(i, replyTo);
      var s := send(k, chunks[i], rt);
      var a := Attempt(chunks[i], rt, s);
      if s.status == Returned(true)
      then [a] + DeliverFrom(send, k + |s.calls|, chunks, replyTo, i + 1)
      else [a]
  }

  /** The whole send loop of one reply towards one chat. */
  function Deliver(respond: (nat, Delivery) -> Outcome, k: nat, chat: int,
                   chunks: seq<string>, replyTo: Option<int>): seq<Attempt>
  {
    DeliverFrom(SenderFor(respond, chat), k, chunks, replyTo, 0)
  }

  /** The exception that escapes the batch, if a fallback send raised. */
  function Escaped(attempts: seq<Attempt>): Option<Outcome> {
    if |attempts| > 0 && attempts[|attempts| - 1].step.status.Raised?
    then Some(attempts[|attempts| - 1].step.status.error)
    else None
  }

  /** A run from chunk `i` makes at most one attempt per remaining chunk, and at least one
      when a chunk remains. */
  lemma {:induction false} DeliverFromLength(send: Sender, k: nat, chunks: seq<string>, replyTo: Option<int>, i: nat)
    requires i <= |chunks|
    ensures var r := DeliverFrom(send, k, chunks, replyTo, i);
            |r| <= |chunks| - i && (i < |chunks| <==> 0 < |r|)
    decreases |chunks| - i
  {
    if i < |chunks| {
      var s := send(k, chunks[i], ReplyFor(i, replyTo));
      DeliverFromLength(send, k + |s.calls|, chunks, replyTo, i + 1);
    }
  }

  lemma {:induction false} CallsAppend(a: seq<Attempt>, b: seq<Attempt>)
    ensures Calls(a + b) == Calls(a) + Calls(b)
  {
    if |a| > 0 {
      assert (a + b)[0] == a[0];
      assert (a + b)[1..] == a[1..] + b;
      CallsAppend(a[1..], b);
    } else {
      assert a + b == b;
    }
  }

  lemma CallsSnoc(done: seq<Attempt>, a: Attempt)
    ensures Calls(done + [a]) == Calls(done) + a.step.calls
  {
    CallsAppend(done, [a]);
    assert Calls([a]) == a.step.calls + Calls([]);
  }

  /** Attempt `j` of a run is on chunk `j`, with that chunk's reply id. */
  lemma {:induction false} DeliverFromAt(send: Sender, k: nat, chunks: seq<string>, replyTo: Option<int>, i: nat, j: nat)
    requires i <= j < |chunks|
    requires j - i < |DeliverFrom(send, k, chunks, replyTo, i)|
    ensures var r := DeliverFrom(send, k, chunks, replyTo, i);
            r[j - i].chunk == chunks[j] && r[j - i].replyTo == ReplyFor(j, replyTo)
    decreases j - i
  {
    if j > i {
      var s := send(k, chunks[i], ReplyFor(i, replyTo));
      var rest := DeliverFrom(send, k + |s.calls|, chunks, replyTo, i + 1);
      DeliverFromAt(send, k + |s.calls|, chunks, replyTo, i + 1, j);
      assert DeliverFrom(send, k, chunks, replyTo, i)[j - i] == rest[j - (i + 1)];
    }
  }

  /** The calls of attempt `j` are the sender's run on chunk `j` with that chunk's reply id,
      at some position in the API's call history. */
  lemma {:induction false} StepIsSend(send: Sender, k: nat, chunks: seq<string>, replyTo: Option<int>, i: nat, j: nat)
    requires i <= j < |chunks|
    requires j - i < |DeliverFrom(send, k, chunks, replyTo, i)|
    ensures exists n: nat :: DeliverFrom(send, k, chunks, replyTo, i)[j - i].step == send(n, chunks[j], ReplyFor(j, replyTo))
    decreases j - i
  {
    var s := send(k, chunks[i], ReplyFor(i, replyTo));
    if j == i {
      assert DeliverFrom(send, k, chunks, replyTo, i)[0].step == send(k, chunks[j], ReplyFor(j, replyTo));
    } else {
      var rest := DeliverFrom(send, k + |s.calls|, chunks, replyTo, i + 1);
      StepIsSend(send, k + |s.calls|, chunks, replyTo, i + 1, j);
      var n: nat :| rest[j - (i + 1)].step == send(n, chunks[j], ReplyFor(j, replyTo));
      assert DeliverFrom(send, k, chunks, replyTo, i)[j - i] == rest[j - (i + 1)];
    }
  }

  /** The run goes on past attempt `j` exactly when that attempt reported success and
      another chunk is left: every attempt but the last succeeded, nothing after the first
      failure is attempted, and the run ends early only after a failure. */
  lemma {:induction false} DeliverFromGoesOn(send: Sender, k: nat, chunks: seq<string>, replyTo: Option<int>, i: nat, j: nat)
    requires i <= j
    requires i <= |chunks|
    requires j - i < |DeliverFrom(send, k, chunks, replyTo, i)|
    ensures var r := DeliverFrom(send, k, chunks, replyTo, i);
            j - i + 1 < |r| <==> r[j - i].step.status == Returned(true) && j + 1 < |chunks|
    decreases j - i
  {
    var s := send(k, chunks[i], ReplyFor(i, replyTo));
    if s.status == Returned(true) {
      var rest := DeliverFrom(send, k + |s.calls|, chunks, replyTo, i + 1);
      DeliverFromLength(send, k + |s.calls|, chunks, replyTo, i + 1);
      if j > i {
        DeliverFromGoesOn(send, k + |s.calls|, chunks, replyTo, i + 1, j);
        assert DeliverFrom(send, k, chunks, replyTo, i)[j - i] == rest[j - (i + 1)];
      }
    }
  }

  /** The send loop over a chunk list: the attempted chunks are a prefix of the list, in
      order; only chunk 0 carries the caller's reply id; every attempt but the last reported
      success; and nothing after the first failure is attempted. */
  lemma DeliverShape(respond: (nat, Delivery) -> Outcome, k: nat, chat: int,
                     chunks: seq<string>, replyTo: Option<int>)
    ensures var r := Deliver(respond, k, chat, chunks, replyTo);
            |r| <= |chunks| &&
            (|chunks| == 0 <==> |r| == 0) &&
            (forall j :: 0 <= j < |r| ==> r[j].chunk == chunks[j]) &&
            (|r| > 0 ==> r[0].replyTo == replyTo) &&
            (forall j :: 0 < j < |r| ==> r[j].replyTo == None) &&
            (forall j :: 0 <= j < |r| - 1 ==> r[j].step.status == Returned(true)) &&
            (0 < |r| < |chunks| ==> r[|r| - 1].step.status != Returned(true))
  {
    var send := SenderFor(respond, chat);
    var r := DeliverFrom(send, k, chunks, replyTo, 0);
    DeliverFromLength(send, k, chunks, replyTo, 0);
    forall j | 0 <= j < |r|
      ensures r[j].chunk == chunks[j] && r[j].replyTo == ReplyFor(j, replyTo)
      ensures j < |r| - 1 ==> r[j].step.status == Returned(true)
      ensures j == |r| - 1 && j + 1 < |chunks| ==> r[j].step.status != Returned(true)
    {
      DeliverFromAt(send, k, chunks, replyTo, 0, j);
      DeliverFromGoesOn(send, k, chunks, replyTo, 0, j);
    }
  }

  /** The calls each attempt makes: one or two, the first being chunk `j` itself in Markdown,
      and all of them to the chat with chunk `j`'s reply id (the caller's for chunk 0, none after). */
  lemma DeliverCalls(respond: (nat, Delivery) -> Outcome, k: nat, chat: int,
                     chunks: seq<string>, replyTo: Option<int>)
    ensures var r := Deliver(respond, k, chat, chunks, replyTo);
            |r| <= |chunks| &&
            forall j :: 0 <= j < |r| ==>
              1 <= |r[j].step.calls| <= 2 &&
              r[j].step.calls[0] == Delivery(chat, chunks[j], Markdown, ReplyFor(j, replyTo)) &&
              (forall d :: d in r[j].step.calls ==> d.chat == chat && d.replyTo == ReplyFor(j, replyTo))
  {
    var r := Deliver(respond, k, chat, chunks, replyTo);
    DeliverFromLength(SenderFor(respond, chat), k, chunks, replyTo, 0);
    forall j | 0 <= j < |r|
      ensures 1 <= |r[j].step.calls| <= 2
      ensures r[j].step.calls[0] == Delivery(chat, chunks[j], Markdown, ReplyFor(j, replyTo))
      ensures forall d :: d in r[j].step.calls ==> d.chat == chat && d.replyTo == ReplyFor(j, replyTo)
    {
      AttemptCalls(respond, k, chat, chunks, replyTo, j);
    }
  }

  lemma AttemptCalls(respond: (nat, Delivery) -> Outcome, k: nat, chat: int,
                     chunks: seq<string>, replyTo: Option<int>, j: nat)
    requires j < |Deliver(respond, k, chat, chunks, replyTo)|
    ensures var c := Deliver(respond, k, chat, chunks, replyTo)[j].step.calls;
            j < |chunks| && 1 <= |c| <= 2 &&
            c[0] == Delivery(chat, chunks[j], Markdown, ReplyFor(j, replyTo)) &&
            (forall d :: d in c ==> d.chat == chat && d.replyTo == ReplyFor(j, replyTo))
  {
    var send := SenderFor(respond, chat);
    DeliverFromLength(send, k, chunks, replyTo, 0);
    StepIsSend(send, k, chunks, replyTo, 0, j);
    var n: nat :| DeliverFrom(send, k, chunks, replyTo, 0)[j].step == send(n, chunks[j], ReplyFor(j, replyTo));
    SenderApply(respond, chat, n, chunks[j], ReplyFor(j, replyTo));
    SafeSendShape(respond, n, chat, chunks[j], ReplyFor(j, replyTo), true);
  }

  /** An empty reply makes no attempt and no API call. */
  lemma EmptyReplySendsNothing(respond: (nat, Delivery) -> Outcome, k: nat, chat: int, replyTo: Option<int>)
    ensures Deliver(respond, k, chat, Chunks(""), replyTo) == []
    ensures Calls(Deliver(respond, k, chat, Chunks(""), replyTo)) == []
  {
  }

  /** Reference definition: chunks `i..` sent once each, in order, as Markdown, to `chat`,
      with only chunk 0 as a reply. */
  function Expected(chat: int, chunks: seq<string>, replyTo: Option<int>, i: nat): seq<Delivery>
    requires i <= |chunks|
    decreases |chunks| - i
  {
    if i == |chunks| then []
    else [Delivery(chat, chunks[i], Markdown, ReplyFor(i, replyTo))] + Expected(chat, chunks, replyTo, i + 1)
  }

  /** Entry `j` of the reference sequence is chunk `i + j`. */
  lemma {:induction false} ExpectedAt(chat: int, chunks: seq<string>, replyTo: Option<int>, i: nat, j: nat)
    requires i + j < |chunks|
    ensures |Expected(chat, chunks, replyTo, i)| == |chunks| - i
    ensures Expected(chat, chunks, replyTo, i)[j] == Delivery(chat, chunks[i + j], Markdown, ReplyFor(i + j, replyTo))
    decreases j
  {
    if j > 0 {
      ExpectedAt(chat, chunks, replyTo, i + 1, j - 1);
    } else {
      ExpectedLength(chat, chunks, replyTo, i);
    }
  }

  lemma {:induction false} ExpectedLength(chat: int, chunks: seq<string>, replyTo: Option<int>, i: nat)
    requires i <= |chunks|
    ensures |Expected(chat, chunks, replyTo, i)| == |chunks| - i
    decreases |chunks| - i
  {
    if i < |chunks| {
      ExpectedLength(chat, chunks, replyTo, i + 1);
    }
  }

  /** When Telegram accepts everything, every chunk is attempted and the API sees exactly
      the reference sequence. */
  lemma {:induction false} AllAcceptedDeliversEverything(respond: (nat, Delivery) -> Outcome, k: nat, chat: int,
                                                          chunks: seq<string>, replyTo: Option<int>, i: nat)
    requires i <= |chunks|
    requires forall n, d :: respond(n, d) == Ok
    ensures |DeliverFrom(SenderFor(respond, chat), k, chunks, replyTo, i)| == |chunks| - i
    ensures Calls(DeliverFrom(SenderFor(respond, chat), k, chunks, replyTo, i)) == Expected(chat, chunks, replyTo, i)
    decreases |chunks| - i
  {
    if i < |chunks| {
      AcceptedStep(respond, k, chat, chunks, replyTo, i);
      AllAcceptedDeliversEverything(respond, k + 1, chat, chunks, replyTo, i + 1);
    }
  }

  lemma AcceptedStep(respond: (nat, Delivery) -> Outcome, k: nat, chat: int,
                     chunks: seq<string>, replyTo: Option<int>, i: nat)
    requires i < |chunks|
    requires forall n, d :: respond(n, d) == Ok
    ensures var d := Delivery(chat, chunks[i], Markdown, ReplyFor(i, replyTo));
            var rest := DeliverFrom(SenderFor(respond, chat), k + 1, chunks, replyTo, i + 1);
            |DeliverFrom(SenderFor(respond, chat), k, chunks, replyTo, i)| == 1 + |rest| &&
            Calls(DeliverFrom(SenderFor(respond, chat), k, chunks, replyTo, i)) == [d] + Calls(rest)
  {
    var rt := ReplyFor(i, replyTo);
    var d := Delivery(chat, chunks[i], Markdown, rt);
    var s := SafeSend(respond, k, chat, chunks[i], rt, true);
    assert respond(k, d) == Ok;
    assert s == Step([d], Returned(true));
    assert SenderFor(respond, chat)(k, chunks[i], rt) == s;
    var rest := DeliverFrom(SenderFor(respond, chat), k + 1, chunks, replyTo, i + 1);
    assert DeliverFrom(SenderFor(respond, chat), k, chunks, replyTo, i) == [Attempt(chunks[i], rt, s)] + rest;
    assert Calls([Attempt(chunks[i], rt, s)] + rest) == [d] + Calls(rest);
  }

  lemma SenderApply(respond: (nat, Delivery) -> Outcome, chat: int, k: nat, text: string, rt: Option<int>)
    ensures SenderFor(respond, chat)(k, text, rt) == SafeSend(respond, k, chat, text, rt, true)
  {
  }

  /** One step of the send loop: attempt chunk `i`, and go on only after a success. */
  lemma DeliverFromStep(send: Sender, k: nat, chunks: seq<string>, replyTo: Option<int>, i: nat)
    requires i < |chunks|
    ensures var s := send(k, chunks[i], ReplyFor(i, replyTo));
            var a := Attempt(chunks[i], ReplyFor(i, replyTo), s);
            DeliverFrom(send, k, chunks, replyTo, i)
            == if s.status == Returned(true) then [a] + DeliverFrom(send, k + |s.calls|, chunks, replyTo, i + 1) else [a]
  {
  }

  /** One turn of the send loop adds the attempt's calls to the API's history. */
  lemma LoopStepCalls(done: seq<Attempt>, a: Attempt, prefix: seq<Delivery>, before: seq<Delivery>, after: seq<Delivery>)
    requires before == prefix + Calls(done)
    requires after == before + a.step.calls
    ensures after == prefix + Calls(done + [a])
  {
    CallsSnoc(done, a);
    AppendAssoc(prefix, Calls(done), a.step.calls);
  }

  /** One turn of the send loop on chunk `i`: the attempt joins those made so far, its
      calls join the API's history, and the loop either carries on with the rest of the
      run or the run ends here. */
  lemma LoopStep(respond: (nat, Delivery) -> Outcome, chat: int, messages: seq<string>, replyTo: Option<int>,
                 i: nat, run: seq<Attempt>, done: seq<Attempt>, prefix: seq<Delivery>, before: seq<Delivery>,
                 after: seq<Delivery>, status: Status)
    requires i < |messages|
    requires run == done + DeliverFrom(SenderFor(respond, chat), |before|, messages, replyTo, i)
    requires before == prefix + Calls(done)
    requires Escaped(done) == None
    requires var step := SafeSend(respond, |before|, chat, messages[i], ReplyFor(i, replyTo), true);
             after == before + step.calls && status == step.status
    ensures var done' := done + [Attempt(messages[i], ReplyFor(i, replyTo),
                                         SafeSend(respond, |before|, chat, messages[i], ReplyFor(i, replyTo), true))];
            after == prefix + Calls(done') &&
            (status == Returned(true) ==>
               run == done' + DeliverFrom(SenderFor(respond, chat), |after|, messages, replyTo, i + 1) &&
               Escaped(done') == None) &&
            (status != Returned(true) ==>
               run == done' && Escaped(run) == if status.Raised? then Some(status.error) else None)
  {
    var rt := ReplyFor(i, replyTo);
    var step := SafeSend(respond, |before|, chat, messages[i], rt, true);
    LoopStepCalls(done, Attempt(messages[i], rt, step), prefix, before, after);
    LoopStepRun(respond, chat, messages, replyTo, i, |before|, run, done);
    assert |after| == |before| + |step.calls|;
  }

  /** The run part of one turn of the send loop, with the API having seen `k` calls. */
  lemma LoopStepRun(respond: (nat, Delivery) -> Outcome, chat: int, messages: seq<string>, replyTo: Option<int>,
                    i: nat, k: nat, run: seq<Attempt>, done: seq<Attempt>)
    requires i < |messages|
    requires run == done + DeliverFrom(SenderFor(respond, chat), k, messages, replyTo, i)
    requires Escaped(done) == None
    ensures var step := SafeSend(respond, k, chat, messages[i], ReplyFor(i, replyTo), true);
            var done' := done + [Attempt(messages[i], ReplyFor(i, replyTo), step)];
            (step.status == Returned(true) ==>
               run == done' + DeliverFrom(SenderFor(respond, chat), k + |step.calls|, messages, replyTo, i + 1) &&
               Escaped(done') == None) &&
            (step.status != Returned(true) ==>
               run == done' && Escaped(run) == if step.status.Raised? then Some(step.status.error) else None)
  {
    var send := SenderFor(respond, chat);
    var rt := ReplyFor(i, replyTo);
    var step := SafeSend(respond, k, chat, messages[i], rt, true);
    SenderApply(respond, chat, k, messages[i], rt);
    DeliverFromStep(send, k, messages, replyTo, i);
    if step.status == Returned(true) {
      AppendAssoc(done, [Attempt(messages[i], rt, step)], DeliverFrom(send, k + |step.calls|, messages, replyTo, i + 1));
    }
  }

  /** The send loop of `split_and_send_messages` over the chunk list. */
  method SendAll(bot: Transport, chat: int, messages: seq<string>, replyTo: Option<int>)
    returns (escaped: Option<Outcome>)
    modifies bot
    ensures var run := Deliver(bot.respond, |old(bot.calls)|, chat, messages, replyTo);
            bot.calls == old(bot.calls) + Calls(run) && escaped == Escaped(run)
  {
    ghost var run := Deliver(bot.respond, |bot.calls|, chat, messages, replyTo);
    ghost var done: seq<Attempt> := [];
    escaped := None;
    var i := 0;
    while i < |messages|
      invariant i <= |messages|
      invariant run == done + DeliverFrom(SenderFor(bot.respond, chat), |bot.calls|, messages, replyTo, i)
      invariant bot.calls == old(bot.calls) + Calls(done)
      invariant Escaped(done) == None
    {
      var rt := ReplyFor(i, replyTo);
      ghost var before := bot.calls;
      var status := SendSafely(bot, chat, messages[i], rt, true);
      LoopStep(bot.respond, chat, messages, replyTo, i, run, done, old(bot.calls), before, bot.calls, status);
      done := done + [Attempt(messages[i], rt, SafeSend(bot.respond, |before|, chat, messages[i], rt, true))];
      if status != Returned(true) {
        escaped := if status.Raised? then Some(status.error) else None;
        return;
      }
      i := i + 1;
    }
    assert done + [] == done;
  }

  lemma AppendAssoc<T>(a: seq<T>, b: seq<T>, c: seq<T>)
    ensures a + (b + c) == (a + b) + c
  {
  }

  /** `split_and_send_messages`: chunk the reply, then send the chunks until one fails. */
  method SplitAndSend(bot: Transport, chat: int, text: string, replyTo: Option<int>)
    returns (escaped: Option<Outcome>)
    modifies bot
    ensures var run := Deliver(bot.respond, |old(bot.calls)|, chat, Chunks(text), replyTo);
            bot.calls == old(bot.calls) + Calls(run) && escaped == Escaped(run)
  {
    var messages := Split(text);
    escaped := SendAll(bot, chat, messages, replyTo);
  }
}
