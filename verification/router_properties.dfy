/**
 Properties of the router that relate several views or several calls: the
 method guard every view shares, the short-request failures, the one
 authorization rule behind `send` and `unread`, the broadcast rule, how the
 shared state may evolve, and an end-to-end conversation.
 */
module RouterProperties {

  import opened Wrappers
  import Tokenizer
  import S = Sessions
  import L = MessageLog
  import opened Router

  /** How the state may change across one view: no token disappears or changes
      its flag, and queue, channels and receipts only grow at the tail. */
  ghost predicate Evolves(s: State, t: State) {
    && (forall u :: u in s.sessions.tokens ==> u in t.sessions.tokens && t.sessions.tokens[u] == s.sessions.tokens[u])
    && s.queue <= t.queue
    && (forall c :: L.Messages(s.log, c) <= L.Messages(t.log, c))
    && s.log.receipts <= t.log.receipts
  }

  /** Every view checks the method first: a disallowed method yields
      `'Wrong method.'` and leaves sessions, queue and log as they were,
      however short the rest of the request. */
  lemma MethodCheckedFirst(v: View, req: seq<string>, addr: S.Addr, env: Env, s: State)
    requires v == Connection ==> env.freshToken !in s.sessions.tokens
    requires |req| > 0 && req[0] !in AllowedMethods(v)
    ensures Handle(v, req, addr, env, s) == Step(Returned(WrongMethod), s)
  {
  }

  /** A view raises `IndexError` exactly when the request is empty, or its
      method is allowed but the request is shorter than the view reads; it
      then leaves the state as it was. */
  lemma ShortRequestRaises(v: View, req: seq<string>, addr: S.Addr, env: Env, s: State)
    requires v == Connection ==> env.freshToken !in s.sessions.tokens
    ensures var r := Handle(v, req, addr, env, s);
            && (r.outcome == IndexError <==> |req| == 0 || (MethodAllowed(v, req) && |req| < Arity(v)))
            && (r.outcome == IndexError ==> r.state == s)
  {
  }

  /** Every view keeps every address bound to a known token, and moves the
      state forward only as `Evolves` allows: sessions are never closed or
      revived, and nothing queued, logged or acknowledged is lost. */
  lemma HandleEvolves(v: View, req: seq<string>, addr: S.Addr, env: Env, s: State)
    requires v == Connection ==> env.freshToken !in s.sessions.tokens
    ensures var r := Handle(v, req, addr, env, s);
            && (S.Valid(s.sessions) ==> S.Valid(r.state.sessions))
            && Evolves(s, r.state)
  {
  }

  /** `send` and `unread` apply one and the same authorization rule: for a
      given channel and user, a send is accepted exactly when an unread query
      returns a message list. */
  lemma SendAndUnreadShareAuthorization(chat: string, user: string, words: seq<string>, now: string, s: State)
    ensures var send := PostSend([Post, "/send", chat, user] + words, now, s);
            var unread := GetUnread([Get, "/unread", chat, user], s);
            && (send.outcome == Returned(Reply(MessageSent, user, None)) <==> S.Authorized(s.sessions, user, chat))
            && (send.outcome == Returned(Reply(UserNotConnected, user, None)) <==> !S.Authorized(s.sessions, user, chat))
            && unread.outcome.Returned? && unread.outcome.response.Reply?
            && (unread.outcome.response.messages.Some? <==> S.Authorized(s.sessions, user, chat))
  {
  }

  /** A send changes the broadcast queue exactly when it is accepted for the
      public channel, and then appends one payload carrying just the message
      that was stored. */
  lemma QueueGrowsOnlyForPublic(req: seq<string>, now: string, s: State)
    ensures var r := PostSend(req, now, s);
            && (r.state.queue != s.queue <==>
                  |req| >= 4 && req[0] == Post && req[2] == S.Public && S.Authorized(s.sessions, req[3], req[2]))
            && (r.state.queue != s.queue ==>
                  var pub := L.Messages(r.state.log, S.Public);
                  |pub| > 0 && r.state.queue == s.queue + [Payload([pub[|pub| - 1]])])
  {
  }

  /** A send never touches the log unless it is accepted. */
  lemma RejectedSendKeepsLog(req: seq<string>, now: string, s: State)
    requires !(|req| >= 4 && req[0] == Post && S.Authorized(s.sessions, req[3], req[2]))
    ensures PostSend(req, now, s).state == s
    ensures |req| >= 4 && req[0] == Post ==>
              PostSend(req, now, s).outcome == Returned(Reply(UserNotConnected, req[3], None))
  {
  }

  /** The text a send stores is what the tokenizer makes of the request: the
      words after the user id, rejoined with single spaces. Tokenizing the
      stored text again gives back exactly those words, and its non-space
      characters are those of the words. */
  lemma StoredTextRoundTrip(raw: string, now: string, s: State)
    requires Tokenizer.ParseRequest(raw).Tokens?
    requires var w := Tokenizer.ParseRequest(raw).words;
             |w| >= 4 && w[0] == Post && S.Authorized(s.sessions, w[3], w[2])
    ensures var w := Tokenizer.ParseRequest(raw).words;
            var msgs := L.Messages(PostSend(w, now, s).state.log, w[2]);
            && |msgs| > 0
            && msgs[|msgs| - 1].userId == w[3]
            && Tokenizer.Split(msgs[|msgs| - 1].text) == w[4..]
  {
    var w := Tokenizer.ParseRequest(raw).words;
    assert forall k :: 0 <= k < |w[4..]| ==> Tokenizer.IsWord(w[4..][k]) by {
      forall k | 0 <= k < |w[4..]| ensures Tokenizer.IsWord(w[4..][k]) {
        assert w[4..][k] == w[k + 4];
      }
    }
    Tokenizer.SplitJoin(w[4..]);
  }

  /** `read` does no session check: what it does to the log and what it returns
      depend on the log alone, not on who is connected. */
  lemma ReadIgnoresSessions(req: seq<string>, s1: State, s2: State)
    requires s1.log == s2.log
    ensures PostMarkRead(req, s1).outcome == PostMarkRead(req, s2).outcome
    ensures PostMarkRead(req, s1).state.log == PostMarkRead(req, s2).state.log
  {
  }

  /** Posting "hello" to the public channel as a connected user stores it,
      queues it, and leaves sessions and receipts alone. */
  lemma PostHello(t: State, token: string, now: string)
    requires S.IsConnected(t.sessions, token)
    ensures var sent := PostSend([Post, "/send", S.Public, token, "hello"], now, t);
            var hello := L.Message(now, token, "hello");
            && sent.outcome == Returned(Reply(MessageSent, token, None))
            && L.Messages(sent.state.log, S.Public) == L.Messages(t.log, S.Public) + [hello]
            && sent.state.queue == t.queue + [Payload([hello])]
            && sent.state.sessions == t.sessions
            && sent.state.log.receipts == t.log.receipts
  {
  }

  /** Marking one timestamp read (a token with no separator) records exactly
      that receipt for the user in the public channel. */
  lemma MarkOneRead(t: State, token: string, now: string)
    requires L.TimestampSeparator !in now
    ensures var read := PostMarkRead([Post, "/read", now, token, S.Public], t);
            && read.outcome == Returned(NoBody)
            && read.state.sessions == t.sessions
            && read.state.log.chats == t.log.chats
            && L.IsRead(read.state.log, S.Public, token, now)
  {
    var readReq := [Post, "/read", now, token, S.Public];
    assert readReq[2] == now && readReq[3] == token && readReq[4] == S.Public;
    Tokenizer.SplitOnNoSeparator(now, L.TimestampSeparator);
    assert now in Tokenizer.SplitOn(now, L.TimestampSeparator);
  }

  /** Marking a message's timestamp read (a token with no separator) takes it
      out of the connected user's public unread reply, where it was listed. */
  lemma ReadHidesMessage(t: State, token: string, m: L.Message)
    requires S.IsConnected(t.sessions, token)
    requires L.TimestampSeparator !in m.timestamp
    requires m in L.Unread(t.log, token, S.Public)
    ensures var unreadReq := [Get, "/unread", S.Public, token];
            var before := GetUnread(unreadReq, t);
            var read := PostMarkRead([Post, "/read", m.timestamp, token, S.Public], t);
            var after := GetUnread(unreadReq, read.state);
            && before.outcome.Returned? && before.outcome.response.Reply?
            && before.outcome.response.messages.Some?
            && m in before.outcome.response.messages.value
            && after.outcome.Returned? && after.outcome.response.Reply?
            && after.outcome.response.messages.Some?
            && m !in after.outcome.response.messages.value
  {
    var unreadReq := [Get, "/unread", S.Public, token];
    assert unreadReq[2] == S.Public && unreadReq[3] == token;
    MarkOneRead(t, token, m.timestamp);
  }

  /** A full conversation on a fresh connection: connect, post "hello" to the
      public channel, see it as unread, mark it read by its timestamp, and no
      longer see it as unread. */
  lemma ConversationScenario(s: State, addr: S.Addr, token: string, now: string)
    requires token !in s.sessions.tokens
    requires L.TimestampSeparator !in now
    requires !L.IsRead(s.log, S.Public, token, now)
    ensures var c := PostConnection([Post, "/connect"], addr, token, s);
            var sent := PostSend([Post, "/send", S.Public, token, "hello"], now, c.state);
            var hello := L.Message(now, token, "hello");
            var before := GetUnread([Get, "/unread", S.Public, token], sent.state);
            var read := PostMarkRead([Post, "/read", now, token, S.Public], sent.state);
            var after := GetUnread([Get, "/unread", S.Public, token], read.state);
            && c.outcome == Returned(Reply(Connected, token, Some(L.Latest(s.log, S.Public, L.LatestLimit))))
            && sent.outcome == Returned(Reply(MessageSent, token, None))
            && |sent.state.queue| == |s.queue| + 1
            && (var latest := L.Latest(sent.state.log, S.Public, L.LatestLimit);
                |latest| > 0 && latest[|latest| - 1] == hello)
            && hello in before.outcome.response.messages.value
            && hello !in after.outcome.response.messages.value
  {
    var c := PostConnection([Post, "/connect"], addr, token, s);
    assert c.state.log == s.log && c.state.queue == s.queue;
    PostHello(c.state, token, now);
    var sent := PostSend([Post, "/send", S.Public, token, "hello"], now, c.state);
    var hello := L.Message(now, token, "hello");
    assert sent.state.log == L.Save(c.state.log, "hello", token, S.Public, now).log;
    L.LatestAfterSave(c.state.log, "hello", token, S.Public, now, L.LatestLimit);
    assert hello in L.Unread(sent.state.log, token, S.Public);
    ReadHidesMessage(sent.state, token, hello);
  }
}
