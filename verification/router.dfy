/**
 The command router: the five views of the url table, each a pure function from
 a parsed request (and the state it shares with the other views) to an outcome
 and the next state. The shared state is the session table, the broadcast
 queue and the message log. Every view reads its arguments positionally from
 the request: `req[0]` is the method, `req[1]` the path, `req[2..]` the
 arguments. A request too short for those reads raises `IndexError` before any
 state is touched; that is modelled as an explicit outcome.
 */
module Router {

  import opened Wrappers
  import Tokenizer
  import S = Sessions
  import L = MessageLog

  /** A broadcast payload, `{'messages': [...]}`, waiting in the queue. */
  datatype Payload = Payload(messages: seq<L.Message>)

  datatype State = State(sessions: S.Table, queue: seq<Payload>, log: L.Log)

  /** What a view returns: the text `'Wrong method.'`, a JSON record with a
      `status`, a `user_id` and possibly `messages`, or nothing at all. */
  datatype Response =
    | WrongMethod
    | Reply(status: string, userId: string, messages: Option<seq<L.Message>>)
    | NoBody

  /** A view either returns a response or raises `IndexError`. */
  datatype Outcome = Returned(response: Response) | IndexError

  datatype Step = Step(outcome: Outcome, state: State)

  /** What the views take from outside the router: a fresh session token (a
      uuid4 in the server) and the current time (an ISO timestamp). */
  datatype Env = Env(freshToken: string, now: string)

  datatype View = Connection | Status | Send | Read | Unread

  const Post: string := "POST"
  const Get: string := "GET"

  const Connected: string := "connected"
  const NotConnected: string := "not connected"
  const MessageSent: string := "message sent"
  const UserNotConnected: string := "user not connected"
  const NoUnread: string := "no unread messages"
  const UnreadReceived: string := "unread messages received"

  /** The url table: request path to view. */
  const Urls: map<string, View> := map[
    "/connect" := Connection,
    "/status" := Status,
    "/send" := Send,
    "/read" := Read,
    "/unread" := Unread
  ]

  /** Each view's `allowed_methods`. */
  function AllowedMethods(v: View): seq<string> {
    match v
    case Connection => [Post]
    case Status => [Get]
    case Send => [Post]
    case Read => [Post]
    case Unread => [Get]
  }

  /** How long a request must be, once its method is allowed, for the view's
      positional reads to succeed: one past the highest index it reads. */
  function Arity(v: View): nat {
    match v
    case Connection => 1
    case Status => 3
    case Send => 4
    case Read => 5
    case Unread => 4
  }

  predicate MethodAllowed(v: View, req: seq<string>)
    requires |req| > 0
  {
    req[0] in AllowedMethods(v)
  }

  /** Looks a path up in the url table; exactly the five paths are routed. */
  function Route(path: string): (r: Option<View>)
    ensures r.Some? <==> path in {"/connect", "/status", "/send", "/read", "/unread"}
    ensures path == "/connect" ==> r == Some(Connection)
    ensures path == "/status" ==> r == Some(Status)
    ensures path == "/send" ==> r == Some(Send)
    ensures path == "/read" ==> r == Some(Read)
    ensures path == "/unread" ==> r == Some(Unread)
  {
    if path in Urls then Some(Urls[path]) else None
  }

  /** `PostConnection.view`: mints a session for the peer address and greets it
      with the latest public messages. */
  function PostConnection(req: seq<string>, addr: S.Addr, token: string, s: State): (r: Step)
    requires token !in s.sessions.tokens
    ensures |req| == 0 ==> r == Step(IndexError, s)
    ensures |req| > 0 && !MethodAllowed(Connection, req) ==> r == Step(Returned(WrongMethod), s)
    ensures |req| > 0 && MethodAllowed(Connection, req) ==>
      && r.outcome == Returned(Reply(Connected, token, Some(L.Latest(s.log, S.Public, L.LatestLimit))))
      && S.IsConnected(r.state.sessions, token)
      && r.state.sessions.tokens.Keys == s.sessions.tokens.Keys + {token}
      && (forall u :: u in s.sessions.tokens ==> r.state.sessions.tokens[u] == s.sessions.tokens[u])
      && addr in r.state.sessions.addrs && r.state.sessions.addrs[addr] == token
      && r.state.sessions.addrs.Keys == s.sessions.addrs.Keys + {addr}
      && (forall a :: a in s.sessions.addrs && a != addr ==> r.state.sessions.addrs[a] == s.sessions.addrs[a])
      && r.state.queue == s.queue
      && r.state.log == s.log
  {
    if |req| == 0 then Step(IndexError, s)
    else if !MethodAllowed(Connection, req) then Step(Returned(WrongMethod), s)
    else
      var latest := L.Latest(s.log, S.Public, L.LatestLimit);
      Step(Returned(Reply(Connected, token, Some(latest))),
           s.(sessions := S.Open(s.sessions, addr, token)))
  }

  /** `GetStatus.view`: reports whether a token holds a live session. It never
      changes the state and always echoes the queried id. */
  function GetStatus(req: seq<string>, s: State): (r: Step)
    ensures r.state == s
    ensures |req| == 0 ==> r.outcome == IndexError
    ensures |req| > 0 && !MethodAllowed(Status, req) ==> r.outcome == Returned(WrongMethod)
    ensures |req| > 0 && MethodAllowed(Status, req) && |req| < 3 ==> r.outcome == IndexError
    ensures |req| >= 3 && MethodAllowed(Status, req) ==>
      && r.outcome.Returned? && r.outcome.response.Reply?
      && r.outcome.response.userId == req[2]
      && r.outcome.response.messages == None
      && r.outcome.response.status in {Connected, NotConnected}
      && (r.outcome.response.status == Connected <==> S.IsConnected(s.sessions, req[2]))
  {
    if |req| == 0 then Step(IndexError, s)
    else if !MethodAllowed(Status, req) then Step(Returned(WrongMethod), s)
    else if |req| < 3 then Step(IndexError, s)
    else
      var user := req[2];
      var status := if S.IsConnected(s.sessions, user) then Connected else NotConnected;
      Step(Returned(Reply(status, user, None)), s)
  }

  /** `PostSend.view`: `req[2]` is the channel, `req[3]` the user, and the
      message text is the rest of the words rejoined with single spaces. An
      authorized send appends exactly one message and, for the public channel
      only, queues one broadcast of it; an unauthorized one changes nothing. */
  function PostSend(req: seq<string>, now: string, s: State): (r: Step)
    ensures |req| == 0 ==> r == Step(IndexError, s)
    ensures |req| > 0 && !MethodAllowed(Send, req) ==> r == Step(Returned(WrongMethod), s)
    ensures |req| > 0 && MethodAllowed(Send, req) && |req| < 4 ==> r == Step(IndexError, s)
    ensures |req| >= 4 && MethodAllowed(Send, req) && !S.Authorized(s.sessions, req[3], req[2]) ==>
      r == Step(Returned(Reply(UserNotConnected, req[3], None)), s)
    ensures |req| >= 4 && MethodAllowed(Send, req) && S.Authorized(s.sessions, req[3], req[2]) ==>
      var chat, user := req[2], req[3];
      var sent := L.Message(now, user, Tokenizer.Join(req[4..], " "));
      && r.outcome == Returned(Reply(MessageSent, user, None))
      && r.state.sessions == s.sessions
      && L.Messages(r.state.log, chat) == L.Messages(s.log, chat) + [sent]
      && (forall c :: c != chat ==> L.Messages(r.state.log, c) == L.Messages(s.log, c))
      && r.state.log.receipts == s.log.receipts
      && (chat == S.Public ==> r.state.queue == s.queue + [Payload([sent])])
      && (chat != S.Public ==> r.state.queue == s.queue)
  {
    if |req| == 0 then Step(IndexError, s)
    else if !MethodAllowed(Send, req) then Step(Returned(WrongMethod), s)
    else if |req| < 4 then Step(IndexError, s)
    else
      var chat, user, text := req[2], req[3], Tokenizer.Join(req[4..], " ");
      if S.Authorized(s.sessions, user, chat) then
        var saved := L.Save(s.log, text, user, chat, now);
        var queue := if chat == S.Public then s.queue + [Payload([saved.record])] else s.queue;
        Step(Returned(Reply(MessageSent, user, None)), s.(log := saved.log, queue := queue))
      else
        Step(Returned(Reply(UserNotConnected, user, None)), s)
  }

  /** `PostMarkRead.view`: hands the raw slash-joined timestamps, the user and
      the channel to the log without any session check, and returns nothing. */
  function PostMarkRead(req: seq<string>, s: State): (r: Step)
    ensures r.state.sessions == s.sessions && r.state.queue == s.queue
    ensures r.state.log.chats == s.log.chats
    ensures |req| == 0 ==> r == Step(IndexError, s)
    ensures |req| > 0 && !MethodAllowed(Read, req) ==> r == Step(Returned(WrongMethod), s)
    ensures |req| > 0 && MethodAllowed(Read, req) && |req| < 5 ==> r == Step(IndexError, s)
    ensures |req| >= 5 && MethodAllowed(Read, req) ==>
      && r.outcome == Returned(NoBody)
      && forall rc :: rc in r.state.log.receipts <==>
           || rc in s.log.receipts
           || (rc.chat == req[4] && rc.userId == req[3]
               && rc.timestamp in Tokenizer.SplitOn(req[2], L.TimestampSeparator))
  {
    if |req| == 0 then Step(IndexError, s)
    else if !MethodAllowed(Read, req) then Step(Returned(WrongMethod), s)
    else if |req| < 5 then Step(IndexError, s)
    else
      var timestamps, user, chat := req[2], req[3], req[4];
      Step(Returned(NoBody), s.(log := L.MarkRead(s.log, timestamps, user, chat)))
  }

  /** `GetUnread.view`: for an authorized user, the channel's unread messages
      with a status telling whether there are any; otherwise
      `'user not connected'` and no message list. It never changes the state. */
  function GetUnread(req: seq<string>, s: State): (r: Step)
    ensures r.state == s
    ensures |req| == 0 ==> r.outcome == IndexError
    ensures |req| > 0 && !MethodAllowed(Unread, req) ==> r.outcome == Returned(WrongMethod)
    ensures |req| > 0 && MethodAllowed(Unread, req) && |req| < 4 ==> r.outcome == IndexError
    ensures |req| >= 4 && MethodAllowed(Unread, req) && !S.Authorized(s.sessions, req[3], req[2]) ==>
      r.outcome == Returned(Reply(UserNotConnected, req[3], None))
    ensures |req| >= 4 && MethodAllowed(Unread, req) && S.Authorized(s.sessions, req[3], req[2]) ==>
      && r.outcome.Returned? && r.outcome.response.Reply?
      && r.outcome.response.userId == req[3]
      && r.outcome.response.messages == Some(L.Unread(s.log, req[3], req[2]))
      && r.outcome.response.status in {NoUnread, UnreadReceived}
      && (r.outcome.response.status == NoUnread <==> r.outcome.response.messages.value == [])
      && (forall m :: m in r.outcome.response.messages.value <==>
            m in L.Messages(s.log, req[2]) && !L.IsRead(s.log, req[2], req[3], m.timestamp))
  {
    if |req| == 0 then Step(IndexError, s)
    else if !MethodAllowed(Unread, req) then Step(Returned(WrongMethod), s)
    else if |req| < 4 then Step(IndexError, s)
    else
      var chat, user := req[2], req[3];
      if S.Authorized(s.sessions, user, chat) then
        var unread := L.Unread(s.log, user, chat);
        var status := if |unread| == 0 then NoUnread else UnreadReceived;
        Step(Returned(Reply(status, user, Some(unread))), s)
      else
        Step(Returned(Reply(UserNotConnected, user, None)), s)
  }

  /** Runs the view the url table selected. Only `connect` draws on the fresh
      token, and only `send` on the clock. */
  function Handle(v: View, req: seq<string>, addr: S.Addr, env: Env, s: State): Step
    requires v == Connection ==> env.freshToken !in s.sessions.tokens
  {
    match v
    case Connection => PostConnection(req, addr, env.freshToken, s)
    case Status => GetStatus(req, s)
    case Send => PostSend(req, env.now, s)
    case Read => PostMarkRead(req, s)
    case Unread => GetUnread(req, s)
  }
}
