# Messanger command router: a Dafny model

This project models the core of a small session-aware chat relay. The core has two parts:

- the server's request tokenizer (`parsing_request`), which turns a decoded request into the empty-string sentinel or its whitespace-separated words;
- the command router: the five views of the url table (`/connect`, `/status`, `/send`, `/read`, `/unread`).

The views act on three pieces of process-wide state:

- **Session table.** In the server this is one dictionary with two kinds of key: a session token maps to `{'connected': bool}`, and a peer address maps to `{'user_id': token}`. Tokens are strings and addresses are tuples, so the two kinds never collide. The model keeps them as two maps, `tokens: map<string, bool>` and `addrs: map<Addr, string>`.
- **Broadcast queue.** A sequence of payloads `{'messages': [...]}`.
- **Message log.** It is modelled as abstract state: an ordered message sequence per channel plus a set of read receipts `(channel, timestamp, user)`. The reason is under "## Left out": the program's message module does not define the log functions the router calls.

Each view is a pure function from the parsed request and the state to a `Step` (an outcome plus the next state). Views index the request positionally. A request too short for those reads raises `IndexError` before anything is mutated; the model returns an explicit `IndexError` outcome with the state unchanged.

Modules:

- `Wrappers` (`wrappers.dfy`): `Option`.
- `Tokenizer` (`tokenizer.dfy`): Python's `str.split()` / `' '.join`, plus the `'/'` split of the mark-read timestamps.
- `Sessions` (`sessions.dfy`): the session table and the shared authorization predicate.
- `MessageLog` (`message_log.dfy`): the abstract log.
- `Router` (`router.dfy`): the five views and the url table.
- `RouterProperties` (`router_properties.dfy`): lemmas that span several views or calls.

Things taken from outside are parameters:

- the session token a `uuid4` would mint (its freshness is a precondition of `connect`);
- the current timestamp (an opaque string);
- the peer address.

A relay like this would be expected to deliver broadcasts, close sessions on disconnect and answer unknown commands. This code does none of that, and the model follows the code:

- The server's read loop never calls the router. It never drains the broadcast queue and never closes a session on disconnect. In the model, sessions are never closed and the queue only grows.
- The code has no "Invalid command." response. Unknown paths are modelled as a failed lookup in the url table (`Route` returns `None`).
- A short request raises `IndexError` in the code rather than producing a server-error reply.
- `read` performs no session check.

## Model

| member | source | states |
|---|---|---|
| Tokenizer.ParseRequest | server.py:31-37 | An empty request gives the sentinel and only an empty request does. Otherwise every returned token is non-empty and whitespace-free. The concatenation of the tokens is the request with all whitespace removed. The list is empty exactly when the request is all whitespace. Where the tokens break is fixed by `ParseRequestAtSpace` and `ParseRequestWord`. |
| Tokenizer.ParseRequestAtSpace | server.py:31-37 | A non-empty request is cut at every whitespace character: its tokens are the tokens left of that character followed by those right of it. |
| Tokenizer.ParseRequestWord | server.py:31-37 | A request that is one whitespace-free word parses to exactly that one token. |
| Tokenizer.IsSpace | server.py:35 | The reference set of whitespace that `str.split()` splits on: the characters for which `str.isspace()` holds, namely U+0009–000D, U+001C–001F, U+0020, U+0085, U+00A0, U+1680, U+2000–200A, U+2028, U+2029, U+202F, U+205F and U+3000. |
| Tokenizer.Split | server.py:35 | Every word produced by the whitespace split is non-empty and contains no whitespace. Together with `SplitAtSpace`, `SplitWord` and `SplitEmptyIff`, this determines the split completely: the tokens are the maximal runs between whitespace. |
| Tokenizer.SplitAtSpace | server.py:35 | Every whitespace character separates: the split of `a + c + b`, with `c` whitespace, is the split of `a` followed by the split of `b`. No token spans whitespace, and no token is cut at a non-space. |
| Tokenizer.SplitWord | server.py:35 | A whitespace-free, non-empty string splits into exactly itself. |
| Tokenizer.WordLengthAppend | server.py:35 | Appending text does not change the first word when that word already ends inside the string, or when the appended text starts with whitespace. |
| Tokenizer.WordLength | server.py:35 | The length of a word is the longest whitespace-free prefix: every character before it is a non-space, and the character after it (if any) is whitespace. |
| Tokenizer.SplitJoin | server.py:35 | Round trip: splitting the single-space join of whitespace-free, non-empty tokens gives back exactly those tokens. |
| Tokenizer.SplitConcat | server.py:35 | The tokens glued together equal the input with all whitespace removed. |
| Tokenizer.Join | urls.py:65 | The reference definition of `sep.join(words)`, used for the rejoin at server.py:110 and the stored text at urls.py:65: the words in order with the separator between consecutive words, and the empty string for no words. |
| Tokenizer.SplitEmptyIff | server.py:35 | A string splits into no tokens if and only if it is all whitespace. |
| Tokenizer.BlankRequestIsNotSentinel | server.py:108-110 | A non-empty all-whitespace request parses to the empty list, not the sentinel, so it passes the `!= ''` test and is rejoined to the empty string. |
| Tokenizer.Rejoin | server.py:109-110 | Only a non-sentinel parse is rejoined, and re-splitting the rejoined text gives back the same tokens. |
| Tokenizer.SplitRejoinIdempotent | server.py:110 | Split, rejoin with single spaces and split again: the second split equals the first (whitespace normalisation is idempotent). |
| Tokenizer.SplitOn | urls.py:98-101 | Splitting the slash-joined timestamp token always yields at least one field, and no field contains the separator. |
| Tokenizer.SplitOnJoin | urls.py:98-101 | Rejoining the separator-split fields with the separator rebuilds the raw token exactly. |
| Tokenizer.SplitOnNoSeparator | urls.py:98-101 | A timestamp token without a separator is one field. |
| Sessions.Open | urls.py:23-25 | The new token is connected and the address is bound to it. The key sets grow by exactly that token and that address. Every other token keeps its flag, including a prior token on the same address, and every other address keeps its binding. Addresses keep pointing at known tokens. |
| Sessions.IsConnected | urls.py:45-46 | The reference definition of a live session: the token is a key of the table and its `connected` flag is true. |
| Sessions.Authorized | urls.py:66-68 | The reference definition of the authorization rule shared by `send` and `unread` (also urls.py:114-116): the user is a known token flagged connected, and the chat is `public` or a known token. |
| MessageLog.Save | urls.py:69-73 | Exactly one record `(timestamp, user_id, message)` is appended to the channel. The returned record carries the given timestamp, user and text. Other channels and all receipts are unchanged. |
| MessageLog.Latest | urls.py:27 | The result has min(limit, n) messages and is the suffix of the channel in append order. A missing channel gives the empty sequence. |
| MessageLog.LatestAfterSave | urls.py:27 | After a save, the latest window ends with the saved record, preceded by the old window one shorter. |
| MessageLog.MarkRead | urls.py:101 | Messages are untouched. A receipt is present afterwards exactly when it was present before or names this channel, this user and one field of the slash-joined timestamps. Unknown timestamps are recorded too. |
| MessageLog.MarkReadIdempotent | urls.py:101 | Marking the same timestamps read twice gives the same log as marking them once. |
| MessageLog.UnreadOf | urls.py:117 | The filtered list is no longer than its input. A message is in it exactly when it is in the input and the user has no receipt for its timestamp in that channel. |
| MessageLog.Unread | urls.py:117 | A message is unread exactly when it is in the channel and its timestamp has no receipt from this user there. |
| MessageLog.UnreadIsolation | urls.py:101 | Marking read for one user and channel leaves every other user's and every other channel's unread list unchanged, order included. |
| MessageLog.MarkedNeverUnread | urls.py:101 | After marking, a message is unread exactly when it was unread before and its timestamp is not among those marked. |
| MessageLog.UnreadAfterSave | urls.py:69 | After a save, the reader's unread list is the old one followed by the new record, unless the reader already had a receipt for that timestamp. |
| MessageLog.UnreadOfAgree | urls.py:117 | Two receipt sets that agree on this user's receipts for the messages' timestamps give the same unread list. |
| MessageLog.UnreadOfAppend | urls.py:117 | The unread list of an appended message is the old list plus that message, if it carries no receipt. |
| Router.Route | urls.py:137-143 | Exactly the five paths are routed, each to its own view. Any other path gives no view. |
| Router.AllowedMethods | urls.py:17 | The reference definition of each view's `allowed_methods` (urls.py:17, 38, 58, 92, 106): `POST` for connect, send and read; `GET` for status and unread. |
| Router.PostConnection | urls.py:16-34 | Method checked first. On POST the view mints a connected token not previously in the table and binds the address to it. Every other token keeps its flag. Queue and log are unchanged. The reply is `connected` with that token and the latest 20 public messages. |
| Router.GetStatus | urls.py:37-54 | The view never mutates state. Method checked first; a request shorter than three tokens raises. The reply echoes the queried id, and its status is `connected` if and only if the token is known and flagged connected (`not connected` otherwise). |
| Router.PostSend | urls.py:57-88 | Method checked first; a request shorter than four tokens raises. Unauthorized: `user not connected` and nothing changes. Authorized: exactly one message is appended, holding `tokens[4:]` joined by single spaces, and the reply is `message sent`. Other channels, receipts and sessions are unchanged. The queue gains one payload wrapping that message if the channel is `public`, and is unchanged otherwise. |
| Router.PostMarkRead | urls.py:91-102 | No session check. Method checked first; a request shorter than five tokens raises. The raw timestamp token, user and channel go to the log's mark-read. The view returns no body. Sessions, queue and messages are unchanged. |
| Router.GetUnread | urls.py:105-134 | The view never mutates state. Method checked first; a request shorter than four tokens raises. Unauthorized: `user not connected` with no `messages`. Authorized: `messages` is the log's unread list for that user and channel, passed on unchanged (order and repeats included), so a message is listed exactly when it is in the channel with no receipt from that user. The status is `no unread messages` if and only if that list is empty, and `unread messages received` otherwise. |
| RouterProperties.MethodCheckedFirst | urls.py:21-22 | For every view, a disallowed method yields `Wrong method.` with state unchanged, however short the rest of the request. |
| RouterProperties.ShortRequestRaises | urls.py:44-113 | A view raises `IndexError` exactly when the request is empty, or its method is allowed but the request is shorter than what the view reads. When it raises, the state is unchanged. |
| RouterProperties.HandleEvolves | urls.py:23-81 | Every view keeps addresses bound to known tokens. No view removes a token or changes its flag. The queue, each channel and the receipt set only grow. |
| RouterProperties.SendAndUnreadShareAuthorization | urls.py:66-116 | `send` and `unread` use one authorization rule. A send is accepted if and only if the user is connected and the channel is `public` or a known token; an unread query returns messages under exactly the same condition. |
| RouterProperties.QueueGrowsOnlyForPublic | urls.py:78-81 | A send changes the queue if and only if it is accepted for `public`. The change is one payload carrying just the message stored. |
| RouterProperties.RejectedSendKeepsLog | urls.py:84-87 | A send that is not accepted leaves sessions, queue and log unchanged. A full POST request that fails authorization gets `user not connected`. |
| RouterProperties.StoredTextRoundTrip | urls.py:64-69 | For a raw request, re-tokenizing the stored message text gives exactly the request's words after the user id. |
| RouterProperties.ReadIgnoresSessions | urls.py:95-102 | The outcome of `read` and its effect on the log depend on the log alone, not on the session table. |
| RouterProperties.PostHello | urls.py:64-81 | A connected user's public send of "hello" stores and queues exactly that message. Sessions and receipts are untouched. |
| RouterProperties.MarkOneRead | urls.py:98-102 | Marking a single, separator-free timestamp read records that receipt for the user in the public channel. Messages and sessions are untouched. |
| RouterProperties.ReadHidesMessage | urls.py:98-129 | For a connected user, a message on the public unread reply is no longer on it after its separator-free timestamp is marked read. |
| RouterProperties.ConversationScenario | urls.py:20-133 | Connect, send `hello` to public, query unread, mark read, query unread again. The token is fresh and `connected`, the send is `message sent`, the queue grows by one and the latest window ends with the message. The message is unread before marking and not after. |

## Left out

- Client code (`client.py`): the text UI, raw sockets, `select`, threads and the 4-byte length-prefix unpack live inside the socket loop.
- Server I/O (`run` and `send_message` in `server.py`): the asyncio read loop, 1024-byte reads, decoding, the writer and its error replies. Only `parsing_request` and the rejoin are modelled.
- The message store (`messages_manager.py`), which is why the log is abstract. The module defines only `save_message_to_csv(message, chat_id)`, an async function that writes a CSV row and returns nothing. It does not define `get_latest_messages`, `update_message_status` or `get_unread_messages`.
  - As written, `connect` fails with `AttributeError` at urls.py:27, after the session was already stored at urls.py:24-25.
  - `read` fails the same way at urls.py:101, and `unread` at urls.py:117.
  - `send` at urls.py:69 calls the save function with three arguments, one more than it takes. It also does not await the result and indexes the stored record.
  - The model gives these calls the behaviour the router relies on instead. The missing `get_latest_messages` defines no default window; the 20 in `MessageLog.LatestLimit` comes from the comment at server.py:93 saying the latest 20 messages are to be sent on connection.
- Process bootstrap and the debug monitor (`run_server.py`, `sessions_monitor.py`).
- Concurrency: the module lock around the queue append is not modelled; each view runs atomically.
- JSON encoding, uuid generation, ISO timestamps and logging: responses and payloads are datatypes, the token is a parameter with a freshness precondition, and timestamps are opaque strings.
- MessageLog.MarkRead: the split of the raw timestamp token on `/` is the model's reading of the log's missing mark-read function, since the router forwards the raw token unsplit.
- Router.PostConnection: requires the minted token to be absent from the table, standing in for `uuid4` uniqueness. With a colliding token the code would overwrite the existing entry.
- Sessions: a relay would be expected to close sessions on disconnect and drain the broadcast queue. This code does neither, so neither is modelled.
