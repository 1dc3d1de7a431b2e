/**
 The message log the router talks to. The router calls four log functions:
 latest messages, read-status update, unread messages, and a save that returns
 the stored `(timestamp, user_id, message)` record. The program's message
 module defines none of the first three and only a two-argument save that
 returns nothing, so the log is modelled as abstract state with the behaviour
 the router relies on: an ordered message sequence per channel plus a set of
 read receipts `(channel, timestamp, user)`. Timestamps are opaque strings
 supplied by the caller (the clock is a parameter).
 */
module MessageLog {

  import Tokenizer

  datatype Message = Message(timestamp: string, userId: string, text: string)

  /** "`userId` has acknowledged the message stamped `timestamp` in `chat`". */
  datatype Receipt = Receipt(chat: string, timestamp: string, userId: string)

  datatype Log = Log(chats: map<string, seq<Message>>, receipts: set<Receipt>)

  /** A saved record together with the log that now holds it. */
  datatype Saved = Saved(log: Log, record: Message)

  /** How many of the latest public messages a new connection is greeted
      with: the 20 named by the server's note about the connection greeting. */
  const LatestLimit: nat := 20

  /** The separator between timestamps in a mark-read request. */
  const TimestampSeparator: char := '/'

  /** The messages of a channel in append order; a channel never written to
      has none (it is not an error). */
  function Messages(log: Log, chat: string): seq<Message> {
    if chat in log.chats then log.chats[chat] else []
  }

  predicate IsRead(log: Log, chat: string, userId: string, timestamp: string) {
    Receipt(chat, timestamp, userId) in log.receipts
  }

  /** Appends one message to `chat`, stamped `now`, and returns the stored
      record; no other channel and no receipt changes. */
  function Save(log: Log, text: string, userId: string, chat: string, now: string): (r: Saved)
    ensures r.record.timestamp == now && r.record.userId == userId && r.record.text == text
    ensures Messages(r.log, chat) == Messages(log, chat) + [r.record]
    ensures forall c :: c != chat ==> Messages(r.log, c) == Messages(log, c)
    ensures r.log.receipts == log.receipts
  {
    var m := Message(now, userId, text);
    Saved(log.(chats := log.chats[chat := Messages(log, chat) + [m]]), m)
  }

  /** The last `limit` messages of `chat` (all of them if there are fewer),
      oldest first. */
  function Latest(log: Log, chat: string, limit: nat): (r: seq<Message>)
    ensures |r| == if |Messages(log, chat)| < limit then |Messages(log, chat)| else limit
    ensures Messages(log, chat)[|Messages(log, chat)| - |r|..] == r
  {
    var all := Messages(log, chat);
    if |all| <= limit then all else all[|all| - limit..]
  }

  /** Records a receipt for `userId` in `chat` for every field of the
      slash-joined timestamp token. Unknown timestamps are recorded too, and a
      receipt already present stays as it is; messages are untouched. */
  function MarkRead(log: Log, rawTimestamps: string, userId: string, chat: string): (r: Log)
    ensures r.chats == log.chats
    ensures forall rc :: rc in r.receipts <==>
      || rc in log.receipts
      || (rc.chat == chat && rc.userId == userId
          && rc.timestamp in Tokenizer.SplitOn(rawTimestamps, TimestampSeparator))
  {
    var stamps := Tokenizer.SplitOn(rawTimestamps, TimestampSeparator);
    log.(receipts := log.receipts + set t | t in stamps :: Receipt(chat, t, userId))
  }

  /** The messages of `msgs`, in order, that `userId` has no receipt for. */
  function UnreadOf(msgs: seq<Message>, receipts: set<Receipt>, chat: string, userId: string): (r: seq<Message>)
    ensures |r| <= |msgs|
    ensures forall m :: m in r <==> m in msgs && Receipt(chat, m.timestamp, userId) !in receipts
  {
    if |msgs| == 0 then []
    else
      var head := if Receipt(chat, msgs[0].timestamp, userId) in receipts then [] else [msgs[0]];
      head + UnreadOf(msgs[1..], receipts, chat, userId)
  }

  /** `get_unread_messages(user_id, chat_id)`: the channel's messages, in order,
      whose timestamp carries no receipt for this user. */
  function Unread(log: Log, userId: string, chat: string): (r: seq<Message>)
    ensures forall m :: m in r <==> m in Messages(log, chat) && !IsRead(log, chat, userId, m.timestamp)
  {
    UnreadOf(Messages(log, chat), log.receipts, chat, userId)
  }

  // ---------------------------------------------------------------------
  // Lemmas

  /** After a save, the latest window ends with the new record, preceded by
      the previous latest window one shorter. */
  lemma LatestAfterSave(log: Log, text: string, userId: string, chat: string, now: string, limit: nat)
    requires limit >= 1
    ensures var s := Save(log, text, userId, chat, now);
            var l := Latest(s.log, chat, limit);
            |l| >= 1 && l[|l| - 1] == s.record && l[..|l| - 1] == Latest(log, chat, limit - 1)
  {
    var s := Save(log, text, userId, chat, now);
    var prior := Messages(log, chat);
    var all := Messages(s.log, chat);
    var l := Latest(s.log, chat, limit);
    assert all == prior + [s.record];
    var k := |l| - 1;
    assert l == all[|all| - |l|..];
    assert l[..k] == prior[|prior| - k..];
    assert Latest(log, chat, limit - 1) == prior[|prior| - k..];
  }

  /** Marking the same timestamps read twice is the same as marking them once. */
  lemma MarkReadIdempotent(log: Log, rawTimestamps: string, userId: string, chat: string)
    ensures var once := MarkRead(log, rawTimestamps, userId, chat);
            MarkRead(once, rawTimestamps, userId, chat) == once
  {
  }

  /** The unread filter depends only on the receipts of that user and channel
      for the timestamps that occur in the messages. */
  lemma {:induction false} UnreadOfAgree(msgs: seq<Message>, r1: set<Receipt>, r2: set<Receipt>, chat: string, userId: string)
    requires forall k :: 0 <= k < |msgs| ==>
      (Receipt(chat, msgs[k].timestamp, userId) in r1 <==> Receipt(chat, msgs[k].timestamp, userId) in r2)
    ensures UnreadOf(msgs, r1, chat, userId) == UnreadOf(msgs, r2, chat, userId)
    decreases |msgs|
  {
    if |msgs| > 0 {
      UnreadOfAgree(msgs[1..], r1, r2, chat, userId);
    }
  }

  /** The unread filter of an appended message is the old filter plus that
      message, if it carries no receipt. */
  lemma {:induction false} UnreadOfAppend(msgs: seq<Message>, m: Message, receipts: set<Receipt>, chat: string, userId: string)
    ensures UnreadOf(msgs + [m], receipts, chat, userId)
            == UnreadOf(msgs, receipts, chat, userId)
               + (if Receipt(chat, m.timestamp, userId) in receipts then [] else [m])
    decreases |msgs|
  {
    if |msgs| == 0 {
      assert msgs + [m] == [m];
    } else {
      var xs := msgs + [m];
      assert xs[0] == msgs[0] && xs[1..] == msgs[1..] + [m];
      var h := if Receipt(chat, msgs[0].timestamp, userId) in receipts then [] else [msgs[0]];
      var t := if Receipt(chat, m.timestamp, userId) in receipts then [] else [m];
      calc {
        UnreadOf(xs, receipts, chat, userId);
        h + UnreadOf(msgs[1..] + [m], receipts, chat, userId);
        { UnreadOfAppend(msgs[1..], m, receipts, chat, userId); }
        h + (UnreadOf(msgs[1..], receipts, chat, userId) + t);
        (h + UnreadOf(msgs[1..], receipts, chat, userId)) + t;
      }
    }
  }

  /** Per-user isolation: marking messages read for one user in one channel
      leaves every other user's (and every other channel's) unread list as it was. */
  lemma UnreadIsolation(log: Log, rawTimestamps: string, userId: string, chat: string, other: string, otherChat: string)
    requires other != userId || otherChat != chat
    ensures Unread(MarkRead(log, rawTimestamps, userId, chat), other, otherChat) == Unread(log, other, otherChat)
  {
    var after := MarkRead(log, rawTimestamps, userId, chat);
    UnreadOfAgree(Messages(log, otherChat), after.receipts, log.receipts, otherChat, other);
  }

  /** Once a timestamp has been marked read by a user in a channel, no message
      with that timestamp is in that user's unread list there; every other
      message of the channel is unread exactly as before. */
  lemma MarkedNeverUnread(log: Log, rawTimestamps: string, userId: string, chat: string, m: Message)
    ensures var after := MarkRead(log, rawTimestamps, userId, chat);
            m in Unread(after, userId, chat) <==>
              m in Unread(log, userId, chat)
              && m.timestamp !in Tokenizer.SplitOn(rawTimestamps, TimestampSeparator)
  {
  }

  /** A saved message is unread for a user exactly when that user has no
      receipt for its timestamp; the older unread messages keep their order. */
  lemma UnreadAfterSave(log: Log, text: string, userId: string, chat: string, now: string, reader: string)
    ensures var s := Save(log, text, userId, chat, now);
            Unread(s.log, reader, chat)
            == Unread(log, reader, chat) + (if IsRead(log, chat, reader, now) then [] else [s.record])
  {
    var s := Save(log, text, userId, chat, now);
    UnreadOfAppend(Messages(log, chat), s.record, log.receipts, chat, reader);
  }
}
