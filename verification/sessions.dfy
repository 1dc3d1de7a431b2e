/**
 The process-wide session table. In the server it is one dictionary holding two
 kinds of key: a session token maps to its `connected` flag, and a peer address
 maps to the token issued on it. Tokens are strings and addresses are
 (host, port) pairs, so the two kinds never collide; they are kept here as two
 maps. Membership tests made with a user or channel id (a string) can only ever
 hit the token map.
 */
module Sessions {

  /** A peer address as reported by the transport. */
  datatype Addr = Addr(host: string, port: nat)

  datatype Table = Table(tokens: map<string, bool>, addrs: map<Addr, string>)

  /** The one channel that is not a user token. */
  const Public: string := "public"

  /** Every address is bound to a token the table knows. */
  predicate Valid(t: Table) {
    forall a :: a in t.addrs ==> t.addrs[a] in t.tokens
  }

  /** The token is known to the table and flagged connected. */
  predicate IsConnected(t: Table, user: string) {
    user in t.tokens && t.tokens[user]
  }

  /** The check shared by `send` and `unread`: the user holds a live session,
      and the channel is the public one or names a token the table has ever
      issued (connected or not). */
  predicate Authorized(t: Table, user: string, chat: string) {
    IsConnected(t, user) && (chat == Public || chat in t.tokens)
  }

  /** Records a new session: the token is marked connected and the address is
      (re)bound to it. Nothing else in the table changes; in particular a token
      previously bound to the same address keeps its flag. */
  function Open(t: Table, addr: Addr, token: string): (r: Table)
    ensures IsConnected(r, token)
    ensures addr in r.addrs && r.addrs[addr] == token
    ensures r.tokens.Keys == t.tokens.Keys + {token}
    ensures r.addrs.Keys == t.addrs.Keys + {addr}
    ensures forall u :: u in t.tokens && u != token ==> r.tokens[u] == t.tokens[u]
    ensures forall a :: a in t.addrs && a != addr ==> r.addrs[a] == t.addrs[a]
    ensures Valid(t) ==> Valid(r)
  {
    Table(t.tokens[token := true], t.addrs[addr := token])
  }
}
