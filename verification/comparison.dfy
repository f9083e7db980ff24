/**
 How the gRPC servicer of part2/server.py and the socket server of server.py
 differ on the same directory: they agree on create; the servicer's login
 accepts an account already logged in; its list is every page of the socket
 server's listing at once; and its delete keeps the mailbox, which breaks the
 socket server's invariant that mailboxes and accounts match.
 */
module Comparison {
  import opened Schema
  import opened Slicing
  import S = SocketServer
  import P = SocketServerProofs
  import G = GrpcServicer

  /** Both servers create an account in exactly the same way. */
  lemma CreateAgrees(st: State, id: UserId)
    ensures S.Create(st, P.Named(id)).0 == G.Create(st, id).0
    ensures S.Create(st, P.Named(id)).1.success == G.Create(st, id).1.success
  {
  }

  /** On an account that is already logged in, the socket server refuses the
      login while the servicer accepts it and changes nothing. */
  lemma LoginDiffersWhenLoggedIn(st: State, id: UserId)
    requires Lookup(st.users, id) == Some(Account(id, true))
    ensures !S.Login(st, P.Named(id)).1.success
    ensures G.Login(st, id).1.success && G.Login(st, id).0 == st
  {
    var i := Find(st.users, id).value;
    assert st.users[i := st.users[i]] == st.users;
  }

  /** Everywhere else the two logins agree, on the outcome and on the state. */
  lemma LoginAgreesOtherwise(st: State, id: UserId)
    requires Lookup(st.users, id) != Some(Account(id, true))
    ensures S.Login(st, P.Named(id)).1.success == G.Login(st, id).1.success
    ensures S.Login(st, P.Named(id)).0 == G.Login(st, id).0
  {
  }

  /** The servicer's unpaginated list is the socket server's pages laid end to end. */
  lemma ListIsAllPages(st: State, wildcard: string, k: nat)
    requires |st.users| <= k * PageSize
    ensures G.List(st, wildcard).accounts == P.Listed(st, wildcard, k)
  {
    P.ListedCoversMatching(st, wildcard, k);
  }

  /** Deleting an existing account: both servers leave the same accounts, but the
      servicer keeps the deleted account's mailbox, so its state no longer has a
      mailbox for exactly the existing accounts while the socket server's does. */
  lemma DeleteKeepsMailbox(st: State, id: UserId)
    requires S.Valid(st) && id in Ids(st.users)
    ensures G.Delete(st, id).0.users == S.Delete(st, P.Named(id)).0.users
    ensures G.Delete(st, id).0.mailboxes == st.mailboxes
    ensures id in G.Delete(st, id).0.mailboxes && id !in S.Delete(st, P.Named(id)).0.mailboxes
    ensures !S.Valid(G.Delete(st, id).0) && S.Valid(S.Delete(st, P.Named(id)).0)
  {
  }
}
