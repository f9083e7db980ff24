/**
 The raw-socket chat server's in-memory state machine (`Server` in server.py):
 the request handlers, the op-string dispatcher, the per-connection session
 rule and one step of the subscription delivery loop. Every handler is a pure
 transition from the current state to the next state and a response.
 */
module SocketServer {
  import opened Text
  import opened Slicing
  import opened Schema

  const UserExists := "User already exists"
  const NoSuchUser := "User does not exist"
  const AlreadyLoggedIn := "User already logged in"

  /** A decoded request. Each operation reads only its own fields: create, login,
      delete and subscribe read `userId`; list reads `wildcard` and `page`; send
      reads `userId` (the author), `recipientId` and `text`. */
  datatype Request = Request(userId: UserId, recipientId: UserId, text: string, wildcard: string, page: int)

  /** `Response` for every operation but list, `ListResponse` for list. */
  datatype Response =
    | Reply(userId: UserId, success: bool, errorMessage: string)
    | Listing(userId: UserId, success: bool, errorMessage: string, accounts: seq<Account>)

  /** The state the handlers keep: ids are unique (they are dict keys) and every
      account has exactly one mailbox, and every mailbox an account. */
  predicate Valid(st: State) {
    Distinct(st.users) && Ids(st.users) == st.mailboxes.Keys
  }

  /** Every account has a mailbox: what `handle_send` relies on to append. */
  predicate Covered(st: State) {
    Ids(st.users) <= st.mailboxes.Keys
  }

  /** `handle_create`: a new id gets a logged-in account at the end of the
      directory and an empty mailbox; an existing id is refused. */
  function Create(st: State, req: Request): (r: (State, Response))
    ensures r.1.Reply? && r.1.userId == req.userId
    ensures r.1.success <==> req.userId !in Ids(st.users)
    ensures !r.1.success ==> r.0 == st && r.1.errorMessage == UserExists
    ensures r.1.success ==>
      && r.1.errorMessage == ""
      && |r.0.users| == |st.users| + 1
      && r.0.users[..|st.users|] == st.users
      && r.0.users[|st.users|] == Account(req.userId, true)
      && Ids(r.0.users) == Ids(st.users) + {req.userId}
      && req.userId in r.0.mailboxes && r.0.mailboxes[req.userId] == []
      && r.0.mailboxes - {req.userId} == st.mailboxes - {req.userId}
    ensures Valid(st) ==> Valid(r.0)
    ensures Covered(st) ==> Covered(r.0)
  {
    var id := req.userId;
    if id in Ids(st.users) then
      (st, Reply(id, false, UserExists))
    else
      var account := Account(id, true);
      var users := st.users + [account];
      assert users[..|st.users|] == st.users;
      assert Ids(users) == Ids(st.users) + {id} by {
        assert forall a :: a in users <==> a in st.users || a == account;
      }
      assert Valid(st) ==> Distinct(users) by {
        if Valid(st) {
          AppendFreshDistinct(st.users, account);
        }
      }
      (State(users, st.mailboxes[id := []]), Reply(id, true, ""))
  }

  /** `handle_login`: an absent id and an id already logged in are refused;
      otherwise only that account becomes logged in. */
  function Login(st: State, req: Request): (r: (State, Response))
    ensures r.1.Reply? && r.1.userId == req.userId
    ensures Lookup(st.users, req.userId).None? ==>
      r.0 == st && !r.1.success && r.1.errorMessage == NoSuchUser
    ensures Lookup(st.users, req.userId) == Some(Account(req.userId, true)) ==>
      r.0 == st && !r.1.success && r.1.errorMessage == AlreadyLoggedIn
    ensures r.1.success <==> Lookup(st.users, req.userId) == Some(Account(req.userId, false))
    ensures r.1.success ==>
      && r.1.errorMessage == ""
      && Lookup(r.0.users, req.userId) == Some(Account(req.userId, true))
      && |r.0.users| == |st.users|
      && (forall j | 0 <= j < |st.users| :: r.0.users[j].userId == st.users[j].userId)
      && (forall j | 0 <= j < |st.users| && st.users[j].userId != req.userId :: r.0.users[j] == st.users[j])
      && r.0.mailboxes == st.mailboxes
    ensures Ids(r.0.users) == Ids(st.users)
    ensures Valid(st) ==> Valid(r.0)
    ensures Covered(st) ==> Covered(r.0)
  {
    var id := req.userId;
    match Find(st.users, id)
    case None => (st, Reply(id, false, NoSuchUser))
    case Some(i) =>
      if st.users[i].loggedIn then
        (st, Reply(id, false, AlreadyLoggedIn))
      else
        var account := Account(id, true);
        var users := st.users[i := account];
        UpdateSameId(st.users, i, account);
        FindUpdate(st.users, i, account, id);
        (State(users, st.mailboxes), Reply(id, true, ""))
  }

  /** `handle_delete`: an absent id is refused; otherwise the account and its
      mailbox go, undelivered messages included, and nothing else changes. */
  function Delete(st: State, req: Request): (r: (State, Response))
    ensures r.1.Reply? && r.1.userId == req.userId
    ensures r.1.success <==> req.userId in Ids(st.users)
    ensures !r.1.success ==> r.0 == st && r.1.errorMessage == NoSuchUser
    ensures r.1.success ==>
      && r.1.errorMessage == ""
      && Ids(r.0.users) == Ids(st.users) - {req.userId}
      && (forall a :: a in r.0.users <==> a in st.users && a.userId != req.userId)
      && req.userId !in r.0.mailboxes
      && r.0.mailboxes == st.mailboxes - {req.userId}
    ensures r.1.success && Distinct(st.users) ==> |r.0.users| == |st.users| - 1
    ensures r.1.success && Distinct(st.users) ==>
      var i := Find(st.users, req.userId).value;
      r.0.users == st.users[..i] + st.users[i + 1..]
    ensures Valid(st) ==> Valid(r.0)
    ensures Covered(st) ==> Covered(r.0)
  {
    var id := req.userId;
    if id !in Ids(st.users) then
      (st, Reply(id, false, NoSuchUser))
    else
      var users := RemoveAll(st.users, id);
      assert Distinct(st.users) ==>
        && Distinct(users) && |users| == |st.users| - 1
        && users == st.users[..Find(st.users, id).value] + st.users[Find(st.users, id).value + 1..]
      by {
        if Distinct(st.users) {
          RemoveAllDistinct(st.users, id);
          RemoveAllOne(st.users, id);
          RemoveAllAt(st.users, id, Find(st.users, id).value);
        }
      }
      (State(users, st.mailboxes - {id}), Reply(id, true, ""))
  }

  /** `handle_list`: never fails; returns page `page` (four per page) of the
      accounts whose id contains `wildcard`, in directory order. */
  function List(st: State, req: Request): (r: Response)
    ensures r.Listing? && r.success && r.errorMessage == "" && r.userId == req.userId
    ensures |r.accounts| <= PageSize
    ensures forall a :: a in r.accounts ==> a in st.users && Occurs(req.wildcard, a.userId)
    ensures 0 <= req.page ==>
      var hits := Matching(st.users, req.wildcard);
      r.accounts == hits[Min(req.page * PageSize, |hits|)..Min(req.page * PageSize + PageSize, |hits|)]
    ensures req.page == -1 ==> r.accounts == []
    ensures req.page < -1 ==>
      var hits := Matching(st.users, req.wildcard);
      r.accounts == hits[Max(|hits| + req.page * PageSize, 0)..Max(|hits| + (req.page + 1) * PageSize, 0)]
  {
    Listing(req.userId, true, "", Page(Matching(st.users, req.wildcard), req.page))
  }

  /** `handle_send`: a recipient without an account is refused; otherwise the
      message goes to the tail of the recipient's mailbox and nothing else changes. */
  function Send(st: State, req: Request): (r: (State, Response))
    requires Covered(st)
    ensures r.1.Reply? && r.1.userId == req.userId
    ensures r.1.success <==> req.recipientId in Ids(st.users)
    ensures !r.1.success ==> r.0 == st && r.1.errorMessage == NoSuchUser
    ensures r.1.success ==>
      && r.1.errorMessage == ""
      && r.0.users == st.users
      && r.0.mailboxes.Keys == st.mailboxes.Keys
      && r.0.mailboxes[req.recipientId]
         == st.mailboxes[req.recipientId] + [Message(req.userId, req.recipientId, req.text)]
      && r.0.mailboxes - {req.recipientId} == st.mailboxes - {req.recipientId}
    ensures Valid(st) ==> Valid(r.0)
    ensures Covered(r.0)
  {
    var to := req.recipientId;
    if to !in Ids(st.users) then
      (st, Reply(req.userId, false, NoSuchUser))
    else
      var message := Message(req.userId, to, req.text);
      (State(st.users, st.mailboxes[to := st.mailboxes[to] + [message]]), Reply(req.userId, true, ""))
  }

  /** The operation tags `handle_request_with_op` answers. */
  const Ops: set<string> := {"create", "login", "delete", "list", "send", "health"}

  /** `handle_request_with_op`: route an op string to its handler; "health" is
      answered with a success that touches nothing, and an unknown op gets no response. */
  function Dispatch(st: State, req: Request, op: string): (r: (State, Option<Response>))
    requires Covered(st)
    ensures r.1.None? <==> op !in Ops
    ensures r.1.None? ==> r.0 == st
    ensures op == "create" ==> r == (Create(st, req).0, Some(Create(st, req).1))
    ensures op == "login" ==> r == (Login(st, req).0, Some(Login(st, req).1))
    ensures op == "delete" ==> r == (Delete(st, req).0, Some(Delete(st, req).1))
    ensures op == "send" ==> r == (Send(st, req).0, Some(Send(st, req).1))
    ensures op == "list" ==> r == (st, Some(List(st, req)))
    ensures op == "health" ==> r == (st, Some(Reply(req.userId, true, "")))
    ensures op in Ops && op != "list" ==> r.1.Some? && r.1.value.Reply?
    ensures r.1.Some? ==> r.1.value.userId == req.userId
    ensures Valid(st) ==> Valid(r.0)
    ensures Covered(r.0)
  {
    if op == "create" then var (s, resp) := Create(st, req); (s, Some(resp))
    else if op == "login" then var (s, resp) := Login(st, req); (s, Some(resp))
    else if op == "delete" then var (s, resp) := Delete(st, req); (s, Some(resp))
    else if op == "list" then (st, Some(List(st, req)))
    else if op == "send" then var (s, resp) := Send(st, req); (s, Some(resp))
    else if op == "health" then (st, Some(Reply(req.userId, true, "")))
    else (st, None)
  }

  /** The per-connection state of `handle_connection`: the bound user id, "" until
      a create or login on this connection succeeds. */
  datatype Session = Session(userId: UserId)

  const Unbound := Session("")

  /** One request/response round of `handle_connection` for any op but subscribe:
      dispatch, then bind the session to the request's id when a create or login
      succeeded. */
  function Receive(st: State, sess: Session, req: Request, op: string): (r: (State, Session, Option<Response>))
    requires Covered(st) && op != "subscribe"
    ensures (r.0, r.2) == Dispatch(st, req, op)
    ensures r.1 != sess ==> (op == "create" || op == "login") && r.2.Some? && r.2.value.success
    ensures (op == "create" || op == "login") && r.2.Some? && r.2.value.success ==> r.1 == Session(req.userId)
    ensures Valid(st) ==> Valid(r.0)
    ensures Covered(r.0)
  {
    var (s, resp) := Dispatch(st, req, op);
    var bound := (op == "create" || op == "login") && resp.Some? && resp.value.success;
    (s, if bound then Session(req.userId) else sess, resp)
  }

  /** Cleanup when the client closes the connection (or a send to it fails): a
      bound session's account is marked logged out. When the bound account was
      deleted in the meantime, the lookup fails and nothing changes. */
  function Disconnect(st: State, sess: Session): (r: State)
    ensures |sess.userId| == 0 || sess.userId !in Ids(st.users) ==> r == st
    ensures |sess.userId| > 0 && sess.userId in Ids(st.users) ==>
      && Lookup(r.users, sess.userId) == Some(Account(sess.userId, false))
      && |r.users| == |st.users|
      && (forall j | 0 <= j < |st.users| && st.users[j].userId != sess.userId :: r.users[j] == st.users[j])
    ensures r.mailboxes == st.mailboxes
    ensures Ids(r.users) == Ids(st.users)
    ensures forall x :: Find(r.users, x) == Find(st.users, x)
    ensures Valid(st) ==> Valid(r)
  {
    var id := sess.userId;
    if |id| == 0 then st
    else match Find(st.users, id)
      case None => st
      case Some(i) =>
        var account := Account(id, false);
        UpdateSameId(st.users, i, account);
        assert forall x :: Find(st.users[i := account], x) == Find(st.users, x) by {
          forall x ensures Find(st.users[i := account], x) == Find(st.users, x) {
            FindUpdate(st.users, i, account, x);
          }
        }
        State(st.users[i := account], st.mailboxes)
  }

  /** The synchronous answer `handle_subscribe` sends before it starts delivering:
      success exactly when the account exists. */
  function SubscribeAck(st: State, req: Request): (r: Response)
    ensures r.Reply? && r.userId == req.userId
    ensures r.success <==> req.userId in Ids(st.users)
    ensures !r.success ==> r.errorMessage == NoSuchUser
    ensures r.success ==> r.errorMessage == ""
  {
    if req.userId !in Ids(st.users) then Reply(req.userId, false, NoSuchUser)
    else Reply(req.userId, true, "")
  }

  /** What one pass of the delivery loop did. */
  datatype Delivery =
    | Stopped             // the server is shutting down: the loop ends
    | MailboxGone         // the mailbox was deleted under the loop (a KeyError ends it)
    | Idle                // nothing queued: sleep and poll again
    | PeerLost            // the health probe got no answer: the connection is dropped
    | Delivered(message: Message)

  /** One pass of the `handle_subscribe` loop for `id`: when the server is alive
      and the mailbox is non-empty, probe the peer, and if it answers send the
      head message and keep the tail. */
  function DeliverStep(st: State, id: UserId, alive: bool, peerAnswered: bool): (r: (State, Delivery))
    ensures r.1.Delivered? <==> alive && peerAnswered && id in st.mailboxes && |st.mailboxes[id]| > 0
    ensures r.1.Delivered? ==>
      && r.1.message == st.mailboxes[id][0]
      && r.0.mailboxes.Keys == st.mailboxes.Keys
      && r.0.mailboxes[id] == st.mailboxes[id][1..]
      && r.0.mailboxes - {id} == st.mailboxes - {id}
      && r.0.users == st.users
    ensures !r.1.Delivered? ==> r.0 == st
    ensures r.1 == Stopped <==> !alive
    ensures r.1 == Idle <==> alive && id in st.mailboxes && st.mailboxes[id] == []
    ensures r.1 == PeerLost <==> alive && !peerAnswered && id in st.mailboxes && st.mailboxes[id] != []
    ensures Valid(st) ==> Valid(r.0)
  {
    if !alive then (st, Stopped)
    else if id !in st.mailboxes then (st, MailboxGone)
    else if |st.mailboxes[id]| == 0 then (st, Idle)
    else if !peerAnswered then (st, PeerLost)
    else
      var queue := st.mailboxes[id];
      (State(st.users, st.mailboxes[id := queue[1..]]), Delivered(queue[0]))
  }

  /** Up to `n` passes of the delivery loop against a live server and a peer that
      always answers; stops early once the mailbox is empty. Returns the state and
      the messages sent, in the order sent. */
  function Drain(st: State, id: UserId, n: nat): (r: (State, seq<Message>))
    requires id in st.mailboxes
    ensures var k := Min(n, |st.mailboxes[id]|);
      && r.1 == st.mailboxes[id][..k]
      && r.0.users == st.users
      && r.0.mailboxes.Keys == st.mailboxes.Keys
      && r.0.mailboxes[id] == st.mailboxes[id][k..]
      && r.0.mailboxes - {id} == st.mailboxes - {id}
    decreases n
  {
    if n == 0 then (st, [])
    else
      var (next, outcome) := DeliverStep(st, id, true, true);
      match outcome
      case Delivered(m) =>
        var (last, rest) := Drain(next, id, n - 1);
        (last, [m] + rest)
      case _ => (st, [])
  }
}
