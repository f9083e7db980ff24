/**
 Properties of the socket server that relate several requests: the state
 invariant across any run of requests, the scenarios its unit tests walk
 through, FIFO delivery, and that the pages of a listing cover the matches.
 */
module SocketServerProofs {
  import opened Text
  import opened Slicing
  import opened Schema
  import opened SocketServer

  /** A fresh server satisfies the invariant. */
  lemma EmptyIsValid()
    ensures Valid(Empty)
  {
  }

  /** Requests served one after another, each atomically (the server has no
      locks, so this is the behaviour of a run without interleaving). */
  function Serve(st: State, steps: seq<(Request, string)>): (r: State)
    requires Valid(st)
    ensures Valid(r)
    decreases |steps|
  {
    if |steps| == 0 then st
    else Serve(Dispatch(st, steps[0].0, steps[0].1).0, steps[1..])
  }

  /** Everything that changes the server's state: a request on a connection
      (any op but subscribe), a connection closing with its session, and one
      pass of a subscription's delivery loop for a user id, with whether the
      server is alive and whether the peer answered the health probe. */
  datatype Event =
    | Req(request: Request, op: string)
    | Close(session: Session)
    | Pass(id: UserId, alive: bool, peerAnswered: bool)

  /** The state after one event. */
  function Step(st: State, e: Event): (r: State)
    requires Valid(st)
    ensures Valid(r)
  {
    match e
    case Req(req, op) => Dispatch(st, req, op).0
    case Close(sess) => Disconnect(st, sess)
    case Pass(id, alive, peerAnswered) => DeliverStep(st, id, alive, peerAnswered).0
  }

  /** Events applied one after another, each atomically. */
  function Run(st: State, events: seq<Event>): (r: State)
    requires Valid(st)
    ensures Valid(r)
    decreases |events|
  {
    if |events| == 0 then st else Run(Step(st, events[0]), events[1..])
  }

  /** Every state a fresh server reaches through requests, connection closes
      and delivery passes keeps account ids unique and accounts and mailboxes
      in one-to-one correspondence. */
  lemma ReachableIsValid(events: seq<Event>)
    ensures Valid(Run(Empty, events))
  {
    EmptyIsValid();
  }

  /** A request that carries only a user id, as the unit tests build them. */
  function Named(id: UserId): Request {
    Request(id, "", "", "", 0)
  }

  /** Creating an id twice: the first succeeds, the second fails with
      "User already exists" and adds nothing; the directory grows by one. */
  lemma CreateTwice(st: State, id: UserId)
    requires Valid(st) && id !in Ids(st.users)
    ensures var (s1, first) := Create(st, Named(id));
      var (s2, second) := Create(s1, Named(id));
      && first.success && !second.success && second.errorMessage == UserExists
      && s2 == s1 && |s2.users| == |st.users| + 1
  {
  }

  /** A logged-in account cannot log in again, but after its connection closes it can. */
  lemma LoginAfterDisconnect(st: State, id: UserId)
    requires Valid(st) && |id| > 0 && Lookup(st.users, id) == Some(Account(id, true))
    ensures !Login(st, Named(id)).1.success
    ensures Login(st, Named(id)).1.errorMessage == AlreadyLoggedIn
    ensures Login(Disconnect(st, Session(id)), Named(id)).1.success
  {
  }

  /** Closing a connection twice is the same as closing it once. */
  lemma {:induction false} DisconnectIdempotent(st: State, sess: Session)
    ensures Disconnect(Disconnect(st, sess), sess) == Disconnect(st, sess)
  {
    var once := Disconnect(st, sess);
    if |sess.userId| > 0 && sess.userId in Ids(st.users) {
      var i := Find(st.users, sess.userId).value;
      assert Find(once.users, sess.userId) == Some(i);
      assert once.users[i := Account(sess.userId, false)] == once.users;
    }
  }

  /** Deleting an account makes a later delete of it and a later send to it fail. */
  lemma DeleteThenSendFails(st: State, id: UserId, author: UserId, text: string)
    requires Valid(st) && id in Ids(st.users)
    ensures var s1 := Delete(st, Named(id)).0;
      var (s2, sent) := Send(s1, Request(author, id, text, "", 0));
      && !sent.success && sent.errorMessage == NoSuchUser && s2 == s1
      && !Delete(s1, Named(id)).1.success
  {
  }

  /** The messages `Send` builds for a run of texts from one author to one recipient. */
  function Messages(author: UserId, to: UserId, texts: seq<string>): (ms: seq<Message>)
    ensures |ms| == |texts|
  {
    if |texts| == 0 then [] else [Message(author, to, texts[0])] + Messages(author, to, texts[1..])
  }

  /** Sends of `texts`, in order, from `author` to `to`. */
  function SendAll(st: State, author: UserId, to: UserId, texts: seq<string>): (r: State)
    requires Covered(st)
    ensures Covered(r)
    ensures r.users == st.users && r.mailboxes.Keys == st.mailboxes.Keys
    decreases |texts|
  {
    if |texts| == 0 then st
    else SendAll(Send(st, Request(author, to, texts[0], "", 0)).0, author, to, texts[1..])
  }

  /** Successive sends queue their messages at the tail, in send order, and
      touch neither the directory nor any other mailbox. */
  lemma {:induction false} SendAllAppends(st: State, author: UserId, to: UserId, texts: seq<string>)
    requires Covered(st) && to in Ids(st.users)
    ensures SendAll(st, author, to, texts).mailboxes[to] == st.mailboxes[to] + Messages(author, to, texts)
    ensures SendAll(st, author, to, texts).mailboxes - {to} == st.mailboxes - {to}
    decreases |texts|
  {
    if |texts| > 0 {
      var m := Message(author, to, texts[0]);
      var s1 := State(st.users, st.mailboxes[to := st.mailboxes[to] + [m]]);
      SendFirst(st, author, to, texts, s1);
      SendAllAppends(s1, author, to, texts[1..]);
      AppendAssoc(st.mailboxes[to], m, Messages(author, to, texts[1..]));
    } else {
      assert st.mailboxes[to] + Messages(author, to, texts) == st.mailboxes[to];
    }
  }

  /** One send to an existing recipient, then the rest of the run. */
  lemma SendFirst(st: State, author: UserId, to: UserId, texts: seq<string>, s1: State)
    requires Covered(st) && to in Ids(st.users) && |texts| > 0
    requires s1 == State(st.users, st.mailboxes[to := st.mailboxes[to] + [Message(author, to, texts[0])]])
    ensures Covered(s1) && to in Ids(s1.users)
    ensures SendAll(st, author, to, texts) == SendAll(s1, author, to, texts[1..])
    ensures s1.mailboxes - {to} == st.mailboxes - {to}
  {
    assert Send(st, Request(author, to, texts[0], "", 0)).0 == s1;
  }

  /** FIFO: whatever was queued, then the sent texts, come out of the
      subscription in exactly that order, and the mailbox is left empty. */
  lemma FifoDelivery(st: State, author: UserId, to: UserId, texts: seq<string>)
    requires Valid(st) && to in Ids(st.users)
    ensures var sent := SendAll(st, author, to, texts);
      var (after, delivered) := Drain(sent, to, |st.mailboxes[to]| + |texts|);
      && delivered == st.mailboxes[to] + Messages(author, to, texts)
      && after.mailboxes[to] == []
  {
    SendAllAppends(st, author, to, texts);
  }

  /** A delivery pass over an empty mailbox changes nothing and sends nothing. */
  lemma EmptyMailboxIdles(st: State, id: UserId, peerAnswered: bool)
    requires id in st.mailboxes && st.mailboxes[id] == []
    ensures DeliverStep(st, id, true, peerAnswered) == (st, Idle)
  {
  }

  /** Pages `0 .. k-1` of a listing, laid end to end. */
  function Listed(st: State, wildcard: string, k: nat): seq<Account> {
    if k == 0 then []
    else Listed(st, wildcard, k - 1) + List(st, Request("", "", "", wildcard, k - 1)).accounts
  }

  /** Asking for enough pages returns every matching account exactly once, in
      directory order; with the empty wildcard that is the whole directory. */
  lemma {:induction false} ListedCoversMatching(st: State, wildcard: string, k: nat)
    requires |Matching(st.users, wildcard)| <= k * PageSize
    ensures Listed(st, wildcard, k) == Matching(st.users, wildcard)
    ensures wildcard == "" ==> Listed(st, wildcard, k) == st.users
  {
    ListedIsFirstPages(st, wildcard, k);
    PagesCoverAll(Matching(st.users, wildcard), k);
    if wildcard == "" {
      MatchingEverything(st.users);
    }
  }

  /** The listed pages are the first `k` pages of the filtered directory. */
  lemma {:induction false} ListedIsFirstPages(st: State, wildcard: string, k: nat)
    ensures Listed(st, wildcard, k) == FirstPages(Matching(st.users, wildcard), k)
  {
    if k > 0 {
      ListedIsFirstPages(st, wildcard, k - 1);
    }
  }

  /** Creates of `ids`, in order. */
  function CreateAll(st: State, ids: seq<UserId>): (r: State)
    ensures Valid(st) ==> Valid(r)
    decreases |ids|
  {
    if |ids| == 0 then st else CreateAll(Create(st, Named(ids[0])).0, ids[1..])
  }

  /** The five accounts of the server's unit tests, in creation order. */
  const Five := [Account("ream", true), Account("mark", true), Account("achele", true),
                 Account("joe", true), Account("bob", true)]

  /** Fresh logged-in accounts for `ids`, in order. */
  function NewAccounts(ids: seq<UserId>): seq<Account> {
    if |ids| == 0 then [] else [Account(ids[0], true)] + NewAccounts(ids[1..])
  }

  /** Creating pairwise-distinct ids that are all new appends their accounts, in
      creation order, after the existing ones. */
  lemma {:induction false} CreateAllFresh(st: State, ids: seq<UserId>)
    requires forall i, j | 0 <= i < j < |ids| :: ids[i] != ids[j]
    requires forall k | 0 <= k < |ids| :: ids[k] !in Ids(st.users)
    ensures CreateAll(st, ids).users == st.users + NewAccounts(ids)
    decreases |ids|
  {
    if |ids| == 0 {
      assert st.users + NewAccounts(ids) == st.users;
    } else {
      var id := ids[0];
      var s1 := State(st.users + [Account(id, true)], st.mailboxes[id := []]);
      var rest := ids[1..];
      CreateFirst(st, ids, s1);
      RestFresh(st, ids, s1);
      CreateAllFresh(s1, rest);
      var made := NewAccounts(rest);
      AppendAssoc(st.users, Account(id, true), made);
    }
  }

  /** One fresh create, then the rest of the run on the grown directory. */
  lemma CreateFirst(st: State, ids: seq<UserId>, s1: State)
    requires |ids| > 0 && ids[0] !in Ids(st.users)
    requires s1 == State(st.users + [Account(ids[0], true)], st.mailboxes[ids[0] := []])
    ensures CreateAll(st, ids) == CreateAll(s1, ids[1..])
  {
    assert Create(st, Named(ids[0])).0 == s1;
  }

  /** The rest of a run of fresh distinct ids is still fresh after the first create. */
  lemma RestFresh(st: State, ids: seq<UserId>, s1: State)
    requires |ids| > 0
    requires forall i, j | 0 <= i < j < |ids| :: ids[i] != ids[j]
    requires forall k | 0 <= k < |ids| :: ids[k] !in Ids(st.users)
    requires s1.users == st.users + [Account(ids[0], true)]
    ensures forall i, j | 0 <= i < j < |ids[1..]| :: ids[1..][i] != ids[1..][j]
    ensures forall k | 0 <= k < |ids[1..]| :: ids[1..][k] !in Ids(s1.users)
  {
    var rest := ids[1..];
    IdsAppend(st.users, Account(ids[0], true));
    assert forall k | 0 <= k < |rest| :: rest[k] == ids[k + 1];
  }

  /** Moving one element across a concatenation. */
  lemma AppendAssoc<T>(xs: seq<T>, x: T, ys: seq<T>)
    ensures xs + ([x] + ys) == (xs + [x]) + ys
  {
  }

  /** Creating ream, mark, achele, joe and bob from a fresh server lists them
      in that order, all logged in. The five ids arrive as a parameter pinned by
      `requires` rather than as a literal in the body: a literal argument lets
      the solver unfold `CreateAll` and `NewAccounts` without bound, while a
      parameter keeps the proof to the three steps below. */
  lemma FiveCreated(ids: seq<UserId>)
    requires ids == ["ream", "mark", "achele", "joe", "bob"]
    ensures CreateAll(Empty, ids).users == Five
  {
    FiveFresh(ids);
    CreateAllFresh(Empty, ids);
    FiveNew(ids);
  }

  /** The five test ids are pairwise distinct and none exists yet. */
  lemma FiveFresh(ids: seq<UserId>)
    requires ids == ["ream", "mark", "achele", "joe", "bob"]
    ensures forall i, j | 0 <= i < j < |ids| :: ids[i] != ids[j]
    ensures forall k | 0 <= k < |ids| :: ids[k] !in Ids(Empty.users)
  {
    assert Ids(Empty.users) == {};
    assert |ids[0]| == 4 && |ids[1]| == 4 && |ids[2]| == 6 && |ids[3]| == 3 && |ids[4]| == 3;
    assert ids[0][0] != ids[1][0] && ids[3][0] != ids[4][0];
  }

  /** The accounts created for the five test ids are `Five`. */
  lemma FiveNew(ids: seq<UserId>)
    requires ids == ["ream", "mark", "achele", "joe", "bob"]
    ensures Empty.users + NewAccounts(ids) == Five
  {
    assert NewAccounts(ids[5..]) == [];
    assert NewAccounts(ids[4..]) == Five[4..];
    assert NewAccounts(ids[3..]) == Five[3..];
    assert NewAccounts(ids[2..]) == Five[2..];
    assert NewAccounts(ids[1..]) == Five[1..];
  }

  /** The paging scenario of the server's unit tests: with the five accounts,
      the empty wildcard gives a full first page and a one-account second page. */
  lemma PagingScenario(st: State, req: Request)
    requires |st.users| == 5 && req.wildcard == ""
    ensures req.page == 0 ==> List(st, req).accounts == st.users[..4]
    ensures req.page == 1 ==> List(st, req).accounts == [st.users[4]]
    ensures req.page >= 2 ==> List(st, req).accounts == []
  {
    MatchingEverything(st.users);
  }

  /** A wildcard no account id contains lists nothing, on every page. */
  lemma NoMatchListsNothing(st: State, req: Request)
    requires forall a | a in st.users :: !Occurs(req.wildcard, a.userId)
    ensures List(st, req).accounts == []
  {
    MatchingNone(st.users, req.wildcard);
  }

  /** A one-letter wildcard lists, on any page, only accounts whose id holds that letter. */
  lemma LetterWildcard(st: State, c: char, page: int, a: Account)
    requires a in List(st, Request("", "", "", [c], page)).accounts
    ensures a in st.users && c in a.userId
  {
    OccursChar(c, a.userId);
  }
}
