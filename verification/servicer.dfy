/**
 The earlier gRPC chat service (`ChatHandlerServicer` in part2/server.py): a
 list-based directory with create, login, list and delete. It shares the
 account and state records with the socket server but differs in its rules:
 login accepts an account that is already logged in, list is not paginated,
 and delete leaves the mailbox map untouched.
 */
module GrpcServicer {
  import opened Text
  import opened Schema

  const IdTaken := "userID already exists"
  const UnknownAtLogin := "UserId does not exist. Try creating an account."
  const UnknownAtDelete := "UserId does not exist."

  /** `BasicResponse(success, errorMessage)`. */
  datatype BasicResponse = BasicResponse(success: bool, errorMessage: string)

  /** `ListResponse(success, accounts)`. */
  datatype ListResponse = ListResponse(success: bool, accounts: seq<Account>)

  /** `Create`: an id already in the list is refused; a new one gets a
      logged-in account appended at the end and an empty mailbox. */
  function Create(st: State, id: UserId): (r: (State, BasicResponse))
    ensures r.1.success <==> id !in Ids(st.users)
    ensures !r.1.success ==> r.0 == st && r.1.errorMessage == IdTaken
    ensures r.1.success ==>
      && r.1.errorMessage == ""
      && |r.0.users| == |st.users| + 1
      && r.0.users[..|st.users|] == st.users
      && r.0.users[|st.users|] == Account(id, true)
      && id in r.0.mailboxes && r.0.mailboxes[id] == []
      && r.0.mailboxes - {id} == st.mailboxes - {id}
    ensures Distinct(st.users) ==> Distinct(r.0.users)
  {
    if id in Ids(st.users) then
      (st, BasicResponse(false, IdTaken))
    else
      var account := Account(id, true);
      var users := st.users + [account];
      assert users[..|st.users|] == st.users;
      assert Distinct(st.users) ==> Distinct(users) by {
        if Distinct(st.users) {
          AppendFreshDistinct(st.users, account);
        }
      }
      (State(users, st.mailboxes[id := []]), BasicResponse(true, ""))
  }

  /** `Login`: the first account with the id is marked logged in, whether or
      not it already was; an unknown id is refused. */
  function Login(st: State, id: UserId): (r: (State, BasicResponse))
    ensures r.1.success <==> id in Ids(st.users)
    ensures !r.1.success ==> r.0 == st && r.1.errorMessage == UnknownAtLogin
    ensures r.1.success ==>
      && r.1.errorMessage == ""
      && Lookup(r.0.users, id) == Some(Account(id, true))
      && |r.0.users| == |st.users|
      && (forall j | 0 <= j < |st.users| && j != Find(st.users, id).value :: r.0.users[j] == st.users[j])
    ensures r.0.mailboxes == st.mailboxes
    ensures Ids(r.0.users) == Ids(st.users)
    ensures Distinct(st.users) ==> Distinct(r.0.users)
  {
    match Find(st.users, id)
    case None => (st, BasicResponse(false, UnknownAtLogin))
    case Some(i) =>
      var account := st.users[i].(loggedIn := true);
      UpdateSameId(st.users, i, account);
      FindUpdate(st.users, i, account, id);
      (State(st.users[i := account], st.mailboxes), BasicResponse(true, ""))
  }

  /** `List`: every account whose id contains `wildcard`, with no paging. */
  function List(st: State, wildcard: string): (r: ListResponse)
    ensures r.success
    ensures forall a :: a in r.accounts <==> a in st.users && Occurs(wildcard, a.userId)
    ensures |r.accounts| <= |st.users|
  {
    ListResponse(true, Matching(st.users, wildcard))
  }

  /** `Delete`: every account with the id leaves the list, the others keep their
      relative order (the filter distributes over any split of the list), and
      the call succeeds exactly when the list got shorter. Mailboxes are never
      touched. */
  function Delete(st: State, id: UserId): (r: (State, BasicResponse))
    ensures r.1.success <==> id in Ids(st.users)
    ensures !r.1.success ==> r.0 == st && r.1.errorMessage == UnknownAtDelete
    ensures r.1.success ==> r.1.errorMessage == ""
    ensures r.1.success <==> |r.0.users| < |st.users|
    ensures Ids(r.0.users) == Ids(st.users) - {id}
    ensures forall a :: a in r.0.users <==> a in st.users && a.userId != id
    ensures r.0.mailboxes == st.mailboxes
    ensures Distinct(st.users) ==> Distinct(r.0.users)
    ensures r.1.success && Distinct(st.users) ==> |r.0.users| == |st.users| - 1
    ensures r.1.success && Distinct(st.users) ==>
      var i := Find(st.users, id).value;
      r.0.users == st.users[..i] + st.users[i + 1..]
    ensures forall xs, ys | st.users == xs + ys :: r.0.users == RemoveAll(xs, id) + RemoveAll(ys, id)
  {
    var kept := RemoveAll(st.users, id);
    RemoveAllDistinctIf(st.users, id);
    assert forall xs, ys | st.users == xs + ys :: kept == RemoveAll(xs, id) + RemoveAll(ys, id) by {
      forall xs, ys | st.users == xs + ys ensures kept == RemoveAll(xs, id) + RemoveAll(ys, id) {
        RemoveAllAppend(xs, ys, id);
      }
    }
    assert Distinct(st.users) && id in Ids(st.users) ==>
      var i := Find(st.users, id).value;
      kept == st.users[..i] + st.users[i + 1..]
    by {
      if Distinct(st.users) && id in Ids(st.users) {
        RemoveAllAt(st.users, id, Find(st.users, id).value);
      }
    }
    if |kept| == |st.users| then
      NoneRemoved(st.users, id);
      (State(kept, st.mailboxes), BasicResponse(false, UnknownAtDelete))
    else
      (State(kept, st.mailboxes), BasicResponse(true, ""))
  }

  /** The delete filter keeps ids distinct, and with distinct ids removes exactly one account. */
  lemma RemoveAllDistinctIf(users: seq<Account>, id: UserId)
    ensures Distinct(users) ==> Distinct(RemoveAll(users, id))
    ensures Distinct(users) && id in Ids(users) ==> |RemoveAll(users, id)| == |users| - 1
  {
    if Distinct(users) {
      RemoveAllDistinct(users, id);
      if id in Ids(users) {
        RemoveAllOne(users, id);
      }
    }
  }

  /** One call to the service. */
  datatype Call = CreateCall(id: UserId) | LoginCall(id: UserId) | ListCall(wildcard: string) | DeleteCall(id: UserId)

  /** The state after one call. */
  function Apply(st: State, call: Call): (r: State)
    ensures Distinct(st.users) ==> Distinct(r.users)
  {
    match call
    case CreateCall(id) => Create(st, id).0
    case LoginCall(id) => Login(st, id).0
    case ListCall(_) => st
    case DeleteCall(id) => Delete(st, id).0
  }

  /** Calls served one after another. */
  function Serve(st: State, calls: seq<Call>): (r: State)
    requires Distinct(st.users)
    ensures Distinct(r.users)
    decreases |calls|
  {
    if |calls| == 0 then st else Serve(Apply(st, calls[0]), calls[1..])
  }

  /** From an empty service, no sequence of calls ever lists one id twice. */
  lemma ReachableDistinct(calls: seq<Call>)
    ensures Distinct(Serve(Empty, calls).users)
  {
  }
}
