/**
 The records both chat servers keep in memory: accounts, messages, and the
 directory state, an insertion-ordered list of accounts together with one
 mailbox per account id. Python dicts iterate in insertion order, so the
 socket server's `users` dict is a sequence here as well.
 */
module Schema {
  import opened Text

  type UserId = string

  datatype Option<+T> = None | Some(value: T)

  /** `Account(user_id, is_logged_in)`. */
  datatype Account = Account(userId: UserId, loggedIn: bool)

  /** `Message(author_id, recipient_id, text)`. */
  datatype Message = Message(authorId: UserId, recipientId: UserId, text: string)

  /** `users` in insertion order and `msgs_cache`, the per-account mailboxes. */
  datatype State = State(users: seq<Account>, mailboxes: map<UserId, seq<Message>>)

  /** The server before any request: no accounts, no mailboxes. */
  const Empty := State([], map[])

  /** The ids of a list of accounts. */
  function Ids(users: seq<Account>): set<UserId> {
    set a | a in users :: a.userId
  }

  /** No id names two accounts. */
  predicate Distinct(users: seq<Account>) {
    forall i, j | 0 <= i < j < |users| :: users[i].userId != users[j].userId
  }

  /** Position of the first account named `id`, the account a lookup by key reaches. */
  function Find(users: seq<Account>, id: UserId): (r: Option<nat>)
    ensures r.None? <==> id !in Ids(users)
    ensures r.Some? ==> r.value < |users| && users[r.value].userId == id
    ensures r.Some? ==> forall j | 0 <= j < r.value :: users[j].userId != id
  {
    if |users| == 0 then None
    else if users[0].userId == id then Some(0)
    else
      assert Ids(users) == {users[0].userId} + Ids(users[1..]) by {
        assert users == [users[0]] + users[1..];
      }
      match Find(users[1..], id)
      case None => None
      case Some(k) => Some(k + 1)
  }

  /** The account a lookup by key `id` reaches, if any. */
  function Lookup(users: seq<Account>, id: UserId): (r: Option<Account>)
    ensures r.None? <==> id !in Ids(users)
    ensures r.Some? ==> r.value in users && r.value.userId == id
  {
    match Find(users, id)
    case None => None
    case Some(i) => Some(users[i])
  }

  /** Replacing an account by one with the same id moves no lookup. */
  lemma {:induction false} FindUpdate(users: seq<Account>, i: nat, a: Account, x: UserId)
    requires i < |users| && a.userId == users[i].userId
    ensures Find(users[i := a], x) == Find(users, x)
  {
    if i > 0 {
      assert users[i := a][1..] == users[1..][i - 1 := a];
      FindUpdate(users[1..], i - 1, a, x);
    }
  }

  /** The accounts not named `id`, in their original order. */
  function RemoveAll(users: seq<Account>, id: UserId): (r: seq<Account>)
    ensures Ids(r) == Ids(users) - {id}
    ensures forall a :: a in r <==> a in users && a.userId != id
    ensures |r| <= |users|
    ensures |r| == |users| <==> id !in Ids(users)
  {
    if |users| == 0 then []
    else
      assert Ids(users) == {users[0].userId} + Ids(users[1..]) by {
        assert users == [users[0]] + users[1..];
      }
      var rest := RemoveAll(users[1..], id);
      if users[0].userId == id then rest
      else
        assert Ids([users[0]] + rest) == {users[0].userId} + Ids(rest) by {
          assert forall a :: a in [users[0]] + rest <==> a == users[0] || a in rest;
        }
        [users[0]] + rest
  }

  /** Removal distributes over concatenation, so it keeps the relative order of accounts. */
  lemma {:induction false} RemoveAllAppend(xs: seq<Account>, ys: seq<Account>, id: UserId)
    ensures RemoveAll(xs + ys, id) == RemoveAll(xs, id) + RemoveAll(ys, id)
  {
    if |xs| > 0 {
      var zs := xs + ys;
      assert zs[0] == xs[0];
      assert zs[1..] == xs[1..] + ys;
      RemoveAllAppend(xs[1..], ys, id);
      if xs[0].userId != id {
        calc {
          RemoveAll(zs, id);
          [xs[0]] + RemoveAll(xs[1..] + ys, id);
          [xs[0]] + (RemoveAll(xs[1..], id) + RemoveAll(ys, id));
          ([xs[0]] + RemoveAll(xs[1..], id)) + RemoveAll(ys, id);
        }
      }
    } else {
      assert xs + ys == ys;
    }
  }

  /** The accounts whose id contains `wildcard`, in their original order. */
  function Matching(users: seq<Account>, wildcard: string): (r: seq<Account>)
    ensures forall a :: a in r <==> a in users && Occurs(wildcard, a.userId)
    ensures |r| <= |users|
  {
    if |users| == 0 then []
    else
      var rest := Matching(users[1..], wildcard);
      if Occurs(wildcard, users[0].userId) then [users[0]] + rest else rest
  }

  /** Filtering distributes over concatenation, so it keeps the relative order of accounts. */
  lemma {:induction false} MatchingAppend(xs: seq<Account>, ys: seq<Account>, wildcard: string)
    ensures Matching(xs + ys, wildcard) == Matching(xs, wildcard) + Matching(ys, wildcard)
  {
    if |xs| > 0 {
      assert (xs + ys)[1..] == xs[1..] + ys;
      MatchingAppend(xs[1..], ys, wildcard);
    } else {
      assert xs + ys == ys;
    }
  }

  /** The empty wildcard keeps every account. */
  lemma {:induction false} MatchingEverything(users: seq<Account>)
    ensures Matching(users, "") == users
  {
    if |users| > 0 {
      MatchingEverything(users[1..]);
    }
  }

  /** A filter nothing passes leaves nothing. */
  lemma {:induction false} MatchingNone(users: seq<Account>, wildcard: string)
    requires forall a | a in users :: !Occurs(wildcard, a.userId)
    ensures Matching(users, wildcard) == []
  {
    if |users| > 0 {
      assert users[0] in users;
      MatchingNone(users[1..], wildcard);
    }
  }

  /** Appending an account adds exactly its id. */
  lemma IdsAppend(users: seq<Account>, a: Account)
    ensures Ids(users + [a]) == Ids(users) + {a.userId}
  {
    assert forall b :: b in users + [a] <==> b in users || b == a;
  }

  /** Adding an account with a fresh id keeps ids distinct. */
  lemma AppendFreshDistinct(users: seq<Account>, a: Account)
    requires Distinct(users) && a.userId !in Ids(users)
    ensures Distinct(users + [a])
    ensures Ids(users + [a]) == Ids(users) + {a.userId}
  {
    var s := users + [a];
    forall i, j | 0 <= i < j < |s|
      ensures s[i].userId != s[j].userId
    {
      if j == |users| {
        assert s[i] in users;
      }
    }
  }

  /** Replacing an account by one with the same id changes neither the ids nor their distinctness. */
  lemma UpdateSameId(users: seq<Account>, i: nat, a: Account)
    requires i < |users| && a.userId == users[i].userId
    ensures Ids(users[i := a]) == Ids(users)
    ensures Distinct(users) ==> Distinct(users[i := a])
  {
    var s := users[i := a];
    forall x | x in Ids(users) ensures x in Ids(s) {
      var b :| b in users && b.userId == x;
      var k :| 0 <= k < |users| && users[k] == b;
      assert s[k].userId == x;
    }
    forall x | x in Ids(s) ensures x in Ids(users) {
      var b :| b in s && b.userId == x;
      var k :| 0 <= k < |s| && s[k] == b;
      assert users[k].userId == x;
    }
  }

  /** With distinct ids, removing an id that is present removes exactly one account. */
  lemma {:induction false} RemoveAllOne(users: seq<Account>, id: UserId)
    requires Distinct(users) && id in Ids(users)
    ensures |RemoveAll(users, id)| == |users| - 1
  {
    var tail := users[1..];
    assert users == [users[0]] + tail;
    assert Distinct(tail);
    if users[0].userId == id {
      FirstNotInTail(users);
      NoneRemoved(tail, id);
    } else {
      assert id in Ids(tail);
      RemoveAllOne(tail, id);
    }
  }

  /** With distinct ids, removing a present id cuts exactly its account out of
      the list and keeps every other account in place, like deleting a dict key. */
  lemma RemoveAllAt(users: seq<Account>, id: UserId, i: nat)
    requires Distinct(users) && Find(users, id) == Some(i)
    ensures RemoveAll(users, id) == users[..i] + users[i + 1..]
  {
    var before, after := users[..i], users[i + 1..];
    assert users == before + ([users[i]] + after);
    assert id !in Ids(before) by {
      forall a | a in before ensures a.userId != id {
        var j :| 0 <= j < i && before[j] == a;
      }
    }
    assert id !in Ids(after) by {
      forall a | a in after ensures a.userId != id {
        var j :| 0 <= j < |after| && after[j] == a;
        assert users[i + 1 + j] == a;
      }
    }
    RemoveAllAppend(before, [users[i]] + after, id);
    RemoveAllAppend([users[i]], after, id);
    NoneRemoved(before, id);
    NoneRemoved(after, id);
    assert RemoveAll([users[i]], id) == [];
  }

  /** The first id of a list without duplicates does not occur again. */
  lemma FirstNotInTail(users: seq<Account>)
    requires Distinct(users) && |users| > 0
    ensures users[0].userId !in Ids(users[1..])
  {
  }

  /** Removing an id no account carries leaves the list as it is. */
  lemma NoneRemoved(users: seq<Account>, id: UserId)
    requires id !in Ids(users)
    ensures RemoveAll(users, id) == users
  {
    if |users| > 0 {
      assert users[0] in users;
      assert Ids(users[1..]) <= Ids(users) by {
        forall x | x in Ids(users[1..]) ensures x in Ids(users) {
          var b :| b in users[1..] && b.userId == x;
        }
      }
      NoneRemoved(users[1..], id);
    }
  }

  /** Removing accounts keeps ids distinct. */
  lemma RemoveAllDistinct(users: seq<Account>, id: UserId)
    requires Distinct(users)
    ensures Distinct(RemoveAll(users, id))
  {
    if |users| > 0 {
      RemoveAllDistinct(users[1..], id);
      var rest := RemoveAll(users[1..], id);
      if users[0].userId != id {
        var s := [users[0]] + rest;
        forall i, j | 0 <= i < j < |s| ensures s[i].userId != s[j].userId {
          if i == 0 {
            assert s[j] in users[1..];
          }
        }
      }
    }
  }
}
