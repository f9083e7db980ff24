# Chat server account and mailbox state machines, in Dafny

This project models the in-memory core of two chat servers from one repository:

* the raw-socket server (`Server` in `server.py`). It keeps an
  insertion-ordered account directory (`users`: id to `{user_id,
  is_logged_in}`) and one FIFO mailbox per account (`msgs_cache`). It answers
  create, login, delete, list (substring filter, four accounts per page) and
  send requests. Each connection binds a user id when a create or login
  succeeds, and logs that account out when the client goes away. A
  subscription hands queued messages to the client one at a time, each after a
  health probe the peer must answer;
* the earlier gRPC servicer (`ChatHandlerServicer` in `part2/server.py`). It is
  a list-based directory with create, login, list and delete.

Both are written as pure transition functions from a state record
(`Schema.State`: a sequence of accounts in insertion order plus a map of
mailboxes) to the next state and a response. Python dicts iterate in insertion
order and `handle_list` depends on it, so the directory is a sequence, not a
map. The server has no locks; every request is modelled as one atomic step,
and runs of requests as sequences of such steps.

Files:

* `text.dfy` (`Text`): Python's `in` on strings, proved equal to "occurs at
  some offset".
* `slicing.dfy` (`Slicing`): Python slicing `xs[lo:hi]`, including negative
  bounds, and the four-per-page listing window.
* `schema.dfy` (`Schema`): accounts, messages, the state, lookup by id, the
  filters used by list and delete.
* `socket_server.dfy` (`SocketServer`): the `server.py` handlers, the
  dispatcher, the session rule and one pass of the delivery loop.
* `socket_server_proofs.dfy` (`SocketServerProofs`): the invariant over any run
  of requests, connection closes and delivery passes, FIFO delivery, listing coverage, and the unit-test scenarios.
* `servicer.dfy` (`GrpcServicer`): the `part2/server.py` servicer.
* `comparison.dfy` (`Comparison`): where the two servers agree and where they
  differ.

Inputs that the source takes from the outside world are parameters. The
server's `alive` flag and whether the peer answered the health probe are
booleans passed to `SocketServer.DeliverStep`. A closed connection is a call to
`SocketServer.Disconnect`.

## Model

| member | source | states |
|---|---|---|
| `Text.Occurs` | server.py:72 | Python's `in` on strings: the empty wildcard is in every id, and a match never needs a wildcard longer than the id. `Text.OccursIsSubstring` pins it down. |
| `Text.OccursIsSubstring` | server.py:72 | The substring test used by the listing filter holds exactly when the wildcard sits at some offset of the id. |
| `Text.OccursChar` | server_tests/test_server.py:91-99 | A one-letter wildcard matches exactly the ids containing that letter, as the "e" and "z" listings of the tests rely on. |
| `Slicing.Bound` | server.py:73 | Python's normalisation of a slice bound against a list of length n. The result always lies in [0, n]. A bound in range is kept, and one past the end becomes n. A negative bound counts back from the end, and becomes 0 when it reaches before the start. |
| `Slicing.Slice` | server.py:73 | Python slicing never returns more than `hi - lo` elements or more than the list holds. For non-negative bounds it is the window between the bounds clamped to the length, and it is empty when `lo` is past the end. Crossed bounds of the same sign give nothing. Each mix of signs is stated: a negative bound counts back from the end, clamped at 0, so `s[5:-1]` of ten elements is `s[5..9]`. |
| `Slicing.Page` | server.py:30 | A page holds at most 4 accounts. For page `p >= 0` it is the window `[4p, 4p+4)` of the list, and it is empty once `4p` reaches the length. Page -1 is always empty (`xs[-4:0]`). A page p <= -2 is the window `[n+4p, n+4p+4)` counted back from the end, clamped at 0. |
| `Slicing.FirstPagesArePrefix` | server.py:73 | Pages 0 to k-1 laid end to end are exactly the first 4k elements: pages neither overlap nor skip nor reorder. |
| `Slicing.PagesCoverAll` | server.py:73 | Enough pages reproduce the whole list. |
| `Schema.Find` | server.py:49-51 | Lookup by key finds the first account with the id, and finds one exactly when the id is in the directory. |
| `Schema.Lookup` | server.py:51 | The looked-up account carries the requested id and is absent exactly when the id is. |
| `Schema.FindUpdate` | server.py:53 | Changing an account's login flag in place moves no lookup. |
| `Schema.RemoveAll` | part2/server.py:39 | Filtering out an id keeps exactly the accounts with other ids. The ids that remain are the old ones minus that id. The list keeps its length exactly when the id was absent. |
| `Schema.RemoveAllAppend` | part2/server.py:39 | Removal distributes over concatenation, so it keeps the relative order of the remaining accounts. |
| `Schema.RemoveAllAt` | server.py:62 | With unique ids, removing a present id cuts exactly its account out of the list. Every other account keeps its place and order, as dict `del` does. |
| `Schema.RemoveAllOne` | server.py:62 | With unique ids, removing a present id removes exactly one account, like deleting one dict key. |
| `Schema.RemoveAllDistinct` | part2/server.py:39 | Removing accounts keeps ids unique. |
| `Schema.NoneRemoved` | part2/server.py:39-43 | Removing an id nobody has leaves the list unchanged. |
| `Schema.Matching` | server.py:72 | The filter keeps exactly the accounts whose id contains the wildcard, never more accounts than the directory holds. |
| `Schema.MatchingAppend` | server.py:72 | The filter distributes over concatenation, so matches come out in directory order. |
| `Schema.MatchingEverything` | server.py:69-70 | The empty wildcard matches every account. |
| `Schema.MatchingNone` | server_tests/test_server.py:96-99 | A wildcard no id contains matches nothing. |
| `Schema.AppendFreshDistinct` | server.py:37-40 | Adding an account with a new id keeps ids unique and adds exactly that id. |
| `Schema.IdsAppend` | server.py:40 | Appending an account adds exactly its id to the directory's ids. |
| `Schema.UpdateSameId` | server.py:53 | Changing an account in place keeps the set of ids and their uniqueness. |
| `SocketServer.Create` | server.py:33-42 | An existing id fails with "User already exists" and changes nothing. A new id succeeds. It appends a logged-in account after the unchanged old ones, adds exactly that id, and gives it an empty mailbox. Other mailboxes are unchanged. The invariant is preserved. |
| `SocketServer.Login` | server.py:44-54 | An absent id fails with "User does not exist" and a logged-in one with "User already logged in"; both leave the state unchanged. It succeeds exactly on a logged-out account. Only that account changes, now logged in, at the same position. Mailboxes are unchanged. |
| `SocketServer.Delete` | server.py:56-64 | An absent id fails and changes nothing. A present id succeeds. It removes the account and its mailbox, pending messages included, and keeps every other account and mailbox. With unique ids the directory shrinks by exactly one: the account at the id's position is cut out, and every other account keeps its order. |
| `SocketServer.List` | server.py:66-74 | Always succeeds with at most 4 accounts, each from the directory and containing the wildcard. For `page >= 0` it returns the window `[4*page, 4*page+4)` of the matching accounts. Page -1 is empty. A page <= -2 is that window counted back from the end of the matching accounts, as Python's negative slice bounds do. |
| `SocketServer.Send` | server.py:112-121 | A recipient without an account fails with "User does not exist" and changes nothing. Otherwise the message from the request's user goes to the tail of the recipient's mailbox. The directory, the mailbox ids and every other mailbox stay unchanged. |
| `SocketServer.Dispatch` | server.py:123-139 | Each of "create", "login", "delete" and "send" gives exactly its handler's next state and reply. "list" gives the listing and changes nothing. "health" answers success and changes nothing. There is no response exactly for an unknown op, and then nothing changes. Every response carries the request's user id, and the invariant is preserved. |
| `SocketServer.Receive` | server.py:143-160 | One request round behaves as the dispatcher. The session's bound id changes only when a create or login succeeds, and then becomes the request's id. |
| `SocketServer.Disconnect` | server.py:170-175 | An unbound session, or one whose account is gone, changes nothing. Otherwise only the bound account becomes logged out. Positions, ids, lookups and mailboxes are unchanged. |
| `SocketServer.SubscribeAck` | server.py:81-91 | Subscribing succeeds exactly when the account exists, with an empty error message. Otherwise it fails with "User does not exist". |
| `SocketServer.DeliverStep` | server.py:93-110 | A message is handed over exactly when the server is alive, the peer answered and the mailbox is non-empty. The message is the head, the tail stays queued, and nothing else changes. Otherwise nothing changes. A stopped server, an empty mailbox and an unanswered probe are each told apart. |
| `SocketServer.Drain` | server.py:93-110 | n passes against a responsive peer hand over the first n queued messages in queue order, or all of them if fewer. They leave the rest queued and change nothing else. |
| `SocketServerProofs.Serve` | server.py:40-41 | Any run of requests from a valid state ends in a valid state: unique ids, and a mailbox for exactly the existing accounts. |
| `SocketServerProofs.Step` | server.py:107 | Every event that changes the state keeps that invariant: a request, a connection closing, and a delivery pass. |
| `SocketServerProofs.Run` | server.py:174 | Any run of such events from a valid state ends in a valid state. |
| `SocketServerProofs.ReachableIsValid` | server.py:62-63 | Every state a fresh server reaches satisfies that invariant, whatever mix of requests, connection closes and delivery passes it goes through. |
| `SocketServerProofs.CreateTwice` | server_tests/test_server.py:31-38 | Creating a new id twice succeeds once, then fails with "User already exists" and adds nothing; the directory grows by exactly one. |
| `SocketServerProofs.LoginAfterDisconnect` | server_tests/test_server.py:51-61 | A logged-in account cannot log in again, but can after its connection closes. |
| `SocketServerProofs.DisconnectIdempotent` | server.py:173-174 | Logging out a connection's account twice is the same as once. |
| `SocketServerProofs.DeleteThenSendFails` | server.py:117-118 | After an account is deleted, a send to it fails and changes nothing, and deleting it again fails. |
| `SocketServerProofs.SendAll` | server.py:117-121 | A run of sends keeps the directory and the set of mailbox ids. |
| `SocketServerProofs.SendAllAppends` | server.py:120 | Successive sends queue their messages at the recipient's tail in send order and touch no other mailbox. |
| `SocketServerProofs.FifoDelivery` | server.py:106-107 | Messages already queued, then the sent ones, are delivered in exactly that order, and the mailbox ends empty. |
| `SocketServerProofs.EmptyMailboxIdles` | server.py:96 | A delivery pass over an empty mailbox sends nothing and changes nothing, whether or not the peer answers. |
| `SocketServerProofs.ListedCoversMatching` | server.py:72-73 | Listing enough pages returns every matching account exactly once, in directory order; with the empty wildcard that is the whole directory. |
| `SocketServerProofs.ListedIsFirstPages` | server.py:73 | The listed pages are the pages of the filtered directory. |
| `SocketServerProofs.CreateAllFresh` | server.py:37-42 | Creating pairwise-distinct new ids appends their logged-in accounts, in creation order, after the existing ones. |
| `SocketServerProofs.CreateFirst` | server.py:39-41 | A fresh create grows the directory by one logged-in account and one empty mailbox before the rest of a run. |
| `SocketServerProofs.RestFresh` | server.py:37 | After one fresh create, the remaining ids of a distinct fresh run are still new. |
| `SocketServerProofs.SendFirst` | server.py:119-120 | A send to an existing recipient appends to its mailbox before the rest of a run, and other mailboxes stay unchanged. |
| `SocketServerProofs.FiveCreated` | server_tests/test_server.py:76-79 | Creating ream, mark, achele, joe and bob from a fresh server lists them in that order, all logged in. |
| `SocketServerProofs.FiveFresh` | server_tests/test_server.py:76 | The five test ids are pairwise distinct and new to a fresh server. |
| `SocketServerProofs.FiveNew` | server_tests/test_server.py:76-79 | The accounts those five creates add are exactly the five logged-in test accounts. |
| `SocketServerProofs.PagingScenario` | server_tests/test_server.py:82-89 | With five accounts and the empty wildcard, page 0 holds the first four, page 1 the fifth, and later pages nothing. |
| `SocketServerProofs.NoMatchListsNothing` | server_tests/test_server.py:96-99 | A wildcard no id contains lists nothing, on every page. |
| `SocketServerProofs.LetterWildcard` | server_tests/test_server.py:91-94 | Every account a one-letter wildcard lists, on any page, exists and has that letter in its id. |
| `GrpcServicer.Create` | part2/server.py:17-24 | An id already in the list fails with "userID already exists" and changes nothing. A new one appends exactly one logged-in account at the end and sets its mailbox to empty; other mailboxes are unchanged. Ids stay unique. |
| `GrpcServicer.Login` | part2/server.py:26-31 | Succeeds exactly when the id exists, whether or not it is already logged in. The account is then logged in and no other position changes. An unknown id fails and changes nothing. Mailboxes are never touched. |
| `GrpcServicer.List` | part2/server.py:33-35 | Always succeeds and returns exactly the accounts whose id contains the wildcard, with no page limit. |
| `GrpcServicer.Delete` | part2/server.py:37-45 | Removes every account with the id. Succeeds exactly when the list got shorter, which is exactly when the id existed. Otherwise it fails with nothing changed. The kept accounts keep their order: for any split of the list, the result is each part filtered in turn. With unique ids, exactly the account at the id's position is cut out. Mailboxes are never modified, and ids stay unique. |
| `GrpcServicer.RemoveAllDistinctIf` | part2/server.py:39 | The delete filter keeps ids unique, and with unique ids removes exactly one account. |
| `GrpcServicer.Apply` | part2/server.py:17-45 | Every service call keeps ids unique. |
| `GrpcServicer.Serve` | part2/server.py:18-22 | Any run of calls from a list of unique ids keeps them unique. |
| `GrpcServicer.ReachableDistinct` | part2/server.py:18-24 | From an empty service, no run of calls ever lists one id twice. |
| `Comparison.CreateAgrees` | part2/server.py:17-24 | Both servers create an account identically: the same outcome and the same next state. |
| `Comparison.LoginDiffersWhenLoggedIn` | part2/server.py:26-31 | On an account already logged in, the socket server refuses the login while the servicer accepts it and changes nothing. |
| `Comparison.LoginAgreesOtherwise` | part2/server.py:26-31 | In every other case the two logins agree, on outcome and on state. |
| `Comparison.ListIsAllPages` | part2/server.py:33-35 | The servicer's list is the socket server's pages laid end to end. |
| `Comparison.DeleteKeepsMailbox` | part2/server.py:37-45 | On an existing account both deletes leave the same accounts. The servicer keeps the mailbox, so its state breaks the socket server's invariant, which the socket server's delete preserves. |

## Behaviour worth knowing

* subscribe checks only that the account exists (server.py:81). Whether the
  account is logged in plays no part, and subscribing does not log it in;
* the author of a sent message is the request's `user_id` (server.py:119), not
  the connection's bound id. Only the recipient is checked;
* the delivery loop takes at most one message per pass and sleeps between
  passes (server.py:106-110). `SocketServer.Drain` is a run of such passes;
* a delivery pass removes the head message from the mailbox (server.py:107)
  before sending it (server.py:109). A message whose send then fails is lost.
  So "delivered" in `SocketServer.DeliverStep`, `SocketServer.Drain` and
  `SocketServerProofs.FifoDelivery` means taken from the queue and handed to
  the socket, not received by the client;
* when the health probe goes unanswered, the connection handler clears
  `is_logged_in` only if that connection itself bound a user through create or
  login (server.py:173-174). A shutdown during a subscription ends the loop
  without any logout (server.py:94-95, 157);
* create and login on a connection whose session is already bound are not
  refused (server.py:158-160).

## Left out

* Socket I/O, the accept loop `start`, `recv`/`sendall`, the one-second sleep and
  the process-wide `alive` flag (server.py:141-196) are I/O and timing. The flag
  and the probe answer are boolean inputs of `SocketServer.DeliverStep`. A closed
  connection is a call to `SocketServer.Disconnect`.
* The thread-pool executor and concurrent access to the shared dicts: the source
  has no locks, and every request is modelled as one atomic step.
* The wire codec and the request/response classes (`coding`, `schema`,
  imported at server.py:6-7) are not part of this model. Requests and responses
  are plain datatypes, and one `Request` record carries the fields of every
  request kind.
* The handling of exceptions other than a closed client in `handle_connection`
  (server.py:176-185) is not modelled: it sends an error response and continues.
* SocketServer.Disconnect: when the bound account was deleted before the client
  closed, Python raises `KeyError` and the worker ends. The model leaves the
  state unchanged and does not model the worker ending.
* SocketServer.DeliverStep: a mailbox deleted under a running subscription
  raises `KeyError` in Python. The model reports `MailboxGone` and changes
  nothing, and does not follow the exception into the connection handler.
* SocketServer.Send requires every account to have a mailbox, which the invariant
  guarantees. Otherwise Python would raise `KeyError` at server.py:120.
* SocketServer.Delete removes every account with the id. Under the invariant
  (unique ids) this is exactly the one dict entry `del` removes, as
  `Schema.RemoveAllOne` proves.
* The servicer's `Send` and `Flush` raise "not implemented" and `serve` only
  starts the gRPC runtime (part2/server.py:47-68). part2/client.py is an
  interactive prompt.
* unit_tests/test_grpc_server.py is not used as a description of the servicer:
  it builds the servicer with an argument and fields the code does not have, and
  expects a login refusal that part2/server.py:26-31 does not make.
* The "e" and "z" listings of server_tests/test_server.py:91-99 are not proved
  on the concrete five accounts. `Text.OccursChar`, `Schema.MatchingNone` and
  `SocketServerProofs.LetterWildcard` state what those listings rely on, in
  general.
