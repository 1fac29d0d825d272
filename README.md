# Redis node membership table, modelled in Dafny

The operator connects to each Redis server of a cluster and asks it for
`CLUSTER NODES`. The answer is the server's membership table: one line per
node it knows, of the form

    <id> <host>:<port>@<cluster-bus-port> <flag,flag,...> <master> <ping> <pong> <epoch> <link-state>

The server's own line carries the flag `myself`. On top of this table the
package `internal/redis` offers:

- `NewNodeAttributes`, which parses one line into an id, a host, a port and
  a list of flags;
- `HasFlag`, which tests whether a flag is one of the parsed flags;
- `GetSelfAttributes`, which returns the `myself` entry;
- `NewNode`, which opens a node and attaches those attributes to it;
- `GetFriends`, which returns every other entry as a node reachable at its
  advertised `host:port`;
- `MeetNode`, which sends `CLUSTER MEET <host> <port>` naming another node.

The model is pure: datatypes, functions and lemmas. Each operation is a
function of the server's reply, and the reply is an input. A node is a
value holding its address and its attributes; the client it keeps in the
package is not part of the model.

- `wrappers.dfy` (module `Wrappers`): `Option` and `Result`.
- `strings.dfy` (module `Strings`): `Split` and `Join` on a one-character
  separator, with Go's `strings.Split` semantics. A string with n separators
  splits into n + 1 pieces, and the empty string splits into one empty piece.
  The module also proves the lemmas the parser needs: split of a join, a
  trailing separator, and membership among the pieces.
- `redis.dfy` (module `Redis`):
  - line parsing (`ParseLine`, for `NewNodeAttributes`) and its printing
    inverse (`FormatLine`);
  - the table's entries, the self entry and the friends;
  - the reply-level operations `GetSelfAttributes`, `NewNode`,
    `GetMembershipTable`, `GetFriends` and `MeetNode`.
- `redis_test.dfy` (module `RedisTest`): the package's test tables and
  expectations, stated and proved as lemmas about the model, and two
  scenarios of the model's own (`EmptyTableHasNoFriends` and
  `ClientErrorPassedOn`: no test runs an empty table or a failing client).

Conventions of the model:

- A query's reply is an input. `Success(text)` is the table the server
  returned; `Failure(message)` is the error the client reported. A failed
  query becomes `Communication(message)`. A table without a `myself` entry
  becomes `NoSelfEntry` for GetSelfAttributes. GetMembershipTable and
  GetFriends refuse it too when it has entries, but a table with no entries
  at all gives them an empty list.
- A meet does not send anything. It returns the commands it would issue,
  with the outcome that the given reply produces. Any reply that is not an
  error, such as the server's `OK`, is success.
- The table is split on newlines, and every empty line is skipped. So the
  newline that ends the server's answer adds no entry.
- The address field is split on `:`. The host is the first piece. The port
  is the second piece, cut at `@`, so the cluster-bus port is dropped.
- The `myself` entry is the first entry whose parsed flags include
  `myself`. GetFriends is built on GetMembershipTable, and the friends are
  all entries without that flag, in table order. A friend is the node at
  `host:port` carrying the entry's attributes.

The implementation file `internal/redis/redis.go` is not part of this
model. The behaviour above follows the package's tests
(`internal/redis/redis_test.go`) and the documented contract of each
operation. Where the tests leave a choice open, the choice is listed under
"Left out".

## Model

| member | source | states |
|---|---|---|
| Strings.Split | internal/redis/redis_test.go:12-15 | the pieces between separators: at least one, none holding the separator, joining them gives the input back, exactly one piece iff the separator does not occur |
| Strings.SplitJoin | internal/redis/redis_test.go:12-15 | splitting a join of separator-free pieces gives those pieces back |
| Strings.SplitAppendSeparator | internal/redis/redis_test.go:36-39 | a separator at the very end adds exactly one empty piece and changes no other piece |
| Strings.JoinMembership | internal/redis/redis_test.go:22-25 | a token is among the pieces iff the token, delimited by the separator on both sides, occurs in the delimited join |
| Redis.ParseLine | internal/redis/redis_test.go:12-15 | for a line with an id, an address holding `:` and a flags field: the record is printable (no space in the id, host, port or any flag; no `:` in the host or port; no `@` in the port; at least one flag and none holding `,`), and the comma-join of the flags is the third field |
| Redis.ParseLineLocatesFields | internal/redis/redis_test.go:12-15 | the line starts with `<id> <host>:<port>`, and the port ends where the bus port (`@`), another `:` or the end of the address field begins |
| Redis.ParseFormatLine | internal/redis/redis_test.go:12-15 | a record printed in the table's format, with any bus port and trailing fields, parses back into exactly that record |
| Redis.ParseReprintedLine | internal/redis/redis_test.go:12-15 | every well-formed line, parsed, printed again with any bus port and trailing fields and parsed once more, gives the same record |
| Redis.HasFlagMatchesFlagsField | internal/redis/redis_test.go:22-25 | HasFlag holds for a flag iff `,flag,` occurs in `,<flags field>,`, i.e. it is whole-token membership and never a substring match |
| Redis.NonEmptyLines | internal/redis/redis_test.go:36-39 | a line is kept iff it is one of the input lines and is not empty, and nothing is added |
| Redis.Entries | internal/redis/redis_test.go:36-39 | every entry of a table is a non-empty single line |
| Redis.TrailingNewlineAddsNoEntry | internal/redis/redis_test.go:36-39 | a newline at the end of a table yields exactly the same entries as the table without it |
| Redis.EntriesOfLines | internal/redis/redis_test.go:62-65 | a table of non-empty lines, each ended by a newline, has exactly those lines, in order, as its entries |
| Redis.SelfEntry | internal/redis/redis_test.go:62-72 | none iff no entry is flagged `myself`; otherwise the first entry so flagged |
| Redis.FriendEntries | internal/redis/redis_test.go:87-103 | a record is a friend iff it is in the table and is not flagged `myself`, and there are no more friends than entries |
| Redis.NoSelfAllFriends | internal/redis/redis_test.go:87-103 | without a `myself` entry every entry, in order, is a friend |
| Redis.SelfAndFriendsPartitionTable | internal/redis/redis_test.go:62-103 | with exactly one `myself` entry, wherever it stands, that entry is the self entry and the friends are all the other entries in table order, one fewer than the entries |
| Redis.GetSelfAttributes | internal/redis/redis_test.go:66-72 | a client error becomes a communication error; on a table, the only possible error is `NoSelfEntry`, which happens iff no entry is flagged `myself`; otherwise the result is the first table entry flagged `myself` |
| Redis.NewNode | internal/redis/redis_test.go:31-47 | succeeds iff the self attributes are found; the node is at the requested address and carries exactly those attributes; the error is passed on otherwise |
| Redis.GetMembershipTable | internal/redis/redis_test.go:87-95 | the table GetFriends filters: a client error becomes a communication error; on a table, the only possible error is `NoSelfEntry`, iff the table has entries and none is flagged `myself`, and otherwise one parsed record per entry, in table order, self included |
| Redis.FriendNodesMembers | internal/redis/redis_test.go:96-99 | every node in the list is the friend node of its own attributes, and the friend node of a record is listed iff the record is |
| Redis.GetFriends | internal/redis/redis_test.go:92-103 | fails iff GetMembershipTable fails, with the same error; on success every node is the friend node of its attributes, and the friend node of a record is returned iff the record is in the membership table and not flagged `myself` |
| Redis.GetFriendsAroundSelf | internal/redis/redis_test.go:87-124 | with exactly one `myself` entry at position k, the self attributes are that entry, the membership table is the whole table, and the friends are the nodes of the other entries in order, one fewer than the entries (none for a table holding only the `myself` entry) |
| Redis.FriendsAroundSelf | internal/redis/redis_test.go:87-124 | with exactly one `myself` entry at position k, GetFriends returns the friend nodes of the table with entry k removed |
| Redis.MeetNode | internal/redis/redis_test.go:145-164 | exactly one command is issued, on the meeting node's connection, `cluster meet <other host> <other port>`; the meet fails iff the reply is an error, and then with that error as a communication error |
| Redis.MeetFriendTargetsPrintedAddress | internal/redis/redis_test.go:145-158 | meeting a friend taken from a table line sends exactly the host and port printed in that line, and the friend's address is that `host:port` |
| RedisTest.SampleLineParses | internal/redis/redis_test.go:12-25 | the test's sample line parses into id `9fd8…`, host `10.244.0.218`, port `6379`, and carries the flags `myself` and `master` |
| RedisTest.ThreeNodeTableRecords | internal/redis/redis_test.go:62-65 | the test's three-line table parses into the records of `335e…`, `9fd8…` and `8a99…`, in that order |
| RedisTest.ThreeNodeSelf | internal/redis/redis_test.go:62-72 | GetSelfAttributes on the three-line table returns the record of `9fd8…` |
| RedisTest.NewNodeAttachesSelf | internal/redis/redis_test.go:31-47 | NewNode at `localhost:6379` on the three-line table is the node at that address carrying the attributes of `9fd8…` |
| RedisTest.ThreeNodeFriends | internal/redis/redis_test.go:87-103 | GetFriends on the three-line table returns exactly the nodes of `335e…` and `8a99…`, in that order |
| RedisTest.LoneTableHasNoFriends | internal/redis/redis_test.go:115-124 | GetFriends on a table holding only the `myself` line returns an empty list, not an error |
| RedisTest.EmptyTableHasNoFriends | internal/redis/redis_test.go:118-124 | the model's own scenario beside the no-friends test: an answer with no entries, empty or a bare newline, gives an empty membership table and an empty friends list, not an error |
| RedisTest.ClientErrorPassedOn | internal/redis/redis_test.go:42-44 | the model's own scenario for the error path these lines guard: a client error reaches the caller of NewNode and GetFriends as a communication error |
| RedisTest.MeetIssuesClusterMeet | internal/redis/redis_test.go:138-164 | meeting `23456789` at `localhost:6379` over the connection to `localhost:6379` issues `cluster meet localhost 6379`, and the reply `OK` is success |

## Left out

- Redis.ParseLine: requires a well-formed line, with at least three fields
  and a `:` in the address field. The parse errors for malformed lines are
  not modelled.
- Redis.GetSelfAttributes, Redis.GetMembershipTable, Redis.GetFriends and
  Redis.NewNode: require every entry of a returned table to be well formed,
  for the same reason.
- Redis.GetSelfAttributes: picks the first `myself` entry when several
  entries carry the flag. A server reports exactly one, and the tests
  exercise no other case.
- Redis.GetFriends: drops every entry flagged `myself`, while
  GetSelfAttributes picks the first one; the two agree when the table has
  exactly one such entry, the only case the tests run.
- Redis.GetMembershipTable, Redis.GetFriends: refuse a non-empty table
  without a `myself` entry with `NoSelfEntry`, the failure GetSelfAttributes
  has, and give an empty list for a table with no entries at all, as a node
  that knows no peers has no friends. No test runs either table.
- Redis.Entries: skips every empty line, not only the one after the final
  newline. The tests only show the final one.
- Redis.FriendNode: reaches a friend at its advertised `host:port`. The
  tests check only the friends' ids.
- Redis.MeetNode: returns the command it would issue instead of sending it.
  The connection, the client, the request context and its deadline are not
  modelled. The server's reply is an input.
- Redis.NewNode: does not model opening the connection or the client
  builder. The node keeps only its address and attributes.
- Redis.FriendNode: does not model opening a connection to the friend.
- NodeAttributes keeps the id, host, port and flags of a line. The master
  id, ping and pong times, config epoch and link state are not kept.
- Flags are the ordered list of comma-separated tokens. `HasFlag` is
  membership in that list, so order and repetition, which a set would drop,
  do not affect any result.
- Membership-graph building, merging components and the convergence passes
  are not modelled. The same goes for the reconciler and its tests.
- The idempotence of a meet between nodes that already know each other is
  a property of the server. The model only states that any non-error reply
  is success.
- `internal/redis/redis.go` is not part of this model. Its behaviour is
  rebuilt from the tests and the operations' contracts.
