/**
 * The membership-table handling of the operator's Redis node wrapper.
 *
 * A Redis node reports its view of the cluster with `CLUSTER NODES`: one line
 * per known node, in the form
 *   <id> <host>:<port>@<cport> <flag,...> <master> <ping> <pong> <epoch> <link>
 * The line of the node that answers carries the flag `myself`. This module
 * parses such lines into attribute records, picks the node's own entry out of
 * a table, lists the other entries as the node's friends, and builds the
 * `CLUSTER MEET` command that introduces one node to another.
 *
 * The connection to the server is not modelled: a query's reply is passed in
 * as a value (`Success(text)` or `Failure(message)` from the client), and a
 * meet returns the command it issues instead of sending it.
 */
module Redis {
  import opened Wrappers
  import opened Strings

  /** What is kept of one membership line: identity, address and flags. */
  datatype NodeAttributes = NodeAttributes(id: string, host: string, port: string, flags: seq<string>)
  {
    /** Whether `flag` is one of the comma-separated flag tokens. */
    predicate HasFlag(flag: string)
    {
      flag in flags
    }
  }

  /** Why a node operation failed. */
  datatype Error =
    | Communication(message: string)  // the client reported an error for the query
    | NoSelfEntry                     // no line of the table is flagged `myself`

  /** The reply of the client to a query: the text, or the client's error message. */
  type Reply = Result<string, string>

  // ---------------------------------------------------------------------------
  // One membership line

  /** The space-separated fields of a line. */
  function Fields(line: string): seq<string>
  {
    Split(line, ' ')
  }

  /**
   * The lines the parser accepts without indexing past the end of a split:
   * at least three fields, the second holding a `:`.
   */
  predicate WellFormedLine(line: string)
  {
    var fields := Fields(line);
    |fields| >= 3 && ':' in fields[1]
  }

  /**
   * NewNodeAttributes: the id is the first field, the host and port come from
   * the second field split on `:` and then on `@` (the cluster-bus port is
   * dropped), and the flags are the third field split on `,`.
   */
  function ParseLine(line: string): (a: NodeAttributes)
    requires WellFormedLine(line)
    ensures PrintableAttributes(a)
    ensures Join(a.flags, ',') == Fields(line)[2]
  {
    var fields := Fields(line);
    var address := Split(fields[1], ':');
    PieceExcludes(fields[1], ':', ' ');
    PieceExcludes(address[1], '@', ' ');
    PieceExcludes(fields[2], ',', ' ');
    NodeAttributes(fields[0], address[0], Split(address[1], '@')[0], Split(fields[2], ','))
  }

  /** A line starts with its first two fields, each followed by a space. */
  lemma {:induction false} LineStartsWithFields(line: string)
    requires |Fields(line)| >= 3
    ensures var fields := Fields(line);
      line == fields[0] + " " + fields[1] + " " + Join(fields[2..], ' ')
  {
    var fields := Fields(line);
    assert fields[1..][0] == fields[1] && fields[1..][1..] == fields[2..];
  }

  /**
   * The host and port of an address field: `<host>:<port>` starts the field,
   * and what follows the port is empty or starts with `@` or another `:`.
   */
  lemma {:induction false} AddressLayout(address: string) returns (rest: string)
    requires ':' in address
    ensures var pieces := Split(address, ':');
      var host, port := pieces[0], Split(pieces[1], '@')[0];
      address == host + ":" + port + rest && (rest == [] || rest[0] in {'@', ':'})
  {
    var pieces := Split(address, ':');
    var host, port := pieces[0], Split(pieces[1], '@')[0];
    var r1 := SecondPiece(address, ':');
    var r2 := FirstPiece(pieces[1], '@');
    rest := r2 + r1;
    Regroup(host + ":", port, r2, r1);
  }

  /**
   * Where the parsed values sit in the line: the line starts with
   * `<id> <host>:<port>`, and the port ends where the bus port (`@`), another
   * `:` or the end of the address field begins.
   */
  lemma {:induction false} ParseLineLocatesFields(line: string)
    requires WellFormedLine(line)
    ensures var a := ParseLine(line);
      var n := |a.id| + |a.host| + |a.port| + 2;
      a.id + " " + a.host + ":" + a.port <= line &&
      n < |line| && line[n] in {'@', ':', ' '}
  {
    var fields := Fields(line);
    var f0, f1, later := fields[0], fields[1], " " + Join(fields[2..], ' ');
    LineStartsWithFields(line);
    var r := AddressLayout(f1);
    var a := ParseLine(line);
    var p := a.host + ":" + a.port;
    assert line == (f0 + " ") + (p + r + later) by {
      Reassociate(f0 + " " + f1, " ", Join(fields[2..], ' '));
      Reassociate(f0 + " ", f1, later);
    }
    PrefixThenNext(f0 + " ", p, r, later);
    Reassociate(f0 + " ", a.host + ":", a.port);
    Reassociate(f0 + " ", a.host, ":");
  }

  /** The tokens of a record that a membership line can carry unambiguously. */
  predicate PrintableAttributes(a: NodeAttributes)
  {
    && ' ' !in a.id
    && ' ' !in a.host && ':' !in a.host
    && ' ' !in a.port && ':' !in a.port && '@' !in a.port
    && |a.flags| >= 1
    && forall k :: 0 <= k < |a.flags| ==> ' ' !in a.flags[k] && ',' !in a.flags[k]
  }

  /** The address field of a printed line: `<host>:<port>@<bus port>`. */
  function FormatAddress(a: NodeAttributes, busPort: string): string
  {
    a.host + ":" + (a.port + "@" + busPort)
  }

  /**
   * A membership line as the server prints it, for a record, its cluster-bus
   * port and the remaining fields (`tail`, empty or starting with a space).
   */
  function FormatLine(a: NodeAttributes, busPort: string, tail: string): string
  {
    a.id + " " + FormatAddress(a, busPort) + " " + Join(a.flags, ',') + tail
  }

  /** The fields of a printed line: id, address field, flags field. */
  lemma {:induction false} FieldsOfPrinted(a: NodeAttributes, busPort: string, tail: string)
    requires PrintableAttributes(a)
    requires ' ' !in busPort
    requires tail == "" || tail[0] == ' '
    ensures var fields := Fields(FormatLine(a, busPort, tail));
      |fields| >= 3 && fields[0] == a.id && fields[1] == FormatAddress(a, busPort) &&
      fields[2] == Join(a.flags, ',')
  {
    JoinExcludes(a.flags, ',', ' ');
    FirstThreePieces(a.id, FormatAddress(a, busPort), Join(a.flags, ','), tail, ' ');
  }

  /** The host and port of a printed address field. */
  lemma {:induction false} HostPortOfPrinted(a: NodeAttributes, busPort: string)
    requires PrintableAttributes(a)
    requires ':' !in busPort
    ensures var pieces := Split(FormatAddress(a, busPort), ':');
      |pieces| >= 2 && pieces[0] == a.host && Split(pieces[1], '@')[0] == a.port
  {
    var after := a.port + "@" + busPort;
    assert ':' !in after;
    TwoPieces(a.host, after, ':');
    Reassociate(a.port, "@", busPort);
    HeadPiece(a.port, "@" + busPort, '@');
  }

  /** Parsing a printed line gives the record back (the bus port and the tail are dropped). */
  lemma {:induction false} ParseFormatLine(a: NodeAttributes, busPort: string, tail: string)
    requires PrintableAttributes(a)
    requires ' ' !in busPort && ':' !in busPort
    requires tail == "" || tail[0] == ' '
    ensures WellFormedLine(FormatLine(a, busPort, tail))
    ensures ParseLine(FormatLine(a, busPort, tail)) == a
  {
    FieldsOfPrinted(a, busPort, tail);
    HostPortOfPrinted(a, busPort);
    SplitJoin(a.flags, ',');
  }

  /**
   * Parsing is stable under printing: a parsed line, printed again with any
   * bus port and trailing fields, parses into the same record.
   */
  lemma {:induction false} ParseReprintedLine(line: string, busPort: string, tail: string)
    requires WellFormedLine(line)
    requires ' ' !in busPort && ':' !in busPort
    requires tail == "" || tail[0] == ' '
    ensures WellFormedLine(FormatLine(ParseLine(line), busPort, tail))
    ensures ParseLine(FormatLine(ParseLine(line), busPort, tail)) == ParseLine(line)
  {
    ParseFormatLine(ParseLine(line), busPort, tail);
  }

  /**
   * HasFlag on a parsed line is a test on the raw flags field: `flag` is a
   * flag of the line exactly when `,flag,` occurs in `,<flags field>,`.
   */
  lemma {:induction false} HasFlagMatchesFlagsField(line: string, flag: string)
    requires WellFormedLine(line)
    requires ',' !in flag
    ensures ParseLine(line).HasFlag(flag) <==> IsInfix("," + flag + ",", "," + Fields(line)[2] + ",")
  {
    JoinMembership(ParseLine(line).flags, ',', flag);
  }

  // ---------------------------------------------------------------------------
  // The membership table

  /** The non-empty lines, in order. */
  function NonEmptyLines(lines: seq<string>): (r: seq<string>)
    ensures |r| <= |lines|
    ensures forall line :: line in r <==> line in lines && line != ""
  {
    if |lines| == 0 then []
    else
      assert lines == [lines[0]] + lines[1..];
      if lines[0] == "" then NonEmptyLines(lines[1..])
      else [lines[0]] + NonEmptyLines(lines[1..])
  }

  lemma {:induction false} NonEmptyLinesConcat(xs: seq<string>, ys: seq<string>)
    ensures NonEmptyLines(xs + ys) == NonEmptyLines(xs) + NonEmptyLines(ys)
    decreases |xs|
  {
    if |xs| == 0 {
      assert xs + ys == ys;
    } else {
      assert (xs + ys)[0] == xs[0] && (xs + ys)[1..] == xs[1..] + ys;
      NonEmptyLinesConcat(xs[1..], ys);
      if xs[0] != "" {
        Reassociate([xs[0]], NonEmptyLines(xs[1..]), NonEmptyLines(ys));
      }
    }
  }

  lemma {:induction false} NonEmptyLinesKeepsAll(lines: seq<string>)
    requires forall i :: 0 <= i < |lines| ==> lines[i] != ""
    ensures NonEmptyLines(lines) == lines
    decreases |lines|
  {
    if |lines| > 0 {
      NonEmptyLinesKeepsAll(lines[1..]);
    }
  }

  /** The entries of a table: its newline-separated lines, empty lines skipped. */
  function Entries(table: string): (es: seq<string>)
    ensures forall i :: 0 <= i < |es| ==> es[i] != "" && '\n' !in es[i]
  {
    var lines := Split(table, '\n');
    assert forall line :: line in lines ==> '\n' !in line;
    var es := NonEmptyLines(lines);
    assert forall i :: 0 <= i < |es| ==> es[i] in es;
    es
  }

  /** A newline at the end of the table yields no extra entry. */
  lemma {:induction false} TrailingNewlineAddsNoEntry(table: string)
    ensures Entries(table + "\n") == Entries(table)
  {
    SplitAppendSeparator(table, '\n');
    NonEmptyLinesConcat(Split(table, '\n'), [""]);
  }

  /** A table of non-empty lines, each ended by a newline, has exactly those lines as entries. */
  lemma {:induction false} EntriesOfLines(lines: seq<string>)
    requires |lines| >= 1
    requires forall i :: 0 <= i < |lines| ==> lines[i] != "" && '\n' !in lines[i]
    ensures Entries(Join(lines, '\n') + "\n") == lines
  {
    TrailingNewlineAddsNoEntry(Join(lines, '\n'));
    SplitJoin(lines, '\n');
    NonEmptyLinesKeepsAll(lines);
  }

  predicate AllWellFormed(es: seq<string>)
  {
    forall i :: 0 <= i < |es| ==> WellFormedLine(es[i])
  }

  /** The table parses: every entry is a well-formed line. */
  predicate WellFormedTable(table: string)
  {
    AllWellFormed(Entries(table))
  }

  /** Every entry parsed, in order. */
  function ParseAll(es: seq<string>): (r: seq<NodeAttributes>)
    requires AllWellFormed(es)
    ensures |r| == |es| && forall i :: 0 <= i < |es| ==> r[i] == ParseLine(es[i])
  {
    seq(|es|, i requires 0 <= i < |es| => ParseLine(es[i]))
  }

  /** The parsed membership table: one record per entry, self included, in table order. */
  function MembershipTable(table: string): (r: seq<NodeAttributes>)
    requires WellFormedTable(table)
  {
    ParseAll(Entries(table))
  }

  /** The entry of the answering node itself. */
  predicate IsSelf(a: NodeAttributes)
  {
    a.HasFlag("myself")
  }

  /** The first `myself` entry, if any. */
  function SelfEntry(nodes: seq<NodeAttributes>): (r: Option<NodeAttributes>)
    ensures r.None? <==> forall i :: 0 <= i < |nodes| ==> !IsSelf(nodes[i])
    ensures r.Some? ==>
      exists i :: 0 <= i < |nodes| && nodes[i] == r.value && IsSelf(nodes[i]) &&
        forall j :: 0 <= j < i ==> !IsSelf(nodes[j])
  {
    if |nodes| == 0 then None
    else if IsSelf(nodes[0]) then Some(nodes[0])
    else
      var r := SelfEntry(nodes[1..]);
      assert forall i :: 1 <= i < |nodes| ==> nodes[i] == nodes[1..][i - 1];
      r
  }

  /** Every entry that is not `myself`, in table order. */
  function FriendEntries(nodes: seq<NodeAttributes>): (fs: seq<NodeAttributes>)
    ensures |fs| <= |nodes|
    ensures forall a {:trigger a in fs} :: a in fs <==> a in nodes && !IsSelf(a)
  {
    if |nodes| == 0 then []
    else
      var rest := FriendEntries(nodes[1..]);
      assert nodes == [nodes[0]] + nodes[1..];
      if IsSelf(nodes[0]) then rest else [nodes[0]] + rest
  }

  /** Exactly one entry, the one at index `k`, is `myself`. */
  predicate OnlySelfAt(nodes: seq<NodeAttributes>, k: nat)
  {
    k < |nodes| && IsSelf(nodes[k]) && forall j :: 0 <= j < |nodes| && j != k ==> !IsSelf(nodes[j])
  }

  /** Without a `myself` entry every entry is a friend. */
  lemma {:induction false} NoSelfAllFriends(nodes: seq<NodeAttributes>)
    requires forall i :: 0 <= i < |nodes| ==> !IsSelf(nodes[i])
    ensures FriendEntries(nodes) == nodes
    decreases |nodes|
  {
    if |nodes| > 0 {
      NoSelfAllFriends(nodes[1..]);
      assert nodes == [nodes[0]] + nodes[1..];
    }
  }

  /**
   * With exactly one `myself` entry, wherever it stands, that entry is the
   * node's own and the friends are all the other entries, in order.
   */
  lemma {:induction false} SelfAndFriendsPartitionTable(nodes: seq<NodeAttributes>, k: nat)
    requires OnlySelfAt(nodes, k)
    ensures SelfEntry(nodes) == Some(nodes[k])
    ensures FriendEntries(nodes) == nodes[..k] + nodes[k + 1..]
    ensures |FriendEntries(nodes)| == |nodes| - 1
    decreases |nodes|
  {
    var tail := nodes[1..];
    if k == 0 {
      assert forall j :: 0 <= j < |tail| ==> tail[j] == nodes[j + 1];
      NoSelfAllFriends(tail);
    } else {
      assert forall j :: 0 <= j < |tail| ==> tail[j] == nodes[j + 1];
      assert OnlySelfAt(tail, k - 1);
      SelfAndFriendsPartitionTable(tail, k - 1);
      assert tail[..k - 1] == nodes[1..k] && tail[k..] == nodes[k + 1..];
      assert nodes[..k] == [nodes[0]] + nodes[1..k];
      assert !IsSelf(nodes[0]);
      assert SelfEntry(nodes) == SelfEntry(tail);
      assert FriendEntries(nodes) == [nodes[0]] + FriendEntries(tail);
      Reassociate([nodes[0]], nodes[1..k], nodes[k + 1..]);
    }
  }

  // ---------------------------------------------------------------------------
  // Nodes

  /** A node: the address its connection is opened to, and its own attributes. */
  datatype Node = Node(addr: string, attributes: NodeAttributes)

  /** GetSelfAttributes: the `myself` entry of the queried table. */
  function GetSelfAttributes(reply: Reply): (r: Result<NodeAttributes, Error>)
    requires reply.Success? ==> WellFormedTable(reply.value)
    ensures reply.Failure? ==> r == Failure(Communication(reply.error))
    ensures reply.Success? ==>
      var nodes := MembershipTable(reply.value);
      && (r.Success? || r == Failure(NoSelfEntry))
      && (r == Failure(NoSelfEntry) <==> forall i :: 0 <= i < |nodes| ==> !IsSelf(nodes[i]))
      && (r.Success? ==>
            exists i :: 0 <= i < |nodes| && nodes[i] == r.value && IsSelf(nodes[i]) &&
              forall j :: 0 <= j < i ==> !IsSelf(nodes[j]))
  {
    match reply
    case Failure(message) => Failure(Communication(message))
    case Success(table) =>
      match SelfEntry(MembershipTable(table))
      case None => Failure(NoSelfEntry)
      case Some(a) => Success(a)
  }

  /** NewNode: a node at `addr` carrying the attributes of the `myself` entry its table reports. */
  function NewNode(addr: string, reply: Reply): (r: Result<Node, Error>)
    requires reply.Success? ==> WellFormedTable(reply.value)
    ensures r.Success? <==> GetSelfAttributes(reply).Success?
    ensures r.Success? ==> r.value.addr == addr && r.value.attributes == GetSelfAttributes(reply).value
    ensures r.Failure? ==> r.error == GetSelfAttributes(reply).error
  {
    match GetSelfAttributes(reply)
    case Failure(e) => Failure(e)
    case Success(a) => Success(Node(addr, a))
  }

  /**
   * GetMembershipTable: every entry of the queried table parsed, in table
   * order, the `myself` entry included. It fails as GetSelfAttributes does,
   * except on a table with no entries at all: a non-empty table without a
   * `myself` entry is refused, and an empty table is the empty list.
   */
  function GetMembershipTable(reply: Reply): (r: Result<seq<NodeAttributes>, Error>)
    requires reply.Success? ==> WellFormedTable(reply.value)
    ensures reply.Failure? ==> r == Failure(Communication(reply.error))
    ensures reply.Success? ==>
      var es, nodes := Entries(reply.value), MembershipTable(reply.value);
      && (r.Success? || r == Failure(NoSelfEntry))
      && (r == Failure(NoSelfEntry) <==> |nodes| > 0 && forall i :: 0 <= i < |nodes| ==> !IsSelf(nodes[i]))
      && (r.Success? ==> |r.value| == |es| && forall i :: 0 <= i < |es| ==> r.value[i] == ParseLine(es[i]))
  {
    match reply
    case Failure(message) => Failure(Communication(message))
    case Success(table) =>
      var nodes := MembershipTable(table);
      if |nodes| > 0 && SelfEntry(nodes).None? then Failure(NoSelfEntry) else Success(nodes)
  }

  /** A friend is reached at the host and port its entry advertises. */
  function FriendNode(a: NodeAttributes): (n: Node)
    ensures n.attributes == a && n.addr == a.host + ":" + a.port
  {
    Node(a.host + ":" + a.port, a)
  }

  /** A node for each record, in order. */
  function FriendNodes(fs: seq<NodeAttributes>): (r: seq<Node>)
    ensures |r| == |fs| && forall k :: 0 <= k < |fs| ==> r[k] == FriendNode(fs[k])
  {
    seq(|fs|, k requires 0 <= k < |fs| => FriendNode(fs[k]))
  }

  lemma {:induction false} FriendNodesMembers(fs: seq<NodeAttributes>)
    ensures forall n :: n in FriendNodes(fs) ==> n == FriendNode(n.attributes)
    ensures forall a :: FriendNode(a) in FriendNodes(fs) <==> a in fs
  {
    var r := FriendNodes(fs);
    forall a ensures FriendNode(a) in r <==> a in fs {
      if a in fs {
        var k :| 0 <= k < |fs| && fs[k] == a;
        assert r[k] == FriendNode(a);
      }
    }
  }

  /**
   * GetFriends: built on GetMembershipTable, a node for every entry of the
   * queried table that is not `myself`; it fails exactly when the table does.
   */
  function GetFriends(reply: Reply): (r: Result<seq<Node>, Error>)
    requires reply.Success? ==> WellFormedTable(reply.value)
    ensures var t := GetMembershipTable(reply);
      && (r.Failure? <==> t.Failure?)
      && (r.Failure? ==> r.error == t.error)
      && (r.Success? ==>
            && (forall n :: n in r.value ==> n == FriendNode(n.attributes))
            && (forall a :: FriendNode(a) in r.value <==> a in t.value && !IsSelf(a)))
  {
    match GetMembershipTable(reply)
    case Failure(e) => Failure(e)
    case Success(nodes) =>
      var fs := FriendEntries(nodes);
      FriendNodesMembers(fs);
      Success(FriendNodes(fs))
  }

  /**
   * GetFriends lists the nodes of the entries other than the single `myself`
   * one, in table order, wherever that entry stands; in particular a table
   * holding only the `myself` entry has no friends.
   */
  lemma {:induction false} GetFriendsAroundSelf(table: string, k: nat)
    requires WellFormedTable(table)
    requires OnlySelfAt(MembershipTable(table), k)
    ensures var nodes := MembershipTable(table);
      && GetSelfAttributes(Success(table)) == Success(nodes[k])
      && GetMembershipTable(Success(table)) == Success(nodes)
      && GetFriends(Success(table)).Success?
      && |GetFriends(Success(table)).value| == |nodes| - 1
      && forall j :: 0 <= j < |nodes| - 1 ==>
           GetFriends(Success(table)).value[j] == FriendNode(if j < k then nodes[j] else nodes[j + 1])
  {
    var nodes := MembershipTable(table);
    SelfAndFriendsPartitionTable(nodes, k);
    FriendsSkipSelf(nodes, k);
    assert GetFriends(Success(table)) == Success(FriendNodes(FriendEntries(nodes)));
  }

  /** The friends around the single `myself` entry, as one list. */
  lemma {:induction false} FriendsAroundSelf(table: string, k: nat)
    requires WellFormedTable(table)
    requires OnlySelfAt(MembershipTable(table), k)
    ensures var nodes := MembershipTable(table);
      GetFriends(Success(table)) == Success(FriendNodes(nodes[..k] + nodes[k + 1..]))
  {
    var nodes := MembershipTable(table);
    SelfAndFriendsPartitionTable(nodes, k);
    assert GetMembershipTable(Success(table)) == Success(nodes);
  }

  lemma {:induction false} FriendsSkipSelf(nodes: seq<NodeAttributes>, k: nat)
    requires k < |nodes|
    requires FriendEntries(nodes) == nodes[..k] + nodes[k + 1..]
    ensures forall j :: 0 <= j < |nodes| - 1 ==>
      FriendEntries(nodes)[j] == if j < k then nodes[j] else nodes[j + 1]
  {
    SkipAt(nodes, k);
  }

  lemma {:induction false} SkipAt<T>(s: seq<T>, k: nat)
    requires k < |s|
    ensures |s[..k] + s[k + 1..]| == |s| - 1
    ensures forall j :: 0 <= j < |s| - 1 ==> (s[..k] + s[k + 1..])[j] == if j < k then s[j] else s[j + 1]
  {
  }

  // ---------------------------------------------------------------------------
  // Meet

  /** The `CLUSTER MEET <host> <port>` command. */
  datatype Command = ClusterMeet(host: string, port: string)
  {
    /** The command's words as the client sends them. */
    function Args(): seq<string>
    {
      ["cluster", "meet", host, port]
    }
  }

  /** The address of the connection a meet goes over, the commands it issues, and its outcome. */
  datatype MeetOutcome = MeetOutcome(via: string, issued: seq<Command>, failure: Option<Error>)

  /**
   * MeetNode: one `CLUSTER MEET` naming the other node's host and port is
   * issued on this node's connection; any reply that is not an error (the
   * server answers "OK") is success.
   */
  function MeetNode(node: Node, other: Node, reply: Reply): (o: MeetOutcome)
    ensures o.via == node.addr
    ensures |o.issued| == 1
    ensures o.issued[0].Args() == ["cluster", "meet", other.attributes.host, other.attributes.port]
    ensures o.failure.None? <==> reply.Success?
    ensures reply.Failure? ==> o.failure == Some(Communication(reply.error))
  {
    var command := ClusterMeet(other.attributes.host, other.attributes.port);
    match reply
    case Success(_) => MeetOutcome(node.addr, [command], None)
    case Failure(message) => MeetOutcome(node.addr, [command], Some(Communication(message)))
  }

  /**
   * Meeting a friend found in a table sends the host and port printed in
   * that friend's line, whichever node issues it.
   */
  lemma {:induction false} MeetFriendTargetsPrintedAddress(node: Node, a: NodeAttributes, busPort: string, tail: string, reply: Reply)
    requires PrintableAttributes(a)
    requires ' ' !in busPort && ':' !in busPort
    requires tail == "" || tail[0] == ' '
    ensures WellFormedLine(FormatLine(a, busPort, tail))
    ensures var friend := FriendNode(ParseLine(FormatLine(a, busPort, tail)));
      MeetNode(node, friend, reply).issued == [ClusterMeet(a.host, a.port)] &&
      friend.addr == a.host + ":" + a.port
  {
    ParseFormatLine(a, busPort, tail);
  }
}
