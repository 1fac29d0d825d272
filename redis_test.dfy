/**
 * The membership tables and meet of the package's own tests, stated as
 * lemmas about the model: the sample line parses into its id, host, port and
 * flags; a three-entry table whose second entry is `myself` yields that entry
 * and its two neighbours as friends; a table holding only the `myself` entry
 * yields no friends; and meeting a node issues one `CLUSTER MEET`.
 */
module RedisTest {
  import opened Wrappers
  import opened Strings
  import opened Redis

  const Id9fd8 := "9fd8800b31d569538917c0aaeaa5588e2f9c6edf"
  const Id335e := "335e5ceff013eeebdbdb71bb65b4c1aeaf6a06f5"
  const Id8a99 := "8a99a71a38d099de6862284f5aab9329d796c34f"

  // Each line is the test's literal text, written field by field.
  const SelfLine := Id9fd8 + " " + ("10.244.0.218" + ":" + ("6379" + "@" + "16379")) + " " + ("myself" + "," + "master") + SelfTail
  const Line335e := Id335e + " " + ("10.244.0.156" + ":" + ("6379" + "@" + "16379")) + " " + "master" + Tail335e
  const Line8a99 := Id8a99 + " " + ("10.244.0.160" + ":" + ("6379" + "@" + "16379")) + " " + "master" + Tail8a99
  const LoneSelfLine := Id335e + " " + ("10.244.0.156" + ":" + ("6379" + "@" + "16379")) + " " + ("myself" + "," + "master") + Tail335e

  const SelfTail := " - 0 1652373716000 0 connected"
  const Tail335e := " - 0 1652373719041 2 connected"
  const Tail8a99 := " - 0 1652373718026 1 connected"

  /** The table of the NewNode, GetSelfAttributes and GetFriends tests. */
  const ThreeNodeTable := Line335e + "\n" + SelfLine + "\n" + Line8a99 + "\n"

  /** The table of the test in which the node has no friends. */
  const LoneTable := LoneSelfLine + "\n"

  const Attrs9fd8 := NodeAttributes(Id9fd8, "10.244.0.218", "6379", ["myself", "master"])
  const Attrs335e := NodeAttributes(Id335e, "10.244.0.156", "6379", ["master"])
  const Attrs8a99 := NodeAttributes(Id8a99, "10.244.0.160", "6379", ["master"])
  const LoneAttrs := NodeAttributes(Id335e, "10.244.0.156", "6379", ["myself", "master"])

  /** `line` is a well-formed, non-empty, single line that parses into `a`. */
  predicate ParsesTo(line: string, a: NodeAttributes)
  {
    line != "" && '\n' !in line && WellFormedLine(line) && ParseLine(line) == a
  }

  /** A record that prints into a line, with no newline in any of its fields. */
  predicate PlainRecord(a: NodeAttributes)
  {
    && PrintableAttributes(a)
    && '\n' !in a.id && '\n' !in a.host && '\n' !in a.port
    && forall k :: 0 <= k < |a.flags| ==> '\n' !in a.flags[k]
  }

  /** A bus port and a tail that may follow a printed record on its line. */
  predicate PlainSuffix(busPort: string, tail: string)
  {
    ' ' !in busPort && ':' !in busPort && '\n' !in busPort &&
    (tail == "" || tail[0] == ' ') && '\n' !in tail
  }

  /** A plain record printed with a plain bus port and tail is a single line that parses back into it. */
  lemma {:induction false} PrintedLineParses(a: NodeAttributes, busPort: string, tail: string)
    requires PlainRecord(a) && PlainSuffix(busPort, tail)
    ensures ParsesTo(FormatLine(a, busPort, tail), a)
  {
    JoinExcludes(a.flags, ',', '\n');
    ParseFormatLine(a, busPort, tail);
  }

  /** The ids hold neither a space nor a newline. */
  lemma Id9fd8Plain()
    ensures ' ' !in Id9fd8 && '\n' !in Id9fd8
  {
  }

  lemma Id335ePlain()
    ensures ' ' !in Id335e && '\n' !in Id335e
  {
  }

  lemma Id8a99Plain()
    ensures ' ' !in Id8a99 && '\n' !in Id8a99
  {
  }

  /** The records of the tests print into lines. */
  lemma Attrs9fd8Plain()
    ensures PlainRecord(Attrs9fd8)
  {
    Id9fd8Plain();
  }

  lemma Attrs335ePlain()
    ensures PlainRecord(Attrs335e)
  {
    Id335ePlain();
  }

  lemma LoneAttrsPlain()
    ensures PlainRecord(LoneAttrs)
  {
    Id335ePlain();
  }

  lemma Attrs8a99Plain()
    ensures PlainRecord(Attrs8a99)
  {
    Id8a99Plain();
  }

  lemma SuffixesPlain()
    ensures PlainSuffix("16379", SelfTail) && PlainSuffix("16379", Tail335e) && PlainSuffix("16379", Tail8a99)
  {
  }

  /** Each line of the tests is its record printed in the table's format, with bus port 16379. */
  lemma SelfLinePrinted()
    ensures SelfLine == FormatLine(Attrs9fd8, "16379", SelfTail)
  {
  }

  lemma Line335ePrinted()
    ensures Line335e == FormatLine(Attrs335e, "16379", Tail335e)
  {
  }

  lemma Line8a99Printed()
    ensures Line8a99 == FormatLine(Attrs8a99, "16379", Tail8a99)
  {
  }

  lemma LoneSelfLinePrinted()
    ensures LoneSelfLine == FormatLine(LoneAttrs, "16379", Tail335e)
  {
  }

  lemma SelfLineParses()
    ensures ParsesTo(SelfLine, Attrs9fd8)
  {
    Attrs9fd8Plain();
    SuffixesPlain();
    SelfLinePrinted();
    PrintedLineParses(Attrs9fd8, "16379", SelfTail);
  }

  lemma Line335eParses()
    ensures ParsesTo(Line335e, Attrs335e)
  {
    Attrs335ePlain();
    SuffixesPlain();
    Line335ePrinted();
    PrintedLineParses(Attrs335e, "16379", Tail335e);
  }

  lemma Line8a99Parses()
    ensures ParsesTo(Line8a99, Attrs8a99)
  {
    Attrs8a99Plain();
    SuffixesPlain();
    Line8a99Printed();
    PrintedLineParses(Attrs8a99, "16379", Tail8a99);
  }

  lemma LoneSelfLineParses()
    ensures ParsesTo(LoneSelfLine, LoneAttrs)
  {
    LoneAttrsPlain();
    SuffixesPlain();
    LoneSelfLinePrinted();
    PrintedLineParses(LoneAttrs, "16379", Tail335e);
  }

  /** The sample line parses into its id, host and port, and carries the flags `myself` and `master`. */
  lemma SampleLineParses()
    ensures WellFormedLine(SelfLine)
    ensures var a := ParseLine(SelfLine);
      a.id == Id9fd8 && a.host == "10.244.0.218" && a.port == "6379" &&
      a.HasFlag("myself") && a.HasFlag("master")
  {
    SelfLineParses();
  }

  lemma {:induction false} JoinThree(x: string, y: string, z: string, c: char)
    ensures Join([x, y, z], c) + [c] == x + [c] + y + [c] + z + [c]
  {
    assert [x, y, z][1..] == [y, z] && [y, z][1..] == [z];
    assert Join([y, z], c) == y + [c] + z;
    assert Join([x, y, z], c) == x + [c] + (y + [c] + z);
    Reassociate(x + [c], y + [c], z);
    Reassociate(x + [c], y, [c]);
  }

  /** One well-formed line parses into its record. */
  lemma {:induction false} OneRecord(x: string, rx: NodeAttributes)
    requires ParsesTo(x, rx)
    ensures AllWellFormed([x]) && ParseAll([x]) == [rx]
  {
    var es := [x];
    assert es[0] == x;
    assert ParseAll(es)[0] == rx;
  }

  /** Parsing entry by entry distributes over concatenation. */
  lemma {:induction false} ParseAllConcat(a: seq<string>, b: seq<string>)
    requires AllWellFormed(a) && AllWellFormed(b)
    ensures AllWellFormed(a + b) && ParseAll(a + b) == ParseAll(a) + ParseAll(b)
  {
    assert forall i :: 0 <= i < |a + b| ==> (a + b)[i] == if i < |a| then a[i] else b[i - |a|];
  }

  /** Three lines parse, in order, into the three records they parse into one by one. */
  lemma {:induction false} ThreeRecords(x: string, y: string, z: string, rx: NodeAttributes, ry: NodeAttributes, rz: NodeAttributes)
    requires AllWellFormed([x]) && ParseAll([x]) == [rx]
    requires AllWellFormed([y]) && ParseAll([y]) == [ry]
    requires AllWellFormed([z]) && ParseAll([z]) == [rz]
    ensures AllWellFormed([x, y, z]) && ParseAll([x, y, z]) == [rx, ry, rz]
  {
    ParseAllConcat([x], [y]);
    assert [x] + [y] == [x, y];
    assert ParseAll([x, y]) == [rx] + [ry] == [rx, ry];
    ParseAllConcat([x, y], [z]);
    assert [x, y] + [z] == [x, y, z];
    assert ParseAll([x, y, z]) == [rx, ry] + [rz] == [rx, ry, rz];
  }

  /** Three non-empty lines, each ended by a newline, are the three entries of that table. */
  lemma {:induction false} ThreeLineEntries(x: string, y: string, z: string)
    requires x != "" && '\n' !in x && y != "" && '\n' !in y && z != "" && '\n' !in z
    ensures Entries(x + "\n" + y + "\n" + z + "\n") == [x, y, z]
  {
    JoinThree(x, y, z, '\n');
    EntriesOfLines([x, y, z]);
  }

  /** Three lines, each ended by a newline, parse into their three records. */
  lemma {:induction false} ThreeLineRecords(x: string, y: string, z: string, rx: NodeAttributes, ry: NodeAttributes, rz: NodeAttributes)
    requires ParsesTo(x, rx) && ParsesTo(y, ry) && ParsesTo(z, rz)
    ensures WellFormedTable(x + "\n" + y + "\n" + z + "\n")
    ensures MembershipTable(x + "\n" + y + "\n" + z + "\n") == [rx, ry, rz]
  {
    ThreeLineEntries(x, y, z);
    OneRecord(x, rx);
    OneRecord(y, ry);
    OneRecord(z, rz);
    ThreeRecords(x, y, z, rx, ry, rz);
  }

  /** One line ended by a newline parses into its record. */
  lemma {:induction false} OneLineRecords(x: string, rx: NodeAttributes)
    requires ParsesTo(x, rx)
    ensures WellFormedTable(x + "\n") && MembershipTable(x + "\n") == [rx]
  {
    EntriesOfLines([x]);
    OneRecord(x, rx);
  }

  /** Three records of which the middle one alone is flagged `myself`: that record is the node's own. */
  lemma {:induction false} SelfOfMiddle(table: string, rx: NodeAttributes, ry: NodeAttributes, rz: NodeAttributes)
    requires WellFormedTable(table) && MembershipTable(table) == [rx, ry, rz]
    requires !IsSelf(rx) && IsSelf(ry) && !IsSelf(rz)
    ensures GetSelfAttributes(Success(table)) == Success(ry)
  {
    var nodes := MembershipTable(table);
    OnlyMiddleSelf(nodes, rx, ry, rz);
    SelfAndFriendsPartitionTable(nodes, 1);
  }

  /** Three records of which the middle one alone is flagged `myself`: the outer two are its friends, in order. */
  lemma {:induction false} FriendsOfMiddle(table: string, rx: NodeAttributes, ry: NodeAttributes, rz: NodeAttributes)
    requires WellFormedTable(table) && MembershipTable(table) == [rx, ry, rz]
    requires !IsSelf(rx) && IsSelf(ry) && !IsSelf(rz)
    ensures GetFriends(Success(table)) == Success([FriendNode(rx), FriendNode(rz)])
  {
    var nodes := MembershipTable(table);
    OnlyMiddleSelf(nodes, rx, ry, rz);
    FriendsAroundSelf(table, 1);
    DropMiddle(nodes, rx, ry, rz);
    FriendNodesOfTwo(rx, rz);
  }

  lemma {:induction false} OnlyMiddleSelf(nodes: seq<NodeAttributes>, rx: NodeAttributes, ry: NodeAttributes, rz: NodeAttributes)
    requires nodes == [rx, ry, rz]
    requires !IsSelf(rx) && IsSelf(ry) && !IsSelf(rz)
    ensures OnlySelfAt(nodes, 1)
  {
    assert forall j :: 0 <= j < 3 && j != 1 ==> nodes[j] == rx || nodes[j] == rz;
  }

  lemma {:induction false} DropMiddle<T>(s: seq<T>, x: T, y: T, z: T)
    requires s == [x, y, z]
    ensures s[..1] + s[2..] == [x, z]
  {
  }

  lemma {:induction false} FriendNodesOfTwo(rx: NodeAttributes, rz: NodeAttributes)
    ensures FriendNodes([rx, rz]) == [FriendNode(rx), FriendNode(rz)]
  {
    var fs := [rx, rz];
    assert FriendNodes(fs)[0] == FriendNode(rx) && FriendNodes(fs)[1] == FriendNode(rz);
  }

  /** A table of one record flagged `myself`: the node has no friends. */
  lemma {:induction false} SelfAlone(table: string, rx: NodeAttributes)
    requires WellFormedTable(table) && MembershipTable(table) == [rx]
    requires IsSelf(rx)
    ensures GetFriends(Success(table)) == Success([])
  {
    var nodes := [rx];
    assert OnlySelfAt(nodes, 0);
    FriendsAroundSelf(table, 0);
    assert nodes[..0] + nodes[1..] == [];
  }

  /** The three-entry table of the tests parses into 335e, 9fd8 and 8a99, in that order. */
  lemma ThreeNodeTableRecords()
    ensures WellFormedTable(ThreeNodeTable)
    ensures MembershipTable(ThreeNodeTable) == [Attrs335e, Attrs9fd8, Attrs8a99]
  {
    Line335eParses();
    SelfLineParses();
    Line8a99Parses();
    ThreeLineRecords(Line335e, SelfLine, Line8a99, Attrs335e, Attrs9fd8, Attrs8a99);
  }

  /** GetSelfAttributes on the three-entry table picks 9fd8, the second entry. */
  lemma ThreeNodeSelf()
    ensures WellFormedTable(ThreeNodeTable)
    ensures GetSelfAttributes(Success(ThreeNodeTable)) == Success(Attrs9fd8)
  {
    ThreeNodeTableRecords();
    SelfOfMiddle(ThreeNodeTable, Attrs335e, Attrs9fd8, Attrs8a99);
  }

  /** NewNode attaches the attributes of 9fd8 to the node at the requested address. */
  lemma NewNodeAttachesSelf()
    ensures WellFormedTable(ThreeNodeTable)
    ensures NewNode("localhost:6379", Success(ThreeNodeTable)) == Success(Node("localhost:6379", Attrs9fd8))
  {
    ThreeNodeSelf();
  }

  /** GetFriends on the three-entry table returns the two other nodes, 335e and 8a99, reached at their advertised addresses. */
  lemma ThreeNodeFriends()
    ensures WellFormedTable(ThreeNodeTable)
    ensures GetFriends(Success(ThreeNodeTable)) == Success([FriendNode(Attrs335e), FriendNode(Attrs8a99)])
  {
    ThreeNodeTableRecords();
    FriendsOfMiddle(ThreeNodeTable, Attrs335e, Attrs9fd8, Attrs8a99);
  }

  /** A table holding only the `myself` entry gives no friends. */
  lemma LoneTableHasNoFriends()
    ensures WellFormedTable(LoneTable)
    ensures GetFriends(Success(LoneTable)) == Success([])
  {
    LoneSelfLineParses();
    OneLineRecords(LoneSelfLine, LoneAttrs);
    SelfAlone(LoneTable, LoneAttrs);
  }

  /** An answer with no entries at all, empty or a bare newline, is an empty table with no friends. */
  lemma EmptyTableHasNoFriends()
    ensures WellFormedTable("") && WellFormedTable("\n")
    ensures GetMembershipTable(Success("")) == Success([])
    ensures GetFriends(Success("")) == Success([])
    ensures GetFriends(Success("\n")) == Success([])
  {
    assert Entries("") == [];
    TrailingNewlineAddsNoEntry("");
    assert "" + "\n" == "\n";
  }

  /** A client error is passed on as a communication error. */
  lemma ClientErrorPassedOn()
    ensures NewNode("localhost:6379", Failure("connection refused")) == Failure(Communication("connection refused"))
    ensures GetFriends(Failure("connection refused")) == Failure(Communication("connection refused"))
  {
  }

  /** Meeting the node 23456789 at localhost:6379 issues `CLUSTER MEET localhost 6379`; the reply "OK" is success. */
  lemma MeetIssuesClusterMeet()
    ensures var node := Node("localhost:6379", NodeAttributes("123456789", "localhost", "6379", ["master"]));
      var other := Node("localhost:6379", NodeAttributes("23456789", "localhost", "6379", ["master"]));
      var o := MeetNode(node, other, Success("OK"));
      o.via == "localhost:6379" &&
      o.issued == [ClusterMeet("localhost", "6379")] &&
      o.issued[0].Args() == ["cluster", "meet", "localhost", "6379"] &&
      o.failure == None
  {
  }
}
