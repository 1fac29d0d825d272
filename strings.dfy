/**
 * Splitting and joining strings on a one-character separator, with the
 * semantics of Go's `strings.Split` and `strings.Join`: a string holding n
 * separators splits into exactly n + 1 pieces, and the empty string splits
 * into one empty piece.
 */
module Strings {

  /** The index of the first occurrence of `c` in `s`. */
  function IndexOf(s: string, c: char): (i: nat)
    requires c in s
    ensures i < |s| && s[i] == c && c !in s[..i]
  {
    if s[0] == c then 0
    else
      var j := IndexOf(s[1..], c);
      assert s[..j + 1] == [s[0]] + s[1..][..j];
      1 + j
  }

  /** A first occurrence is unique. */
  lemma {:induction false} IndexOfUnique(s: string, c: char, k: nat)
    requires k < |s| && s[k] == c && c !in s[..k]
    ensures IndexOf(s, c) == k
  {
    var i := IndexOf(s, c);
    if i < k {
      assert false;
    } else if k < i {
      assert false;
    }
  }

  /** The pieces put back together, `c` between neighbours. */
  function Join(parts: seq<string>, c: char): string
  {
    if |parts| == 0 then ""
    else if |parts| == 1 then parts[0]
    else parts[0] + [c] + Join(parts[1..], c)
  }

  /**
   * The pieces of `s` between occurrences of `c`: there is always at least
   * one, none holds `c`, and joining them with `c` gives `s` back.
   */
  function Split(s: string, c: char): (parts: seq<string>)
    ensures |parts| >= 1
    ensures forall i :: 0 <= i < |parts| ==> c !in parts[i]
    ensures Join(parts, c) == s
    ensures |parts| == 1 <==> c !in s
    decreases |s|
  {
    if c !in s then [s]
    else
      var i := IndexOf(s, c);
      var rest := Split(s[i + 1..], c);
      assert ([s[..i]] + rest)[1..] == rest;
      assert s == s[..i] + [c] + s[i + 1..];
      [s[..i]] + rest
  }

  /** Splitting after a separator-free head peels that head off. */
  lemma {:induction false} SplitConcat(a: string, b: string, c: char)
    requires c !in a
    ensures Split(a + [c] + b, c) == [a] + Split(b, c)
  {
    var s := a + [c] + b;
    assert s[..|a|] == a;
    IndexOfUnique(s, c, |a|);
    assert s[|a| + 1..] == b;
  }

  /** A separator-free head ended by nothing or by a separator is the first piece. */
  lemma {:induction false} HeadPiece(d: string, e: string, c: char)
    requires c !in d
    requires e == [] || e[0] == c
    ensures Split(d + e, c)[0] == d
  {
    if e == [] {
      assert d + e == d;
    } else {
      assert e == [c] + e[1..];
      Reassociate(d, [c], e[1..]);
      SplitConcat(d, e[1..], c);
    }
  }

  /** Two separator-free pieces, each followed by a separator, come first. */
  lemma {:induction false} TwoHeadPieces(a: string, b: string, rest: string, c: char)
    requires c !in a && c !in b
    ensures Split(a + [c] + b + [c] + rest, c) == [a, b] + Split(rest, c)
  {
    Reassociate(a + [c], b + [c], rest);
    Reassociate(a + [c], b, [c]);
    SplitConcat(a, b + [c] + rest, c);
    SplitConcat(b, rest, c);
  }

  /** Two separator-free pieces, then a separator-free head `d` ended by `e`. */
  lemma {:induction false} FirstThreePieces(a: string, b: string, d: string, e: string, c: char)
    requires c !in a && c !in b && c !in d
    requires e == [] || e[0] == c
    ensures var parts := Split(a + [c] + b + [c] + d + e, c);
      |parts| >= 3 && parts[0] == a && parts[1] == b && parts[2] == d
  {
    Reassociate(a + [c] + b + [c], d, e);
    TwoHeadPieces(a, b, d + e, c);
    HeadPiece(d, e, c);
  }

  /** Two separator-free pieces. */
  lemma {:induction false} TwoPieces(a: string, b: string, c: char)
    requires c !in a && c !in b
    ensures Split(a + [c] + b, c) == [a, b]
  {
    SplitConcat(a, b, c);
  }

  /** The first piece, then a remainder that is empty or starts with `c`. */
  lemma {:induction false} FirstPiece(s: string, c: char) returns (rest: string)
    ensures s == Split(s, c)[0] + rest && (rest == [] || rest[0] == c)
  {
    var parts := Split(s, c);
    if |parts| == 1 {
      rest := [];
    } else {
      rest := [c] + Join(parts[1..], c);
      Reassociate(parts[0], [c], Join(parts[1..], c));
    }
  }

  /** The first two pieces, then a remainder that is empty or starts with `c`. */
  lemma {:induction false} SecondPiece(s: string, c: char) returns (rest: string)
    requires c in s
    ensures var parts := Split(s, c);
      s == parts[0] + [c] + parts[1] + rest && (rest == [] || rest[0] == c)
  {
    var parts := Split(s, c);
    var tail := parts[1..];
    assert tail[0] == parts[1];
    assert s == parts[0] + [c] + Join(tail, c);
    if |tail| == 1 {
      rest := [];
    } else {
      rest := [c] + Join(tail[1..], c);
      Reassociate(parts[0], [c], Join(tail[1..], c));
      assert Join(tail, c) == parts[1] + rest;
      Reassociate(parts[0] + [c], parts[1], rest);
    }
  }

  /** Split undoes Join when no piece holds the separator. */
  lemma {:induction false} SplitJoin(parts: seq<string>, c: char)
    requires |parts| >= 1
    requires forall i :: 0 <= i < |parts| ==> c !in parts[i]
    ensures Split(Join(parts, c), c) == parts
    decreases |parts|
  {
    var head := parts[0];
    if |parts| == 1 {
      SplitWithoutSeparator(head, c);
    } else {
      var tail := parts[1..];
      forall i | 0 <= i < |tail|
        ensures c !in tail[i]
      {
        assert tail[i] == parts[i + 1];
      }
      SplitJoin(tail, c);
      SplitConcat(head, Join(tail, c), c);
      assert [head] + tail == parts;
    }
  }

  /** A string without the separator is its own single piece. */
  lemma {:induction false} SplitWithoutSeparator(s: string, c: char)
    requires c !in s
    ensures Split(s, c) == [s]
  {
  }

  /** A separator at the very end adds exactly one empty piece. */
  lemma {:induction false} SplitAppendSeparator(s: string, c: char)
    ensures Split(s + [c], c) == Split(s, c) + [""]
    decreases |s|
  {
    if c !in s {
      assert s + [c] == s + [c] + "";
      SplitConcat(s, "", c);
    } else {
      var i := IndexOf(s, c);
      var head, rest := s[..i], s[i + 1..];
      assert s == head + [c] + rest;
      assert s + [c] == head + [c] + (rest + [c]);
      SplitConcat(head, rest, c);
      SplitConcat(head, rest + [c], c);
      SplitAppendSeparator(rest, c);
      var pieces := Split(rest, c);
      assert Split(s + [c], c) == [head] + (pieces + [""]);
      assert Split(s, c) == [head] + pieces;
      Reassociate([head], pieces, [""]);
    }
  }

  lemma {:induction false} Reassociate<T>(a: seq<T>, b: seq<T>, c: seq<T>)
    ensures a + (b + c) == (a + b) + c
  {
  }

  /** `x + (p + r) + r'` regrouped after `p`. */
  lemma {:induction false} Regroup<T>(x: seq<T>, p: seq<T>, r: seq<T>, r': seq<T>)
    ensures x + (p + r) + r' == x + p + (r + r')
  {
  }

  /** A prefix `p` placed after `x`, and the element that follows it. */
  lemma {:induction false} PrefixThenNext<T>(x: seq<T>, p: seq<T>, r: seq<T>, r': seq<T>)
    ensures x + p <= x + (p + r + r')
    ensures |x| + |p| < |x + (p + r + r')| ==>
      (x + (p + r + r'))[|x| + |p|] == if |r| > 0 then r[0] else r'[0]
  {
    assert (x + (p + r + r'))[..|x| + |p|] == x + p;
  }

  /** A character that no piece holds, other than the separator, is not in the join. */
  lemma {:induction false} JoinExcludes(parts: seq<string>, c: char, d: char)
    requires d != c
    requires forall i :: 0 <= i < |parts| ==> d !in parts[i]
    ensures d !in Join(parts, c)
    decreases |parts|
  {
    if |parts| > 1 {
      JoinExcludes(parts[1..], c, d);
    }
  }

  /** A character that the join lacks is in none of its pieces. */
  lemma {:induction false} JoinPiecesExclude(parts: seq<string>, c: char, d: char)
    requires d !in Join(parts, c)
    ensures forall i :: 0 <= i < |parts| ==> d !in parts[i]
    decreases |parts|
  {
    if |parts| > 1 {
      var tail := parts[1..];
      assert Join(parts, c) == parts[0] + ([c] + Join(tail, c));
      JoinPiecesExclude(tail, c, d);
      forall i | 1 <= i < |parts|
        ensures d !in parts[i]
      {
        assert parts[i] == tail[i - 1];
      }
    }
  }

  /** A piece of a split holds no character that the whole string lacks. */
  lemma {:induction false} PieceExcludes(s: string, c: char, d: char)
    requires d !in s
    ensures forall i :: 0 <= i < |Split(s, c)| ==> d !in Split(s, c)[i]
  {
    JoinPiecesExclude(Split(s, c), c, d);
  }

  /** `t` occurs in `s` starting at index `k`. */
  predicate OccursAt(t: string, s: string, k: nat)
  {
    k + |t| <= |s| && s[k..k + |t|] == t
  }

  /** `t` is a contiguous part of `s`. */
  predicate IsInfix(t: string, s: string)
  {
    exists k: nat :: k <= |s| && OccursAt(t, s, k)
  }

  /**
   * In `[c] + p + tail`, where `p` is free of `c` and `tail` starts with `c`,
   * the `c`-delimited token `x` occurs right at the start exactly when `x == p`.
   */
  lemma {:induction false} OccursAtHead(x: string, p: string, tail: string, c: char)
    requires c !in x && c !in p
    requires |tail| >= 1 && tail[0] == c
    ensures OccursAt([c] + x + [c], [c] + p + tail, 0) <==> x == p
  {
    var t := [c] + x + [c];
    var s := [c] + p + tail;
    assert s[1..][..|p|] == p && s[1..][|p|] == c;
    IndexOfUnique(s[1..], c, |p|);
    if OccursAt(t, s, 0) {
      assert s[..|t|] == t;
      assert s[1..][..|x|] == x && s[1..][|x|] == c;
      IndexOfUnique(s[1..], c, |x|);
    }
    if x == p {
      assert s[0..|t|] == t;
    }
  }

  /** Any later occurrence of the delimited token lies wholly inside `tail`. */
  lemma {:induction false} OccursPastHead(x: string, p: string, tail: string, c: char, k: nat)
    requires c !in p
    requires |tail| >= 1 && tail[0] == c
    requires k >= 1
    ensures OccursAt([c] + x + [c], [c] + p + tail, k) <==>
      k >= |p| + 1 && OccursAt([c] + x + [c], tail, k - |p| - 1)
  {
    var t := [c] + x + [c];
    var s := [c] + p + tail;
    assert s[|p| + 1..] == tail;
    if OccursAt(t, s, k) {
      assert s[k] == s[k..k + |t|][0];
      if k <= |p| {
        assert false;
      }
      assert tail[k - |p| - 1..k - |p| - 1 + |t|] == s[k..k + |t|];
    }
    if k >= |p| + 1 && OccursAt(t, tail, k - |p| - 1) {
      assert tail[k - |p| - 1..k - |p| - 1 + |t|] == s[k..k + |t|];
    }
  }

  /**
   * Membership among the pieces of a join is the occurrence of the token,
   * delimited by the separator on both sides, in the delimited join.
   */
  lemma {:induction false} JoinMembership(parts: seq<string>, c: char, x: string)
    requires |parts| >= 1
    requires forall i :: 0 <= i < |parts| ==> c !in parts[i]
    requires c !in x
    ensures x in parts <==> IsInfix([c] + x + [c], [c] + Join(parts, c) + [c])
    decreases |parts|
  {
    var t := [c] + x + [c];
    var p := parts[0];
    var tail := if |parts| == 1 then [c] else [c] + Join(parts[1..], c) + [c];
    var s := [c] + Join(parts, c) + [c];
    assert s == [c] + p + tail;
    OccursAtHead(x, p, tail, c);
    if |parts| > 1 {
      JoinMembership(parts[1..], c, x);
      assert parts == [p] + parts[1..];
    }
    if x in parts {
      if x == p {
        assert OccursAt(t, s, 0);
      } else {
        var m: nat :| m <= |tail| && OccursAt(t, tail, m);
        OccursPastHead(x, p, tail, c, m + |p| + 1);
      }
    }
    if IsInfix(t, s) {
      var k: nat :| k <= |s| && OccursAt(t, s, k);
      if k >= 1 {
        OccursPastHead(x, p, tail, c, k);
        assert |parts| > 1;
      }
    }
  }
}
