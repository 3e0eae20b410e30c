/** Which block a full scoreboard gives up, when the ranges added touch no block. */
module SackEviction {
  import opened Words
  import opened Sack

  /** boards[i] is the board after the first i ranges of h were added, none touching another. */
  ghost predicate History(h: seq<Block>, boards: seq<seq<Block>>) {
    && AllApart(h) && Proper(h)
    && |boards| == |h| + 1 && boards[0] == []
    && forall i :: 0 <= i < |h| ==> Placed(boards[i], h[i], boards[i + 1])
  }

  lemma {:induction false} BlocksComeFromHistory(h: seq<Block>, boards: seq<seq<Block>>, n: nat, b: Block)
    requires History(h, boards) && n <= |h| && b in boards[n]
    ensures exists i :: 0 <= i < n && h[i] == b
    decreases n
  {
    if n > 0 {
      assert Placed(boards[n - 1], h[n - 1], boards[n]);
      if b != h[n - 1] {
        BlocksComeFromHistory(h, boards, n - 1, b);
      }
    }
  }

  /** Of the blocks on the board, h[i] was added first. */
  ghost predicate IsOldest(h: seq<Block>, s: seq<Block>, i: nat) {
    i < |h| && h[i] in s && forall j :: 0 <= j < i ==> h[j] !in s
  }

  lemma Different(s: seq<Block>, i: nat, j: nat)
    requires AllApart(s) && Proper(s) && i < |s| && j < |s| && i != j
    ensures s[i] != s[j]
  {
    assert Apart(s[Min(i, j)], s[Max(i, j)]);
  }

  /** The oldest block of a full board is never the first one, which is the most recent. */
  lemma OldestIsBehind(h: seq<Block>, boards: seq<seq<Block>>, i: nat) returns (k: nat)
    requires History(h, boards) && |boards[|h|]| == MAX_BLOCKS && IsOldest(h, boards[|h|], i)
    ensures 1 <= k < MAX_BLOCKS && boards[|h|][k] == h[i]
  {
    var n := |h|;
    var s := boards[n];
    assert Placed(boards[n - 1], h[n - 1], s);
    BlocksComeFromHistory(h, boards, n, s[1]);
    var j :| 0 <= j < n && h[j] == s[1];
    Different(s, 0, 1);
    Different(h, i, n - 1);
    k :| 0 <= k < |s| && s[k] == h[i];
  }

  /** A full board gives up its oldest block exactly when that has the greatest left edge
      of the blocks behind the most recent one. */
  lemma OldestIsEvictedIff(h: seq<Block>, boards: seq<seq<Block>>, i: nat, b: Block, now: seq<Block>)
    requires History(h, boards) && |boards[|h|]| == MAX_BLOCKS && IsOldest(h, boards[|h|], i)
    requires b !in h && Placed(boards[|h|], b, now)
    ensures h[i] !in now <==> forall k :: 1 <= k < MAX_BLOCKS ==> boards[|h|][k].left <= h[i].left
  {
    var s := boards[|h|];
    assert Placed(boards[|h| - 1], h[|h| - 1], s);
    var k := OldestIsBehind(h, boards, i);
    assert forall j :: 0 <= j < 3 ==> s[1..][j] == s[j + 1];
    forall j | 0 <= j < MAX_BLOCKS && j != k ensures s[j] != s[k] {
      Different(s, j, k);
    }
    assert s[..3] == [s[0], s[1], s[2]];
    assert h[i] != b;
    assert h[i] !in now <==> k == 3;
    assert s[1].left <= s[2].left <= s[3].left && s[1].left < s[2].left < s[3].left;
  }

  /** What is added determines the board: there is no other order to choose. */
  lemma PlacedIsUnique(was: seq<Block>, b: Block, now: seq<Block>, other: seq<Block>)
    requires Placed(was, b, now) && Placed(was, b, other)
    ensures now == other
  {
    forall c ensures c in now[1..] <==> c in other[1..] {
      TailMembers(now, c);
      TailMembers(other, c);
    }
    TailIsProper(now);
    TailIsProper(other);
    AscendingIsUnique(now[1..], other[1..]);
    assert now == [b] + now[1..] && other == [b] + other[1..];
  }

  lemma TailMembers(s: seq<Block>, c: Block)
    requires AllApart(s) && Proper(s) && s != []
    ensures c in s[1..] <==> c in s && c != s[0]
  {
    if c in s[1..] {
      var j :| 0 <= j < |s| - 1 && s[1..][j] == c;
      Different(s, 0, j + 1);
    }
    if c in s && c != s[0] {
      var j :| 0 <= j < |s| && s[j] == c;
      assert s[1..][j - 1] == c;
    }
  }

  lemma TailIsProper(s: seq<Block>)
    requires Proper(s) && s != []
    ensures Proper(s[1..])
  {
  }

  lemma {:induction false} AscendingIsUnique(s: seq<Block>, t: seq<Block>)
    requires Ascending(s) && Ascending(t) && Proper(s) && Proper(t)
    requires forall c :: c in s <==> c in t
    ensures s == t
    decreases |s|
  {
    if s != [] {
      assert s[0] in t;
    }
    if t != [] {
      assert t[0] in s;
    }
    if s != [] && t != [] {
      hide Ascending, Proper;
      FirstAgree(s, t);
      forall c ensures c in s[1..] <==> c in t[1..] {
        AscendingTail(s, c);
        AscendingTail(t, c);
      }
      AscendingRest(s);
      AscendingRest(t);
      AscendingIsUnique(s[1..], t[1..]);
      assert s == [s[0]] + s[1..] && t == [t[0]] + t[1..];
    }
  }

  lemma FirstAgree(s: seq<Block>, t: seq<Block>)
    requires Ascending(s) && Ascending(t) && Proper(s) && Proper(t) && s != [] && t != []
    requires forall c :: c in s <==> c in t
    ensures s[0] == t[0]
  {
    assert s[0] in t && t[0] in s;
    var j :| 0 <= j < |t| && t[j] == s[0];
    var i :| 0 <= i < |s| && s[i] == t[0];
  }

  lemma AscendingRest(s: seq<Block>)
    requires Ascending(s) && Proper(s) && s != []
    ensures Ascending(s[1..]) && Proper(s[1..])
  {
  }

  lemma AscendingTail(s: seq<Block>, c: Block)
    requires Ascending(s) && Proper(s) && s != []
    ensures c in s[1..] <==> c in s && c != s[0]
  {
    if c in s[1..] {
      var j :| 0 <= j < |s| - 1 && s[1..][j] == c;
      assert s[0].right < s[j + 1].left;
      assert s[0] in s;
    }
    if c in s && c != s[0] {
      var j :| 0 <= j < |s| && s[j] == c;
      assert s[1..][j - 1] == c;
    }
  }

  // ---------------------------------------------------------------- the oldest may stay

  const H: seq<Block> := [Block(0, 1), Block(10, 11), Block(20, 21), Block(30, 31)]

  const BOARDS: seq<seq<Block>> :=
    [[], [H[0]], [H[1], H[0]], [H[2], H[0], H[1]], [H[3], H[0], H[1], H[2]]]

  lemma FirstPlacements()
    ensures Placed(BOARDS[0], H[0], BOARDS[1]) && Placed(BOARDS[1], H[1], BOARDS[2])
  {
  }

  lemma NextPlacements()
    ensures Placed(BOARDS[2], H[2], BOARDS[3]) && Placed(BOARDS[3], H[3], BOARDS[4])
  {
  }

  lemma FifthPlacement()
    ensures Placed(BOARDS[4], Block(40, 41), [Block(40, 41), H[0], H[1], H[3]])
  {
    assert Kept(BOARDS[4]) == [H[3], H[0], H[1]];
  }

  /** Four ranges fill the board; a fifth evicts the one added third, although the oldest is still there. */
  lemma LeastRecentMayStay()
    ensures History(H, BOARDS) && IsOldest(H, BOARDS[4], 0)
    ensures Placed(BOARDS[4], Block(40, 41), [Block(40, 41), H[0], H[1], H[3]])
    ensures H[2] !in [Block(40, 41), H[0], H[1], H[3]]
  {
    hide Placed;
    FirstPlacements();
    NextPlacements();
    FifthPlacement();
    forall i | 0 <= i < |H| ensures Placed(BOARDS[i], H[i], BOARDS[i + 1]) {
      assert i == 0 || i == 1 || i == 2 || i == 3;
    }
  }
}
