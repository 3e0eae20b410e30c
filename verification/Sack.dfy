/** The SACK scoreboard: up to four blocks of received sequence numbers, sorted, merged and
    rotated in place, standing for one set of sequence numbers. */
module Sack {
  import opened Words

  const MAX_BLOCKS := 4

  /** The half-open range [left, right). */
  datatype Block = Block(left: u32, right: u32)

  predicate In(b: Block, x: u32) {
    b.left <= x < b.right
  }

  /** The set of sequence numbers that a list of blocks stands for. */
  ghost predicate Covered(blocks: seq<Block>, x: u32) {
    exists b :: b in blocks && In(b, x)
  }

  // ---------------------------------------------------------------- shapes

  ghost predicate Proper(blocks: seq<Block>) {
    forall b :: b in blocks ==> b.left < b.right
  }

  /** Neither overlapping nor touching. */
  predicate Apart(a: Block, b: Block) {
    a.right < b.left || b.right < a.left
  }

  ghost predicate AllApart(blocks: seq<Block>) {
    forall i, j :: 0 <= i < j < |blocks| ==> Apart(blocks[i], blocks[j])
  }

  ghost predicate SortedByLeft(blocks: seq<Block>) {
    forall i, j :: 0 <= i < j < |blocks| ==> blocks[i].left <= blocks[j].left
  }

  /** Ascending and apart: the form merging produces. */
  ghost predicate Ascending(blocks: seq<Block>) {
    forall i, j :: 0 <= i < j < |blocks| ==> blocks[i].right < blocks[j].left
  }

  lemma CoverOfSame(s: seq<Block>, t: seq<Block>)
    requires multiset(s) == multiset(t)
    ensures forall x: u32 :: Covered(s, x) <==> Covered(t, x)
    ensures |s| == |t|
    ensures Proper(s) ==> Proper(t)
  {
    assert |multiset(s)| == |s| && |multiset(t)| == |t|;
    assert forall b :: b in s <==> b in multiset(s);
    assert forall b :: b in t <==> b in multiset(t);
  }

  // ---------------------------------------------------------------- sorting

  /** Element i moved down to position j, those between moved up by one. */
  function MovedDown<T>(s: seq<T>, j: nat, i: nat): (r: seq<T>)
    requires j <= i < |s|
    ensures |r| == |s|
  {
    seq(|s|, k requires 0 <= k < |s| => if k == j then s[i] else if j < k <= i then s[k - 1] else s[k])
  }

  lemma SwapPermutes<T>(t: seq<T>, j: nat)
    requires j + 1 < |t|
    ensures multiset(t[j := t[j + 1]][j + 1 := t[j]]) == multiset(t)
  {
  }

  lemma MovedDownStep<T>(s: seq<T>, j: nat, i: nat)
    requires j < i < |s|
    ensures
      var t := MovedDown(s, j + 1, i);
      MovedDown(s, j, i) == t[j := t[j + 1]][j + 1 := t[j]]
  {
  }

  lemma {:induction false} MovedDownPermutes<T>(s: seq<T>, j: nat, i: nat)
    requires j <= i < |s|
    ensures multiset(MovedDown(s, j, i)) == multiset(s)
    decreases i - j
  {
    if j == i {
      assert MovedDown(s, j, i) == s;
    } else {
      hide MovedDown;
      MovedDownPermutes(s, j + 1, i);
      MovedDownStep(s, j, i);
      SwapPermutes(MovedDown(s, j + 1, i), j);
    }
  }

  lemma MovedDownPrefix<T>(s: seq<T>, j: nat, i: nat, n: nat)
    requires j <= i < n <= |s|
    ensures multiset(MovedDown(s, j, i)[..n]) == multiset(s[..n])
    ensures MovedDown(s, j, i)[n..] == s[n..]
  {
    assert MovedDown(s, j, i)[..n] == MovedDown(s[..n], j, i);
    MovedDownPermutes(s[..n], j, i);
  }

  /** Moving a block down below all larger ones keeps the front sorted. */
  lemma InsertionSorts(s: seq<Block>, j: nat, i: nat)
    requires j <= i < |s| && SortedByLeft(s[..i])
    requires j > 0 ==> s[j - 1].left <= s[i].left
    requires forall k :: j <= k < i ==> s[i].left < s[k].left
    ensures SortedByLeft(MovedDown(s, j, i)[..i + 1])
  {
    var r := MovedDown(s, j, i);
    forall a, b | 0 <= a < b < i + 1 ensures r[a].left <= r[b].left {
      assert forall k :: 0 <= k < i ==> s[..i][k] == s[k];
    }
  }

  /** The insertion sort of the first n blocks of an array. */
  method SortBlocks(blocks: array<Block>, n: nat)
    requires n <= blocks.Length
    modifies blocks
    ensures SortedByLeft(blocks[..n])
    ensures multiset(blocks[..n]) == multiset(old(blocks[..n]))
    ensures blocks[n..] == old(blocks[n..])
  {
    var i := 1;
    while i < n
      invariant 1 <= i && (i <= n || n == 0)
      invariant n > 0 ==> SortedByLeft(blocks[..i])
      invariant multiset(blocks[..n]) == multiset(old(blocks[..n]))
      invariant blocks[n..] == old(blocks[n..])
    {
      InsertBlock(blocks, i, n);
      i := i + 1;
    }
  }

  /** One round of the insertion sort: block i moves down into the sorted blocks before it. */
  method InsertBlock(blocks: array<Block>, i: nat, ghost n: nat)
    requires 0 < i < n <= blocks.Length && SortedByLeft(blocks[..i])
    modifies blocks
    ensures SortedByLeft(blocks[..i + 1])
    ensures multiset(blocks[..n]) == multiset(old(blocks[..n]))
    ensures blocks[n..] == old(blocks[n..])
  {
    hide SortedByLeft;
    var tmp := blocks[i];
    var j := i;
    ghost var was := blocks[..];
    assert was[..i] == blocks[..i];
    while j > 0 && blocks[j - 1].left > tmp.left
      invariant 0 <= j <= i
      invariant forall k :: 0 <= k < blocks.Length && !(j < k <= i) ==> blocks[k] == was[k]
      invariant forall k :: j < k <= i ==> blocks[k] == was[k - 1]
      invariant forall k :: j <= k < i ==> tmp.left < was[k].left
    {
      blocks[j] := blocks[j - 1];
      j := j - 1;
    }
    blocks[j] := tmp;
    ghost var now := blocks[..];
    assert now == MovedDown(was, j, i);
    hide MovedDown;
    MovedDownPrefix(was, j, i, n);
    InsertionSorts(was, j, i);
    assert blocks[..i + 1] == now[..i + 1] && blocks[..n] == now[..n] && blocks[n..] == now[n..];
    assert was[..n] == old(blocks[..n]) && was[n..] == old(blocks[n..]);
  }

  // ---------------------------------------------------------------- merging

  /** Whether two lists of blocks stand for the same set. */
  ghost predicate SameCover(s: seq<Block>, t: seq<Block>) {
    forall x: u32 :: Covered(s, x) <==> Covered(t, x)
  }

  lemma CoveredAppend(s: seq<Block>, b: Block, x: u32)
    ensures Covered(s + [b], x) <==> Covered(s, x) || In(b, x)
  {
    assert forall c :: c in s + [b] <==> c in s || c == b;
  }

  /** The next block in left order either extends the last merged block or starts a new one. */
  function Merged(acc: seq<Block>, b: Block): (r: seq<Block>)
    requires acc != []
  {
    var n := |acc| - 1;
    if b.left <= acc[n].right then acc[..n] + [acc[n].(right := Max(acc[n].right, b.right))] else acc + [b]
  }

  lemma MergedCover(acc: seq<Block>, b: Block, done: seq<Block>)
    requires acc != [] && SameCover(acc, done) && acc[|acc| - 1].left <= b.left
    ensures SameCover(Merged(acc, b), done + [b])
  {
    hide Covered;
    var n := |acc| - 1;
    var last := acc[n];
    assert acc == acc[..n] + [last];
    forall x: u32 ensures Covered(Merged(acc, b), x) <==> Covered(done + [b], x) {
      CoveredAppend(done, b, x);
      CoveredAppend(acc, b, x);
      CoveredAppend(acc[..n], last, x);
      CoveredAppend(acc[..n], last.(right := Max(last.right, b.right)), x);
    }
  }

  lemma MergedShape(acc: seq<Block>, b: Block)
    requires acc != [] && Ascending(acc) && Proper(acc) && b.left < b.right && acc[|acc| - 1].left <= b.left
    ensures Ascending(Merged(acc, b)) && Proper(Merged(acc, b))
    ensures Merged(acc, b)[|Merged(acc, b)| - 1].left <= b.left
  {
    var n := |acc| - 1;
    if b.left > acc[n].right {
      forall i | 0 <= i <= n ensures acc[i].right < b.left {
        assert i == n || acc[i].right < acc[n].left;
      }
    }
  }

  /** The merging loop over sorted blocks. */
  method MergeSorted(blocks: array<Block>, n: nat) returns (count: nat)
    requires 2 <= n <= blocks.Length && SortedByLeft(blocks[..n]) && Proper(blocks[..n])
    modifies blocks
    ensures 0 < count <= n
    ensures Ascending(blocks[..count]) && Proper(blocks[..count])
    ensures SameCover(blocks[..count], old(blocks[..n]))
    ensures blocks[n..] == old(blocks[n..])
  {
    hide Covered, Merged, Ascending, Proper, SortedByLeft, SameCover;
    ghost var sorted := blocks[..];
    ghost var s := sorted[..n];
    assert s == blocks[..n];
    StartMerging(s);
    ghost var acc := s[..1];
    var out := 0;
    var i := 1;
    while i < n
      invariant 0 <= out < i <= n && |acc| == out + 1
      invariant forall k :: 0 <= k <= out ==> blocks[k] == acc[k]
      invariant forall k :: i <= k < blocks.Length ==> blocks[k] == sorted[k]
      invariant Ascending(acc) && Proper(acc) && SameCover(acc, s[..i])
      invariant i < n ==> acc[out].left <= s[i].left
    {
      AddToMerged(acc, s, i);
      assert s[i] == sorted[i] == blocks[i];
      if blocks[i].left <= blocks[out].right {
        if blocks[i].right > blocks[out].right {
          blocks[out] := blocks[out].(right := blocks[i].right);
        }
      } else {
        out := out + 1;
        blocks[out] := blocks[i];
      }
      acc := Merged(acc, s[i]);
      i := i + 1;
    }
    count := out + 1;
    assert s[..n] == s && blocks[..count] == acc;
    assert blocks[n..] == sorted[n..];
  }

  /** Merges the first n blocks in place; returns how many remain. */
  method MergeBlocks(blocks: array<Block>, n: nat) returns (count: nat)
    requires n <= blocks.Length && Proper(blocks[..n])
    modifies blocks
    ensures count <= n && (n > 0 ==> count > 0)
    ensures Ascending(blocks[..count]) && Proper(blocks[..count])
    ensures SameCover(blocks[..count], old(blocks[..n]))
    ensures blocks[n..] == old(blocks[n..])
  {
    hide Covered, Ascending, SortedByLeft, SameCover;
    ghost var before := blocks[..n];
    if n <= 1 {
      SingleIsMerged(before);
      return n;
    }
    SortBlocks(blocks, n);
    ghost var s := blocks[..n];
    CoverOfSame(before, s);
    SameCoverOf(s, before);
    count := MergeSorted(blocks, n);
    SameCoverTransitive(blocks[..count], s, before);
  }

  lemma SameCoverOf(s: seq<Block>, t: seq<Block>)
    requires multiset(s) == multiset(t)
    ensures SameCover(s, t)
  {
    hide Covered;
    CoverOfSame(s, t);
  }

  lemma StartMerging(s: seq<Block>)
    requires |s| > 1 && SortedByLeft(s) && Proper(s)
    ensures Ascending(s[..1]) && Proper(s[..1]) && SameCover(s[..1], s[..1]) && s[0].left <= s[1].left
  {
    hide Covered;
    SingleIsMerged(s[..1]);
  }

  lemma SingleIsMerged(s: seq<Block>)
    requires |s| <= 1
    ensures Ascending(s) && SameCover(s, s)
  {
  }

  lemma SameCoverTransitive(a: seq<Block>, b: seq<Block>, c: seq<Block>)
    requires SameCover(a, b) && SameCover(b, c)
    ensures SameCover(a, c)
  {
  }

  /** One round of merging, on values. */
  lemma AddToMerged(acc: seq<Block>, s: seq<Block>, i: nat)
    requires acc != [] && 0 < i < |s| && SortedByLeft(s) && Proper(s)
    requires Ascending(acc) && Proper(acc) && SameCover(acc, s[..i]) && acc[|acc| - 1].left <= s[i].left
    ensures
      var n := |acc| - 1;
      Merged(acc, s[i]) ==
      if s[i].left <= acc[n].right then acc[n := acc[n].(right := Max(acc[n].right, s[i].right))] else acc + [s[i]]
    ensures Ascending(Merged(acc, s[i])) && Proper(Merged(acc, s[i]))
    ensures SameCover(Merged(acc, s[i]), s[..i + 1])
    ensures i + 1 < |s| ==> Merged(acc, s[i])[|Merged(acc, s[i])| - 1].left <= s[i + 1].left
  {
    hide Covered, Merged;
    MergedIs(acc, s[i]);
    MergedShape(acc, s[i]);
    MergedCover(acc, s[i], s[..i]);
    assert s[..i + 1] == s[..i] + [s[i]];
  }

  lemma MergedIs(acc: seq<Block>, b: Block)
    requires acc != []
    ensures
      var n := |acc| - 1;
      Merged(acc, b) ==
      if b.left <= acc[n].right then acc[n := acc[n].(right := Max(acc[n].right, b.right))] else acc + [b]
  {
  }

  lemma RightEndIsFree(blocks: seq<Block>, k: nat)
    requires Ascending(blocks) && Proper(blocks) && k < |blocks|
    ensures !Covered(blocks, blocks[k].right)
  {
    forall b | b in blocks ensures !In(b, blocks[k].right) {
      var j :| 0 <= j < |blocks| && blocks[j] == b;
      assert j < k ==> blocks[j].right < blocks[k].left;
    }
  }

  /** Merged blocks have gaps between them, so a range they cover lies within one of them. */
  lemma RangeInOne(blocks: seq<Block>, left: u32, right: u32) returns (k: nat)
    requires Ascending(blocks) && Proper(blocks) && left < right
    requires forall x: u32 :: left <= x < right ==> Covered(blocks, x)
    ensures k < |blocks| && blocks[k].left <= left && right <= blocks[k].right
  {
    assert Covered(blocks, left);
    var b :| b in blocks && In(b, left);
    k :| 0 <= k < |blocks| && blocks[k] == b;
    RightEndIsFree(blocks, k);
  }

  // ---------------------------------------------------------------- holes

  /** The holes before, between and up to sorted blocks, from a cursor on. */
  ghost function HolesOf(sorted: seq<Block>, cursor: u32): seq<Block> {
    if sorted == [] then []
    else
      var b := sorted[0];
      (if b.left > cursor then [Block(cursor, b.left)] else []) + HolesOf(sorted[1..], Max(cursor, b.right))
  }

  /** H is, in ascending order, exactly what is missing between cum and the highest block. */
  ghost predicate AreHoles(holes: seq<Block>, blocks: seq<Block>, cum: u32) {
    && Proper(holes) && Ascending(holes)
    && forall x: u32 :: Covered(holes, x) <==> IsMissing(blocks, cum, x)
  }

  ghost predicate IsMissing(blocks: seq<Block>, cum: u32, x: u32) {
    cum <= x && !Covered(blocks, x) && exists b :: b in blocks && x < b.right
  }

  lemma CoveredCons(b: Block, s: seq<Block>, x: u32)
    ensures Covered([b] + s, x) <==> In(b, x) || Covered(s, x)
  {
    assert forall c :: c in [b] + s <==> c == b || c in s;
  }

  lemma MissingCons(sorted: seq<Block>, cum: u32, x: u32)
    requires sorted != [] && Ascending(sorted) && Proper(sorted)
    ensures IsMissing(sorted, cum, x) <==>
            (cum <= x < sorted[0].left) || IsMissing(sorted[1..], Max(cum, sorted[0].right), x)
  {
    var b, rest := sorted[0], sorted[1..];
    assert sorted == [b] + rest;
    CoveredCons(b, rest, x);
    assert forall c :: c in sorted <==> c == b || c in rest;
    assert forall c :: c in rest ==> b.right < c.left < c.right;
  }

  lemma HolesCover(sorted: seq<Block>, cum: u32, tail: seq<Block>)
    requires sorted != [] && Ascending(sorted) && Proper(sorted)
    requires forall x: u32 :: Covered(tail, x) <==> IsMissing(sorted[1..], Max(cum, sorted[0].right), x)
    ensures
      var holes := if sorted[0].left > cum then [Block(cum, sorted[0].left)] + tail else tail;
      forall x: u32 :: Covered(holes, x) <==> IsMissing(sorted, cum, x)
  {
    hide Covered, IsMissing, Ascending, Proper;
    var hole := Block(cum, sorted[0].left);
    var holes := if sorted[0].left > cum then [hole] + tail else tail;
    forall x: u32 ensures Covered(holes, x) <==> IsMissing(sorted, cum, x) {
      MissingCons(sorted, cum, x);
      CoveredCons(hole, tail, x);
    }
  }

  lemma HolesShape(hole: Block, tail: seq<Block>, next: u32)
    requires hole.left < hole.right < next && Proper(tail) && Ascending(tail)
    requires forall h :: h in tail ==> next <= h.left
    ensures Proper([hole] + tail) && Ascending([hole] + tail)
  {
  }

  lemma {:induction false} HolesAreHoles(sorted: seq<Block>, cum: u32)
    requires Ascending(sorted) && Proper(sorted)
    ensures AreHoles(HolesOf(sorted, cum), sorted, cum)
    ensures |HolesOf(sorted, cum)| <= |sorted|
    ensures forall h :: h in HolesOf(sorted, cum) ==> cum <= h.left
    decreases |sorted|
  {
    hide Covered, IsMissing;
    if sorted == [] {
      NothingMissing(cum);
    } else {
      var b, rest := sorted[0], sorted[1..];
      var next := Max(cum, b.right);
      HolesAreHoles(rest, next);
      var tail := HolesOf(rest, next);
      assert HolesOf(sorted, cum) == if b.left > cum then [Block(cum, b.left)] + tail else [] + tail;
      assert [] + tail == tail;
      hide HolesOf;
      MoreHoles(sorted, cum, tail);
    }
  }

  lemma MoreHoles(sorted: seq<Block>, cum: u32, tail: seq<Block>)
    requires sorted != [] && Ascending(sorted) && Proper(sorted)
    requires AreHoles(tail, sorted[1..], Max(cum, sorted[0].right))
    requires forall h :: h in tail ==> Max(cum, sorted[0].right) <= h.left
    ensures
      var holes := if sorted[0].left > cum then [Block(cum, sorted[0].left)] + tail else tail;
      AreHoles(holes, sorted, cum) && forall h :: h in holes ==> cum <= h.left
  {
    hide Covered, IsMissing, Ascending, Proper;
    HolesCover(sorted, cum, tail);
    ProperAt(sorted, sorted[0]);
    if sorted[0].left > cum {
      HolesShape(Block(cum, sorted[0].left), tail, Max(cum, sorted[0].right));
    }
  }

  lemma ProperAt(s: seq<Block>, b: Block)
    requires Proper(s) && b in s
    ensures b.left < b.right
  {
  }

  lemma NothingMissing(cum: u32)
    ensures forall x: u32 :: !Covered([], x) && !IsMissing([], cum, x)
  {
  }

  lemma HolesStep(s: seq<Block>, i: nat, cursor: u32, found: seq<Block>)
    requires i < |s|
    ensures
      var b := s[i];
      var found' := if b.left > cursor then found + [Block(cursor, b.left)] else found;
      found + HolesOf(s[i..], cursor) == found' + HolesOf(s[i + 1..], Max(cursor, b.right))
  {
    assert s[i..][1..] == s[i + 1..];
    var tail := HolesOf(s[i + 1..], Max(cursor, s[i].right));
    assert found + ([Block(cursor, s[i].left)] + tail) == found + [Block(cursor, s[i].left)] + tail;
    assert [] + tail == tail;
  }

  lemma HolesEnd(s: seq<Block>, cursor: u32)
    ensures HolesOf(s[|s|..], cursor) == []
  {
  }

  lemma {:induction false} ApartAtMostOnce(s: seq<Block>, b: Block)
    requires Proper(s) && AllApart(s)
    ensures multiset(s)[b] <= 1
  {
    if s != [] {
      var n := |s| - 1;
      assert s == s[..n] + [s[n]];
      ApartAtMostOnce(s[..n], b);
      if b in s[..n] {
        var i :| 0 <= i < n && s[i] == b;
        assert Apart(s[i], s[n]);
        assert b in s && b != s[n];
      }
    }
  }

  lemma TwiceInMultiset(s: seq<Block>, i: nat, j: nat)
    requires i < j < |s| && s[i] == s[j]
    ensures multiset(s)[s[i]] >= 2
  {
    assert s == s[..i] + [s[i]] + s[i + 1..j] + [s[j]] + s[j + 1..];
  }

  /** Separated blocks in left order are ascending, whatever order they came in. */
  lemma SortedIsAscending(b: seq<Block>, s: seq<Block>)
    requires multiset(b) == multiset(s) && Proper(b) && AllApart(b) && SortedByLeft(s)
    ensures Ascending(s) && Proper(s) && |s| == |b|
  {
    CoverOfSame(b, s);
    forall i, j | 0 <= i < j < |s| ensures s[i].right < s[j].left {
      assert s[i] in multiset(s) && s[j] in multiset(s);
      var p :| 0 <= p < |b| && b[p] == s[i];
      var q :| 0 <= q < |b| && b[q] == s[j];
      if s[i] == s[j] {
        TwiceInMultiset(s, i, j);
        ApartAtMostOnce(b, s[i]);
      }
      assert p != q;
      assert p < q ==> Apart(b[p], b[q]);
      assert q < p ==> Apart(b[q], b[p]);
      assert s[i] in s && s[j] in s;
    }
  }

  lemma HolesOfSorted(b: seq<Block>, s: seq<Block>, cum: u32)
    requires multiset(b) == multiset(s) && Ascending(s) && Proper(s)
    ensures AreHoles(HolesOf(s, cum), b, cum) && |HolesOf(s, cum)| <= |b|
  {
    CoverOfSame(b, s);
    HolesAreHoles(s, cum);
    hide HolesOf;
    assert forall c :: c in b <==> c in multiset(b);
    assert forall c :: c in s <==> c in multiset(s);
  }

  // ---------------------------------------------------------------- adding and trimming, on values

  lemma AddedIsProper(s: seq<Block>, n: nat, b: Block)
    requires Proper(s) && n <= |s| && b.left < b.right
    ensures Proper(s[..n] + [b])
    ensures n == |s| ==> s[..n] == s
  {
  }

  lemma AddedCover(merged: seq<Block>, kept: seq<Block>, b: Block)
    requires Ascending(merged) && Proper(merged) && SameCover(merged, kept + [b]) && b.left < b.right
    ensures forall x: u32 :: Covered(merged, x) <==> Covered(kept, x) || b.left <= x < b.right
    ensures exists k :: 0 <= k < |merged| && merged[k].left <= b.left && b.right <= merged[k].right
  {
    hide Covered, Ascending, Proper;
    forall x: u32 ensures Covered(merged, x) <==> Covered(kept, x) || b.left <= x < b.right {
      CoveredAppend(kept, b, x);
    }
    var k := RangeInOne(merged, b.left, b.right);
  }

  // ---------------------------------------------------------------- ranges that touch no block

  /** What stays of a board when a range is added: all of it, or all but the last of four blocks. */
  function Kept(was: seq<Block>): seq<Block> {
    if |was| < MAX_BLOCKS then was else was[..MAX_BLOCKS - 1]
  }

  /** The board `now` after b was added to `was` without touching any block kept: b comes first, and
      the blocks kept follow in ascending order. */
  ghost predicate Placed(was: seq<Block>, b: Block, now: seq<Block>) {
    && (forall c :: c in now <==> c in Kept(was) || c == b)
    && AllApart(now) && Proper(now)
    && now != [] && now[0] == b && Ascending(now[1..])
  }

  lemma ApartFromMember(s: seq<Block>, b: Block, x: u32)
    requires AllApart(s) && Proper(s) && b in s && (x + 1 == b.left || x == b.right)
    ensures !Covered(s, x)
  {
    forall c | c in s ensures !In(c, x) {
      var i :| 0 <= i < |s| && s[i] == b;
      var j :| 0 <= j < |s| && s[j] == c;
      if i != j {
        assert Apart(s[Min(i, j)], s[Max(i, j)]);
      }
    }
  }

  /** A block of one list covers nothing that its counterpart in another list of the same set does not. */
  lemma Counterpart(s: seq<Block>, t: seq<Block>, b: Block)
    requires AllApart(s) && Proper(s) && b in s && Proper(t) && AllApart(t)
    requires forall x: u32 :: Covered(s, x) <==> Covered(t, x)
    ensures b in t
  {
    assert In(b, b.left);
    assert Covered(s, b.left);
    var c :| c in t && In(c, b.left);
    if c.left < b.left {
      ApartFromMember(s, b, b.left - 1);
    }
    if b.right < c.right {
      ApartFromMember(s, b, b.right);
    }
    if c.right < b.right {
      ApartFromMember(t, c, c.right);
    }
  }

  /** Separated blocks are determined by the set they cover. */
  lemma SameSetSameBlocks(s: seq<Block>, t: seq<Block>)
    requires AllApart(s) && Proper(s) && AllApart(t) && Proper(t)
    requires forall x: u32 :: Covered(s, x) <==> Covered(t, x)
    ensures forall b :: b in s <==> b in t
  {
    hide AllApart, Proper, Covered;
    forall b ensures b in s <==> b in t {
      if b in s {
        Counterpart(s, t, b);
      }
      if b in t {
        Counterpart(t, s, b);
      }
    }
  }

  lemma AppendedApart(s: seq<Block>, b: Block)
    requires AllApart(s) && Proper(s) && b.left < b.right && forall c :: c in s ==> Apart(c, b)
    ensures AllApart(s + [b]) && Proper(s + [b])
  {
  }

  lemma KeptShape(was: seq<Block>)
    requires AllApart(was) && Proper(was)
    ensures AllApart(Kept(was)) && Proper(Kept(was))
  {
  }

  lemma UntouchedIsPlaced(was: seq<Block>, b: Block, now: seq<Block>)
    requires AllApart(was) && Proper(was) && b.left < b.right
    requires AllApart(now) && Proper(now) && now != [] && Ascending(now[1..])
    requires forall x: u32 :: Covered(now, x) <==> Covered(Kept(was), x) || b.left <= x < b.right
    requires now[0].left <= b.left && b.right <= now[0].right
    requires forall c :: c in Kept(was) ==> Apart(c, b)
    ensures Placed(was, b, now)
  {
    hide Covered, Kept, Ascending, AllApart, Proper;
    var kept := Kept(was);
    KeptShape(was);
    AppendedApart(kept, b);
    forall x: u32 ensures Covered(now, x) <==> Covered(kept + [b], x) {
      CoveredAppend(kept, b, x);
    }
    SameSetSameBlocks(now, kept + [b]);
    assert now[0] in kept + [b];
  }

  lemma MovedNowhere(s: seq<Block>)
    requires s != []
    ensures MovedDown(s, 0, 0) == s
  {
  }

  lemma SameCoverAt(s: seq<Block>, t: seq<Block>)
    requires SameCover(s, t)
    ensures forall x: u32 :: Covered(s, x) <==> Covered(t, x)
  {
    hide Covered;
  }

  /** Where an element of the rotated list was before. */
  function Origin(r: nat, k: nat): nat {
    if k == 0 then r else if k <= r then k - 1 else k
  }

  lemma RotatedAt(merged: seq<Block>, r: nat, k: nat)
    requires r < |merged| && k < |merged|
    ensures Origin(r, k) < |merged| && MovedDown(merged, 0, r)[k] == merged[Origin(r, k)]
  {
  }

  /** Moving one merged block to the front keeps the set, the gaps and the order of the others. */
  lemma RotatedKeepsValid(merged: seq<Block>, r: nat)
    requires Ascending(merged) && Proper(merged) && r < |merged|
    ensures
      var s := MovedDown(merged, 0, r);
      && Proper(s) && AllApart(s) && Ascending(s[1..]) && SameCover(s, merged)
  {
    hide MovedDown, Proper, Covered;
    var s := MovedDown(merged, 0, r);
    MovedDownPermutes(merged, 0, r);
    CoverOfSame(merged, s);
    forall i, j | 0 <= i < j < |s|
      ensures Apart(s[i], s[j]) && (i > 0 ==> s[i].right < s[j].left)
    {
      RotatedAt(merged, r, i);
      RotatedAt(merged, r, j);
      assert Origin(r, i) < Origin(r, j) || Origin(r, j) < Origin(r, i);
    }
    assert forall i :: 0 <= i < |s| - 1 ==> s[1..][i] == s[i + 1];
  }

  /** What is left of the blocks above a new cumulative acknowledgement. */
  function Trimmed(s: seq<Block>, ack: u32): seq<Block> {
    if s == [] then []
    else
      var b := s[|s| - 1];
      Trimmed(s[..|s| - 1], ack) + if b.right > ack then [b.(left := Max(b.left, ack))] else []
  }

  /** Block by block, in order: what ends at or below the acknowledgement goes, what begins below it
      begins there from now on, and the rest stays. */
  lemma TrimmedBlockByBlock(b: Block, rest: seq<Block>, ack: u32)
    ensures Trimmed([], ack) == []
    ensures Trimmed([b] + rest, ack)
         == (if b.right <= ack then [] else [Block(Max(b.left, ack), b.right)]) + Trimmed(rest, ack)
  {
    hide Trimmed;
    TrimmedStart([b], ack);
    TrimmedStep([b], 0, ack);
    assert [b][..0] == [] && [b][..1] == [b];
    TrimmedAppend([b], rest, ack);
  }

  lemma TrimmedStart(s: seq<Block>, ack: u32)
    ensures Trimmed(s[..0], ack) == []
  {
  }

  lemma TrimmedStep(s: seq<Block>, i: nat, ack: u32)
    requires i < |s|
    ensures Trimmed(s[..i + 1], ack) ==
            if s[i].right > ack then Trimmed(s[..i], ack) + [s[i].(left := Max(s[i].left, ack))]
            else Trimmed(s[..i], ack)
  {
    assert s[..i + 1][..i] == s[..i];
  }

  lemma {:induction false} TrimmedCover(s: seq<Block>, ack: u32)
    ensures forall x: u32 :: Covered(Trimmed(s, ack), x) <==> Covered(s, x) && ack <= x
  {
    hide Covered;
    if s == [] {
      NothingMissing(ack);
    } else {
      var n := |s| - 1;
      var b := s[n];
      assert s == s[..n] + [b];
      TrimmedCover(s[..n], ack);
      assert Trimmed(s[..n], ack) + [] == Trimmed(s[..n], ack);
      forall x: u32 ensures Covered(Trimmed(s, ack), x) <==> Covered(s, x) && ack <= x {
        CoveredAppend(s[..n], b, x);
        CoveredAppend(Trimmed(s[..n], ack), b.(left := Max(b.left, ack)), x);
      }
    }
  }

  lemma {:induction false} TrimmedFrom(s: seq<Block>, ack: u32, c: Block)
    requires c in Trimmed(s, ack)
    ensures exists b :: b in s && b.right == c.right > ack && c.left == Max(b.left, ack)
  {
    if s != [] {
      var n := |s| - 1;
      if c in Trimmed(s[..n], ack) {
        TrimmedFrom(s[..n], ack, c);
        var b :| b in s[..n] && b.right == c.right > ack && c.left == Max(b.left, ack);
        assert b in s;
      } else {
        assert s[n] in s;
      }
    }
  }

  lemma AppendShape(s: seq<Block>, c: Block)
    requires c.left < c.right && Proper(s)
    ensures Proper(s + [c])
    ensures AllApart(s) && (forall b :: b in s ==> Apart(b, c)) ==> AllApart(s + [c])
    ensures Ascending(s) && (forall b :: b in s ==> b.right < c.left) ==> Ascending(s + [c])
  {
  }

  lemma PrefixShape(s: seq<Block>, n: nat)
    requires n <= |s| && Proper(s)
    ensures Proper(s[..n])
    ensures AllApart(s) ==> AllApart(s[..n])
    ensures Ascending(s) ==> Ascending(s[..n])
  {
  }

  /** What the last block keeps stays away from what the earlier blocks keep. */
  lemma TrimmedLast(s: seq<Block>, ack: u32, b: Block)
    requires s != [] && b in Trimmed(s[..|s| - 1], ack)
    ensures
      var last := s[|s| - 1];
      var c := last.(left := Max(last.left, ack));
      && (AllApart(s) ==> Apart(b, c))
      && (Ascending(s) ==> b.right < c.left)
  {
    hide Trimmed;
    var n := |s| - 1;
    TrimmedFrom(s[..n], ack, b);
    var b0 :| b0 in s[..n] && b0.right == b.right > ack && b.left == Max(b0.left, ack);
    var i :| 0 <= i < n && s[i] == b0;
    assert AllApart(s) ==> Apart(s[i], s[n]);
  }

  lemma {:induction false} TrimmedShape(s: seq<Block>, ack: u32)
    requires Proper(s)
    ensures Proper(Trimmed(s, ack)) && |Trimmed(s, ack)| <= |s|
    ensures AllApart(s) ==> AllApart(Trimmed(s, ack))
    ensures Ascending(s) ==> Ascending(Trimmed(s, ack))
  {
    hide Apart;
    if s != [] {
      var n := |s| - 1;
      var front := Trimmed(s[..n], ack);
      PrefixShape(s, n);
      ProperAt(s, s[n]);
      TrimmedShape(s[..n], ack);
      var c := s[n].(left := Max(s[n].left, ack));
      assert Trimmed(s, ack) == if s[n].right > ack then front + [c] else front + [];
      assert front + [] == front;
      hide Proper, AllApart, Ascending, Trimmed;
      if s[n].right > ack {
        forall b | b in front
          ensures AllApart(s) ==> Apart(b, c)
          ensures Ascending(s) ==> b.right < c.left
        {
          TrimmedLast(s, ack, b);
        }
        AppendShape(front, c);
      }
    }
  }

  lemma {:induction false} TrimmedAppend(s: seq<Block>, t: seq<Block>, ack: u32)
    ensures Trimmed(s + t, ack) == Trimmed(s, ack) + Trimmed(t, ack)
    decreases |t|
  {
    if t == [] {
      assert s + t == s;
    } else {
      var n := |t| - 1;
      assert (s + t)[..|s| + n] == s + t[..n];
      TrimmedAppend(s, t[..n], ack);
    }
  }

  lemma TrimmedIsValid(s: seq<Block>, ack: u32)
    requires Proper(s) && AllApart(s) && (s != [] ==> Ascending(s[1..]))
    ensures
      var t := Trimmed(s, ack);
      && Proper(t) && AllApart(t) && |t| <= |s| && (t != [] ==> Ascending(t[1..]))
  {
    hide AllApart, Ascending, Trimmed;
    TrimmedShape(s, ack);
    if s != [] {
      assert s == [s[0]] + s[1..];
      TrimmedShape(s[1..], ack);
      TrimmedAppend([s[0]], s[1..], ack);
      TrimmedOne(s[0], ack);
      var first, rest := Trimmed([s[0]], ack), Trimmed(s[1..], ack);
      TailOfTrimmed(first, rest);
    }
  }

  lemma TrimmedOne(b: Block, ack: u32)
    ensures |Trimmed([b], ack)| <= 1
  {
    assert [b][..0] == [];
  }

  lemma TailOfTrimmed(first: seq<Block>, rest: seq<Block>)
    requires |first| <= 1 && Ascending(rest)
    ensures first + rest != [] ==> Ascending((first + rest)[1..])
  {
    if first == [] {
      assert first + rest == rest;
    } else {
      assert (first + rest)[1..] == rest;
    }
  }

  // ---------------------------------------------------------------- the scoreboard

  class Scoreboard {
    var blocks: array<Block>
    var nblocks: nat
    var cumAck: u32

    ghost function Blocks(): seq<Block>
      reads this, blocks
    {
      if nblocks <= blocks.Length then blocks[..nblocks] else []
    }

    /** Nonempty, separated blocks; all but the most recent one are in ascending order. */
    ghost predicate Valid()
      reads this, blocks
    {
      && blocks.Length == MAX_BLOCKS && nblocks <= MAX_BLOCKS
      && Proper(Blocks()) && AllApart(Blocks())
      && (nblocks > 0 ==> Ascending(Blocks()[1..]))
    }

    constructor (initialAck: u32)
      ensures Valid() && fresh(blocks)
      ensures Blocks() == [] && cumAck == initialAck
    {
      blocks := new Block[MAX_BLOCKS](_ => Block(0, 0));
      nblocks := 0;
      cumAck := initialAck;
    }

    method IsSacked(seqNo: u32) returns (sacked: bool)
      requires Valid()
      ensures sacked <==> Covered(Blocks(), seqNo)
    {
      for i := 0 to nblocks
        invariant forall k :: 0 <= k < i ==> !In(blocks[k], seqNo)
      {
        if seqNo >= blocks[i].left && seqNo < blocks[i].right {
          assert Blocks()[i] in Blocks();
          return true;
        }
      }
      return false;
    }

    /** Adds [left, right). The set becomes the old one (without the last slot's block if all four
        were in use) plus the new range, and block 0 holds that range. */
    method AddBlock(left: u32, right: u32) returns (count: nat)
      requires Valid() && left < right
      modifies this`nblocks, blocks
      ensures Valid() && count == nblocks > 0
      ensures forall x: u32 :: Covered(Blocks(), x) <==> Covered(Kept(old(Blocks())), x) || left <= x < right
      ensures Blocks()[0].left <= left && right <= Blocks()[0].right
      ensures (forall c :: c in Kept(old(Blocks())) ==> Apart(c, Block(left, right))) ==>
                Placed(old(Blocks()), Block(left, right), Blocks())
    {
      hide Covered, Ascending, AllApart, Proper, SameCover;
      ghost var was := Blocks();
      ghost var kept := Kept(was);
      if nblocks < MAX_BLOCKS {
        blocks[nblocks] := Block(left, right);
        nblocks := nblocks + 1;
      } else {
        blocks[MAX_BLOCKS - 1] := Block(left, right);
      }
      assert Blocks() == kept + [Block(left, right)];
      AddedIsProper(was, |kept|, Block(left, right));
      nblocks := MergeBlocks(blocks, nblocks);
      ghost var merged := Blocks();
      AddedCover(merged, kept, Block(left, right));
      var recent := FindRecent(left, right);
      if recent != 0 {
        MoveToFront(recent);
      }
      RotatedAt(merged, recent, 0);
      MovedNowhere(merged);
      hide MovedDown;
      RotatedKeepsValid(merged, recent);
      SameCoverAt(Blocks(), merged);
      hide Placed;
      if forall c :: c in Kept(was) ==> Apart(c, Block(left, right)) {
        UntouchedIsPlaced(was, Block(left, right), Blocks());
      }
      return nblocks;
    }

    /** The first merged block that holds the range. */
    method FindRecent(left: u32, right: u32) returns (recent: nat)
      requires nblocks <= blocks.Length
      requires exists k :: 0 <= k < nblocks && blocks[k].left <= left && right <= blocks[k].right
      ensures recent < nblocks && blocks[recent].left <= left && right <= blocks[recent].right
    {
      recent := 0;
      var i := 0;
      while i < nblocks
        invariant 0 <= i <= nblocks && recent == 0
        invariant exists k :: i <= k < nblocks && blocks[k].left <= left && right <= blocks[k].right
      {
        if blocks[i].left <= left && blocks[i].right >= right {
          return i;
        }
        i := i + 1;
      }
    }

    /** Moves one block to position 0 and the ones before it up by one. */
    method MoveToFront(recent: nat)
      requires recent < nblocks <= blocks.Length
      modifies blocks
      ensures Blocks() == MovedDown(old(Blocks()), 0, recent)
    {
      ghost var was := Blocks();
      var tmp := blocks[recent];
      var i := recent;
      while i > 0
        invariant 0 <= i <= recent
        invariant forall k :: i < k <= recent ==> blocks[k] == was[k - 1]
        invariant forall k :: 0 <= k <= i || recent < k < nblocks ==> blocks[k] == was[k]
      {
        blocks[i] := blocks[i - 1];
        i := i - 1;
      }
      blocks[0] := tmp;
      assert Blocks() == MovedDown(was, 0, recent);
    }

    /** Raises the cumulative acknowledgement (never lowers it): what lies below it leaves the set. */
    method AdvanceCumack(newAck: u32)
      requires Valid()
      modifies this`cumAck, this`nblocks, blocks
      ensures Valid()
      ensures cumAck == Max(old(cumAck), newAck)
      ensures newAck > old(cumAck) ==>
                forall x: u32 :: Covered(Blocks(), x) <==> old(Covered(Blocks(), x)) && newAck <= x
      ensures Blocks() == if newAck <= old(cumAck) then old(Blocks()) else Trimmed(old(Blocks()), newAck)
    {
      hide Covered, Ascending, AllApart, Proper, Trimmed;
      if newAck <= cumAck {
        return;
      }
      cumAck := newAck;
      ghost var was := Blocks();
      ghost var done: seq<Block> := [];
      var write := 0;
      TrimmedStart(was, newAck);
      for i := 0 to nblocks
        invariant 0 <= write <= i && nblocks == old(nblocks) && cumAck == newAck
        invariant done == Trimmed(was[..i], newAck) && |done| == write
        invariant forall k :: 0 <= k < write ==> blocks[k] == done[k]
        invariant forall k :: i <= k < nblocks ==> blocks[k] == was[k]
      {
        TrimmedStep(was, i, newAck);
        if blocks[i].right > newAck {
          if blocks[i].left < newAck {
            blocks[i] := blocks[i].(left := newAck);
          }
          done := done + [blocks[i]];
          blocks[write] := blocks[i];
          write := write + 1;
        }
      }
      nblocks := write;
      assert was[..|was|] == was && Blocks() == done;
      TrimmedIsValid(was, newAck);
      TrimmedCover(was, newAck);
    }

    method SortedCopy() returns (sorted: array<Block>)
      requires Valid()
      ensures fresh(sorted) && sorted.Length == MAX_BLOCKS
      ensures multiset(sorted[..nblocks]) == multiset(Blocks()) && SortedByLeft(sorted[..nblocks])
    {
      hide SortedByLeft;
      sorted := new Block[MAX_BLOCKS](_ => Block(0, 0));
      forall k | 0 <= k < nblocks {
        sorted[k] := blocks[k];
      }
      assert sorted[..nblocks] == Blocks();
      SortBlocks(sorted, nblocks);
    }

    /** Lists the holes in ascending order, the first `holes.Length` of them if there are more. */
    method Holes(holes: array<Block>) returns (count: nat)
      requires Valid() && holes != blocks
      modifies holes
      ensures exists full ::
                && AreHoles(full, Blocks(), cumAck) && |full| <= nblocks
                && count == Min(holes.Length, |full|) && holes[..count] == full[..count]
    {
      hide Covered, Ascending, AllApart, Proper, SortedByLeft, AreHoles, HolesOf;
      var sorted := SortedCopy();
      ghost var s := sorted[..nblocks];
      SortedIsAscending(Blocks(), s);
      ghost var full := HolesOf(s, cumAck);
      HolesOfSorted(Blocks(), s, cumAck);
      count := 0;
      var cursor := cumAck;
      var i := 0;
      ghost var found: seq<Block> := [];
      while i < nblocks && count < holes.Length
        invariant 0 <= i <= nblocks && count == |found| <= holes.Length && sorted[..nblocks] == s
        invariant found + HolesOf(s[i..], cursor) == full
        invariant holes[..count] == found
      {
        HolesStep(s, i, cursor, found);
        assert sorted[i] == s[i];
        if sorted[i].left > cursor {
          holes[count] := Block(cursor, sorted[i].left);
          found := found + [holes[count]];
          count := count + 1;
        }
        if sorted[i].right > cursor {
          cursor := sorted[i].right;
        }
        i := i + 1;
      }
      HolesEnd(s, cursor);
      assert full[..count] == found;
    }
  }
}
