/** A block of work and what it means for blocks to tile a span. Times are whole seconds. */
module Blocks {

  datatype Reason = SessionStart | Detected | Budget | BoundDeferred | SessionEnd | SessionEndDeferred | Idle

  datatype Block = Block(start: int, end: int, startReason: Reason, endReason: Reason)

  // Positive-length blocks, in order, not overlapping; gaps are allowed.
  ghost predicate Ordered(bs: seq<Block>) {
    && (forall i | 0 <= i < |bs| :: bs[i].start < bs[i].end)
    && (forall i, j | 0 <= i < j < |bs| :: bs[i].end <= bs[j].start)
  }

  // Contiguous positive-length blocks from lo to hi.
  ghost predicate Tiles(bs: seq<Block>, lo: int, hi: int) {
    && (bs == [] <==> hi <= lo)
    && (bs != [] ==> bs[0].start == lo && bs[|bs| - 1].end == hi)
    && Contiguous(bs)
  }

  // Each block starts for the reason the previous one ended.
  ghost predicate Chained(bs: seq<Block>) {
    forall i, j | 0 <= i < j < |bs| && j == i + 1 :: bs[j].startReason == bs[i].endReason
  }

  predicate EndsSpan(r: Reason) { r == SessionEnd || r == SessionEndDeferred }

  ghost predicate Contiguous(bs: seq<Block>) {
    && (forall i | 0 <= i < |bs| :: bs[i].start < bs[i].end)
    && (forall i, j | 0 <= i < j < |bs| && j == i + 1 :: bs[i].end == bs[j].start)
  }

  lemma {:induction false} ContiguousAreOrdered(bs: seq<Block>)
    requires Contiguous(bs)
    ensures Ordered(bs)
    ensures forall i | 0 <= i < |bs| :: bs[0].start <= bs[i].start && bs[i].end <= bs[|bs| - 1].end
  {
    if |bs| > 1 {
      var rest := bs[1..];
      assert forall i | 0 <= i < |rest| :: rest[i] == bs[i + 1];
      ContiguousAreOrdered(rest);
      assert forall i | 1 <= i < |bs| :: bs[i] == rest[i - 1];
    }
  }

  lemma TilesAreOrdered(bs: seq<Block>, lo: int, hi: int)
    requires Tiles(bs, lo, hi)
    ensures Ordered(bs)
    ensures forall i | 0 <= i < |bs| :: lo <= bs[i].start && bs[i].end <= hi
  {
    ContiguousAreOrdered(bs);
  }

  // x lies in the block's (start, end].
  predicate Closes(b: Block, x: int) { b.start < x <= b.end }

  // x lies in the block's [start, end).
  predicate Holds(b: Block, x: int) { b.start <= x < b.end }

  /** In a tiling every instant of (lo, hi] lies in exactly one block's (start, end]. */
  lemma {:induction false} TilesPlaceOnce(bs: seq<Block>, lo: int, hi: int, x: int)
    requires Tiles(bs, lo, hi) && lo < x <= hi
    ensures exists i :: 0 <= i < |bs| && Closes(bs[i], x)
    ensures forall i, j | 0 <= i < |bs| && 0 <= j < |bs| && Closes(bs[i], x) && Closes(bs[j], x) :: i == j
  {
    TilesAreOrdered(bs, lo, hi);
    var i := 0;
    while bs[i].end < x
      invariant 0 <= i < |bs| && bs[i].start < x
      decreases |bs| - i
    {
      i := i + 1;
    }
    assert Closes(bs[i], x);
  }
}
