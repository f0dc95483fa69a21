/** Flattening of a sequence of blocks, as a receiver reading a channel of
    byte slices sees them: one stream, block after block. */
module Seqs {

  function Concat<T>(blocks: seq<seq<T>>): (s: seq<T>)
    decreases |blocks|
  {
    if blocks == [] then [] else blocks[0] + Concat(blocks[1..])
  }

  /** Flattening distributes over appending block sequences. */
  lemma {:induction false} ConcatAppend<T>(a: seq<seq<T>>, b: seq<seq<T>>)
    ensures Concat(a + b) == Concat(a) + Concat(b)
    decreases |a|
  {
    if a == [] {
      assert a + b == b;
    } else {
      assert (a + b)[0] == a[0];
      assert (a + b)[1..] == a[1..] + b;
      ConcatAppend(a[1..], b);
    }
  }

  /** Sending one more block extends the flattened stream by exactly that block. */
  lemma ConcatSnoc<T>(a: seq<seq<T>>, x: seq<T>)
    ensures Concat(a + [x]) == Concat(a) + x
  {
    ConcatAppend(a, [x]);
    assert Concat([x]) == x + Concat([x][1..]);
    assert [x][1..] == [];
  }

  lemma AppendAssoc<T>(a: seq<T>, b: seq<T>, c: seq<T>)
    ensures a + (b + c) == (a + b) + c
  {
  }
}
