/** Rust's `slice::chunks(4)` on byte buffers. */
module Slices {
  import opened Models

  function Min(a: int, b: int): int
  {
    if a < b then a else b
  }

  /**
   * The chunks `data.chunks(4)` yields, in order: consecutive four-byte windows, the
   * last one shorter when the length is not a multiple of four.
   */
  function Chunks(data: seq<Byte>): seq<seq<Byte>>
    decreases |data|
  {
    if |data| == 0 then []
    else if |data| <= 4 then [data]
    else [data[..4]] + Chunks(data[4..])
  }

  /** There are ceil(|data| / 4) chunks, and chunk k covers bytes 4k up to 4k + 4 or the end. */
  lemma {:induction false} ChunksAt(data: seq<Byte>, k: nat)
    ensures |Chunks(data)| == (|data| + 3) / 4
    ensures k < |Chunks(data)| ==> Chunks(data)[k] == data[4 * k .. Min(4 * k + 4, |data|)]
    decreases |data|
  {
    if |data| > 4 {
      ChunksAt(data[4..], if k == 0 then 0 else k - 1);
      if 0 < k < |Chunks(data)| {
        assert Chunks(data)[k] == Chunks(data[4..])[k - 1];
        assert data[4..][4 * (k - 1) .. Min(4 * (k - 1) + 4, |data| - 4)] == data[4 * k .. Min(4 * k + 4, |data|)];
      }
    }
  }

  /** Only the last chunk can be short: every chunk before a four-aligned split point is whole. */
  lemma {:induction false} ChunksAppend(a: seq<Byte>, b: seq<Byte>)
    requires |a| % 4 == 0
    ensures Chunks(a + b) == Chunks(a) + Chunks(b)
    decreases |a|
  {
    if |a| == 0 {
      assert a + b == b;
    } else if |a + b| <= 4 {
      assert b == [] && a + b == a;
    } else {
      assert (a + b)[..4] == a[..4];
      assert (a + b)[4..] == a[4..] + b;
      ChunksAppend(a[4..], b);
      if |a| == 4 {
        assert a[4..] == [] && a[..4] == a;
      }
    }
  }
}
