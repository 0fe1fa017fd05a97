/** Splitting a list into consecutive pieces of bounded size, as PHP's
    `array_chunk` and Laravel's `Collection::chunk` do for a positive size. */
module Chunking {

  /** The pieces laid end to end. */
  function Flatten<T>(ss: seq<seq<T>>): seq<T> {
    if ss == [] then [] else ss[0] + Flatten(ss[1..])
  }

  /** The number of pieces of size at most n that a list of length len
      needs: len / n rounded up. */
  function CeilDiv(len: nat, n: nat): (r: nat)
    requires n > 0
    ensures (r - 1) * n < len <= r * n || (len == 0 && r == 0)
    decreases len
  {
    if len == 0 then 0
    else if len <= n then 1
    else
      var q := CeilDiv(len - n, n);
      assert (q + 1) * n == q * n + n;
      assert q * n == (q - 1) * n + n;
      q + 1
  }

  /** `array_chunk($s, $n)`: pieces of exactly n elements, except the last,
      which holds what remains; no piece is empty, and together they give
      back the list in order. */
  function Chunk<T>(s: seq<T>, n: nat): (r: seq<seq<T>>)
    requires n > 0
    ensures Flatten(r) == s
    ensures forall i :: 0 <= i < |r| ==> 1 <= |r[i]| <= n
    ensures forall i :: 0 <= i < |r| - 1 ==> |r[i]| == n
    decreases |s|
  {
    if s == [] then []
    else if |s| <= n then
      assert Flatten([s]) == s + Flatten([]);
      [s]
    else
      var rest := Chunk(s[n..], n);
      assert Flatten([s[..n]] + rest) == s[..n] + Flatten(rest) by {
        assert ([s[..n]] + rest)[1..] == rest;
      }
      assert s[..n] + s[n..] == s;
      [s[..n]] + rest
  }

  /** There are len / n pieces, rounded up. */
  lemma {:induction false} ChunkCount<T>(s: seq<T>, n: nat)
    requires n > 0
    ensures |Chunk(s, n)| == CeilDiv(|s|, n)
    decreases |s|
  {
    if |s| > n {
      ChunkCount(s[n..], n);
    }
  }

  /** Laying out one more piece extends the layout by that piece. */
  lemma {:induction false} FlattenSnoc<T>(ss: seq<seq<T>>, x: seq<T>)
    ensures Flatten(ss + [x]) == Flatten(ss) + x
    decreases |ss|
  {
    if ss == [] {
      assert Flatten([x]) == x + Flatten([]);
    } else {
      assert (ss + [x])[1..] == ss[1..] + [x];
      FlattenSnoc(ss[1..], x);
    }
  }

  /** Taking one more element of a list appends it. */
  lemma TakeSnoc<T>(s: seq<T>, j: nat)
    requires j < |s|
    ensures s[..j + 1] == s[..j] + [s[j]]
  {
  }

  /** `Collection::chunk($n)`: the pieces `array_chunk` would give for n of
      at least 1, and no piece at all for a smaller n. */
  function CollectionChunk<T>(s: seq<T>, n: int): (r: seq<seq<T>>)
    ensures n <= 0 ==> r == []
    ensures n > 0 ==> Flatten(r) == s && forall i :: 0 <= i < |r| ==> 1 <= |r[i]| <= n
  {
    if n <= 0 then [] else Chunk(s, n)
  }
}
