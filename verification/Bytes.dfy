/** Byte strings, and cutting them into equal chunks (`slice::chunks`). */
module Bytes {
  import opened Numbers

  type byte = b: int | 0 <= b < 256

  /** The `i`th chunk of `size` bytes; the last one is as short as it is. */
  function Chunk(data: seq<byte>, size: nat, i: nat): (c: seq<byte>)
    requires size > 0 && i * size <= |data|
  {
    data[i * size..Min(i * size + size, |data|)]
  }

  lemma ChunkStarts(n: nat, size: nat, i: nat)
    requires size > 0 && i < CeilDiv(n, size)
    ensures i * size < n
  {
    CeilDivBounds(n, size);
    MulMono(i, CeilDiv(n, size) - 1, size);
  }

  lemma ChunkExists(n: nat, size: nat, i: nat)
    requires size > 0 && i * size < n
    ensures i < CeilDiv(n, size)
  {
    CeilDivBounds(n, size);
    if i >= CeilDiv(n, size) { MulMono(CeilDiv(n, size), i, size); }
  }

  function Chunks(data: seq<byte>, size: nat): (cs: seq<seq<byte>>)
    requires size > 0
    ensures |cs| == CeilDiv(|data|, size)
  {
    seq(CeilDiv(|data|, size), i requires 0 <= i < CeilDiv(|data|, size) =>
      ChunkStarts(|data|, size, i); Chunk(data, size, i))
  }

  function Concat(parts: seq<seq<byte>>): seq<byte> {
    if parts == [] then [] else parts[0] + Concat(parts[1..])
  }

  lemma {:induction false} ConcatAppend(a: seq<seq<byte>>, b: seq<seq<byte>>)
    ensures Concat(a + b) == Concat(a) + Concat(b)
  {
    if a == [] {
      assert a + b == b;
    } else {
      assert (a + b)[1..] == a[1..] + b;
      ConcatAppend(a[1..], b);
    }
  }

  lemma ConcatSnoc(a: seq<seq<byte>>, x: seq<byte>)
    ensures Concat(a + [x]) == Concat(a) + x
  {
    ConcatAppend(a, [x]);
    assert Concat([x]) == x + Concat([]) == x;
  }

  lemma SliceOfSlice(data: seq<byte>, a: nat, b: nat, c: nat, d: nat)
    requires a <= b <= |data| && c <= d <= b - a
    ensures data[a..b][c..d] == data[a + c..a + d]
  {
    var x, y := data[a..b][c..d], data[a + c..a + d];
    assert |x| == |y|;
    forall i | 0 <= i < |x| ensures x[i] == y[i] {
      assert x[i] == data[a..b][c + i];
    }
  }

  lemma ChunkPlaces(size: nat, w: nat, q: nat, t: nat)
    requires t < w
    ensures (q * w + t) * size == q * (w * size) + t * size
    ensures t * size + size <= w * size
  {
    MulMono(t, w, size);
    assert (q * w + t) * size == q * w * size + t * size;
  }

  /** Cutting a big chunk into small ones gives the same small chunks as cutting the whole. */
  lemma ChunkOfChunk(data: seq<byte>, size: nat, w: nat, q: nat, t: nat)
    requires size > 0 && w * size > 0 && t < w
    requires q * (w * size) <= |data|
    requires t * size <= |Chunk(data, w * size, q)|
    ensures (q * w + t) * size == q * (w * size) + t * size <= |data|
    ensures Chunk(Chunk(data, w * size, q), size, t) == Chunk(data, size, q * w + t)
  {
    ChunkPlaces(size, w, q, t);
    var big, at, off := Chunk(data, w * size, q), q * (w * size), t * size;
    var end := Min(at + w * size, |data|);
    SliceOfSlice(data, at, end, off, Min(off + size, |big|));
  }

  lemma Assoc3<T>(a: seq<T>, b: seq<T>, c: seq<T>)
    ensures a + b + c == a + (b + c)
  {
  }

  lemma Assoc4<T>(a: seq<T>, b: seq<T>, c: seq<T>, d: seq<T>)
    ensures a + b + c + d == a + (b + c + d)
  {
    Assoc3(a, b, c);
    Assoc3(a, b + c, d);
  }

  lemma TailOf<T>(x: T, s: seq<T>)
    ensures ([x] + s)[0] == x && ([x] + s)[1..] == s
  {
  }

  lemma SliceOfFront<T>(front: seq<T>, back: seq<T>, a: nat, b: nat)
    requires a <= b <= |front|
    ensures (front + back)[a..b] == front[a..b]
  {
  }

  lemma SliceOfBack<T>(front: seq<T>, back: seq<T>, a: nat, b: nat)
    requires a <= b <= |back|
    ensures (front + back)[|front| + a..|front| + b] == back[a..b]
  {
  }

  lemma BackOf<T>(front: seq<T>, back: seq<T>)
    ensures (front + back)[|front|..|front + back|] == back
  {
  }

  lemma SliceExtends(data: seq<byte>, a: nat, b: nat)
    requires a <= b <= |data|
    ensures data[..a] + data[a..b] == data[..b]
  {
  }

  /** The chunks put back together are the data. */
  lemma {:induction false} ChunksConcat(data: seq<byte>, size: nat, n: nat)
    requires size > 0 && n <= CeilDiv(|data|, size)
    ensures Concat(Chunks(data, size)[..n]) == data[..Min(n * size, |data|)]
    decreases n
  {
    var cs := Chunks(data, size);
    if n == 0 {
      assert cs[..0] == [];
    } else {
      var at := (n - 1) * size;
      ChunksConcat(data, size, n - 1);
      ChunkStarts(|data|, size, n - 1);
      MulMono(n - 1, n, size);
      assert n * size == at + size;
      assert cs[..n] == cs[..n - 1] + [cs[n - 1]];
      ConcatSnoc(cs[..n - 1], cs[n - 1]);
      SliceExtends(data, at, Min(at + size, |data|));
    }
  }

  /** Data is determined by its chunks. */
  lemma ChunksInjective(a: seq<byte>, b: seq<byte>, size: nat)
    requires size > 0 && Chunks(a, size) == Chunks(b, size)
    ensures a == b
  {
    ChunksWhole(a, size);
    ChunksWhole(b, size);
  }

  lemma ChunksWhole(data: seq<byte>, size: nat)
    requires size > 0
    ensures Concat(Chunks(data, size)) == data
  {
    var n := CeilDiv(|data|, size);
    CeilDivBounds(|data|, size);
    ChunksConcat(data, size, n);
    assert Chunks(data, size)[..n] == Chunks(data, size);
    assert data[..|data|] == data;
  }
}
