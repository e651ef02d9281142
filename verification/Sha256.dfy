/** The incremental SHA-256 of src/sha256.rs: buffering, whole blocks and padding (FIPS 180-4, sections 5.1.1 and
    6.2.2). The compression of one block is a parameter. */
module Sha256 {
  import opened Numbers
  import opened Bytes

  type Words = seq<nat>

  type Compress = (Words, seq<byte>) -> Words

  const INITIAL: Words := [0x6a09e667, 0xbb67ae85, 0x3c6ef372, 0xa54ff53a, 0x510e527f, 0x9b05688c, 0x1f83d9ab,
                           0x5be0cd19]

  // ---- the standard ---------------------------------------------------------------

  /** The state after every whole 64-byte block of `data` in turn. */
  function FoldBlocks(f: Compress, state: Words, data: seq<byte>): Words
    decreases |data|
  {
    if |data| < 64 then state else FoldBlocks(f, f(state, data[..64]), data[64..])
  }

  /** `n`, in `k` bytes, the most significant first. */
  function BigEndian(n: nat, k: nat): (s: seq<byte>)
    ensures |s| == k
    decreases k, n
  {
    if k == 0 then [] else BigEndian(n / 256, k - 1) + [n % 256]
  }

  function FromBigEndian(s: seq<byte>): nat {
    if s == [] then 0 else 256 * FromBigEndian(s[..|s| - 1]) + s[|s| - 1]
  }

  function Zeros(n: nat): (z: seq<byte>)
    ensures |z| == n
  {
    seq(n, i => 0)
  }

  /** How many zero bytes go between the marker and the length. */
  function ZeroCount(length: nat): nat {
    if length % 64 <= 55 then 55 - length % 64 else 119 - length % 64
  }

  /** What follows a message of `length` bytes: a one bit, zeros, and its length in bits, modulo 2^64. */
  function Tail(length: nat): seq<byte> {
    [0x80] + Zeros(ZeroCount(length)) + BigEndian(8 * length % U64, 8)
  }

  function Padded(m: seq<byte>): seq<byte> {
    m + Tail(|m|)
  }

  /** The digest: the final state, each word most significant byte first. */
  function WordBytes(words: Words): seq<byte> {
    if words == [] then [] else BigEndian(words[0], 4) + WordBytes(words[1..])
  }

  function Digest(f: Compress, m: seq<byte>): seq<byte> {
    WordBytes(FoldBlocks(f, INITIAL, Padded(m)))
  }

  /** `zeros` zero bytes fill the last block of a message of `length` bytes. */
  predicate Fills(length: nat, zeros: nat) {
    (length + 1 + zeros + 8) % 64 == 0
  }

  /** The padding is the standard's: the message, the byte that is a one bit and seven zeros, the fewest zero bytes that
      fill the last block, and the true bit length of any message shorter than 2^64 bits. */
  lemma PaddingIsStandard(m: seq<byte>)
    ensures Fills(|m|, ZeroCount(|m|)) && |Padded(m)| % 64 == 0 && |Padded(m)| == |m| + 1 + ZeroCount(|m|) + 8
    ensures forall j: nat :: Fills(|m|, j) ==> ZeroCount(|m|) <= j
    ensures Padded(m)[..|m|] == m && Padded(m)[|m|] == 128
    ensures forall i :: |m| < i < |Padded(m)| - 8 ==> Padded(m)[i] == 0
    ensures 8 * |m| < U64 ==> FromBigEndian(Padded(m)[|Padded(m)| - 8..]) == 8 * |m|
  {
    ZerosAreFewest(|m|);
    LengthField(m);
    MarkerAndZeros(m);
  }

  lemma MarkerAndZeros(m: seq<byte>)
    ensures |Padded(m)| == |m| + 1 + ZeroCount(|m|) + 8
    ensures Padded(m)[..|m|] == m && Padded(m)[|m|] == 128
    ensures forall i :: |m| < i < |Padded(m)| - 8 ==> Padded(m)[i] == 0
  {
    var zeros, field := Zeros(ZeroCount(|m|)), BigEndian(8 * |m| % U64, 8);
    assert Padded(m) == m + ([0x80] + zeros + field);
  }

  /** The state after one block more is the compression of that block into the state before it. */
  lemma {:induction false} BlockByBlock(f: Compress, state: Words, data: seq<byte>, n: nat)
    requires 64 * n + 64 <= |data|
    ensures FoldBlocks(f, state, data[..0]) == state
    ensures FoldBlocks(f, state, data[..64 * n + 64])
         == f(FoldBlocks(f, state, data[..64 * n]), data[64 * n..64 * n + 64])
    decreases n
  {
    var all := data[..64 * n + 64];
    FirstBlock(data, 64 * n + 64);
    if n == 0 {
      assert all[64..] == [] && data[0..64] == data[..64];
    } else {
      BlockByBlock(f, f(state, data[..64]), data[64..], n - 1);
      FirstBlock(data, 64 * n);
      LaterBlock(data, 64 * n);
    }
  }

  lemma FirstBlock(data: seq<byte>, k: nat)
    requires 64 <= k <= |data|
    ensures data[..k][..64] == data[..64] && data[..k][64..] == data[64..][..k - 64]
  {
  }

  lemma LaterBlock(data: seq<byte>, k: nat)
    requires 64 <= k && k + 64 <= |data|
    ensures data[64..][k - 64..k] == data[k..k + 64]
  {
  }

  lemma FourBytes(w: nat)
    ensures var b := BigEndian(w, 4);
      b[0] == w / 0x100_0000 % 256 && b[1] == w / 0x1_0000 % 256 && b[2] == w / 0x100 % 256 && b[3] == w % 256
  {
    var x, y, z := w / 256, w / 256 / 256, w / 256 / 256 / 256;
    assert BigEndian(z, 1) == BigEndian(z / 256, 0) + [z % 256];
    assert BigEndian(y, 2) == BigEndian(z, 1) + [y % 256];
    assert BigEndian(x, 3) == BigEndian(y, 2) + [x % 256];
    assert BigEndian(w, 4) == BigEndian(x, 3) + [w % 256];
    assert y == w / 0x1_0000 && z == w / 0x100_0000;
  }

  lemma {:induction false} WordAt(words: Words, i: nat)
    requires i < |words|
    ensures |WordBytes(words)| == 4 * |words| && WordBytes(words)[4 * i..4 * i + 4] == BigEndian(words[i], 4)
    decreases |words|
  {
    var first, rest := BigEndian(words[0], 4), WordBytes(words[1..]);
    if |words| > 1 {
      WordAt(words[1..], if i == 0 then 0 else i - 1);
    }
    if i == 0 {
      assert (first + rest)[0..4] == first;
    } else {
      assert (first + rest)[4 * i..4 * i + 4] == rest[4 * (i - 1)..4 * (i - 1) + 4];
    }
  }

  /** The digest is the words of the last state one after another, each of them the most significant byte first. */
  lemma DigestIsWords(f: Compress, m: seq<byte>, i: nat)
    requires i < |FoldBlocks(f, INITIAL, Padded(m))|
    ensures var words := FoldBlocks(f, INITIAL, Padded(m)); var d := Digest(f, m);
      && |d| == 4 * |words| && d[4 * i] == words[i] / 0x100_0000 % 256 && d[4 * i + 1] == words[i] / 0x1_0000 % 256
      && d[4 * i + 2] == words[i] / 0x100 % 256 && d[4 * i + 3] == words[i] % 256
  {
    var words, d := FoldBlocks(f, INITIAL, Padded(m)), Digest(f, m);
    WordAt(words, i);
    FourBytes(words[i]);
    var b := d[4 * i..4 * i + 4];
    assert b[0] == d[4 * i] && b[1] == d[4 * i + 1] && b[2] == d[4 * i + 2] && b[3] == d[4 * i + 3];
  }

  /** `word` is the first 32 bits of the fractional part of the square root of `p`, whose whole part is `whole`. */
  predicate IsRootFraction(p: nat, whole: nat, word: nat) {
    var n := whole * 0x1_0000_0000 + word;
    word < 0x1_0000_0000 && n * n <= p * U64 < (n + 1) * (n + 1)
  }

  /** The state to begin with is the standard's (FIPS 180-4, section 5.3.3): from the square roots of the first eight
      primes. */
  lemma InitialIsStandard()
    ensures |INITIAL| == 8
    ensures IsRootFraction(2, 1, INITIAL[0]) && IsRootFraction(3, 1, INITIAL[1]) && IsRootFraction(5, 2, INITIAL[2])
    ensures IsRootFraction(7, 2, INITIAL[3]) && IsRootFraction(11, 3, INITIAL[4]) && IsRootFraction(13, 3, INITIAL[5])
    ensures IsRootFraction(17, 4, INITIAL[6]) && IsRootFraction(19, 4, INITIAL[7])
  {
  }

  /** No two messages shorter than 2^64 bits have the same padded form. */
  lemma PaddingInjective(a: seq<byte>, b: seq<byte>)
    requires 8 * |a| < U64 && 8 * |b| < U64 && Padded(a) == Padded(b)
    ensures a == b
  {
    SameLength(a, b, Padded(a));
    SameStart(a, Tail(|a|), b, Tail(|b|));
  }

  lemma SameLength(a: seq<byte>, b: seq<byte>, p: seq<byte>)
    requires 8 * |a| < U64 && 8 * |b| < U64 && p == Padded(a) && p == Padded(b)
    ensures |a| == |b|
  {
    LengthField(a);
    LengthField(b);
    assert 8 * |a| == FromBigEndian(p[|p| - 8..]) == 8 * |b|;
  }

  lemma ZerosAreFewest(n: nat)
    ensures Fills(n, ZeroCount(n)) && forall j: nat :: Fills(n, j) ==> ZeroCount(n) <= j
  {
  }

  lemma LengthField(m: seq<byte>)
    ensures 8 <= |Padded(m)|
    ensures 8 * |m| < U64 ==> FromBigEndian(Padded(m)[|Padded(m)| - 8..]) == 8 * |m|
  {
    TailField(|m|);
    FieldAfter(m, Tail(|m|));
  }

  lemma FieldAfter(m: seq<byte>, tail: seq<byte>)
    requires |tail| >= 8
    ensures FromBigEndian((m + tail)[|m + tail| - 8..]) == FromBigEndian(tail[|tail| - 8..])
  {
    EndOf(m, tail, 8);
  }

  lemma TailField(length: nat)
    ensures |Tail(length)| == 9 + ZeroCount(length)
    ensures FromBigEndian(Tail(length)[|Tail(length)| - 8..]) == 8 * length % U64
  {
    var field := BigEndian(8 * length % U64, 8);
    EndOf([0x80] + Zeros(ZeroCount(length)), field, 8);
    assert field[0..] == field;
    FieldReads(8 * length % U64);
  }

  lemma FieldReads(n: nat)
    requires n < U64
    ensures FromBigEndian(BigEndian(n, 8)) == n
  {
    Power8();
    BigEndianReadBack(n, 8);
  }

  lemma EndOf(a: seq<byte>, b: seq<byte>, k: nat)
    requires k <= |b|
    ensures (a + b)[|a + b| - k..] == b[|b| - k..]
  {
  }

  lemma SameStart(a: seq<byte>, x: seq<byte>, b: seq<byte>, y: seq<byte>)
    requires |a| == |b| && a + x == b + y
    ensures a == b
  {
    assert a == (a + x)[..|a|];
    assert b == (b + y)[..|b|];
  }

  lemma Power8()
    ensures Power256(8) == U64
  {
    assert Power256(4) == 0x1_0000_0000;
    assert Power256(8) == 256 * (256 * (256 * (256 * Power256(4))));
  }

  function Power256(k: nat): nat {
    if k == 0 then 1 else 256 * Power256(k - 1)
  }

  lemma {:induction false} BigEndianReadBack(n: nat, k: nat)
    requires n < Power256(k)
    ensures FromBigEndian(BigEndian(n, k)) == n
    decreases k
  {
    if k > 0 {
      BigEndianReadBack(n / 256, k - 1);
      var s := BigEndian(n, k);
      assert s[..k - 1] == BigEndian(n / 256, k - 1);
    }
  }

  lemma {:induction false} FoldAppend(f: Compress, state: Words, a: seq<byte>, b: seq<byte>, n: nat)
    requires |a| == 64 * n
    ensures FoldBlocks(f, state, a + b) == FoldBlocks(f, FoldBlocks(f, state, a), b)
    decreases n
  {
    if n == 0 {
      assert a + b == b;
    } else {
      assert (a + b)[..64] == a[..64] && (a + b)[64..] == a[64..] + b;
      FoldAppend(f, f(state, a[..64]), a[64..], b, n - 1);
    }
  }

  lemma FoldOne(f: Compress, state: Words, a: seq<byte>, block: seq<byte>, n: nat)
    requires |a| == 64 * n && |block| == 64
    ensures FoldBlocks(f, state, a + block) == f(FoldBlocks(f, state, a), block)
  {
    FoldAppend(f, state, a, block, n);
    assert block[..64] == block && block[64..] == [];
  }

  /** What is left over after the whole blocks changes nothing. */
  lemma FoldRest(f: Compress, state: Words, a: seq<byte>, rest: seq<byte>, n: nat)
    requires |a| == 64 * n && |rest| < 64
    ensures FoldBlocks(f, state, a + rest) == FoldBlocks(f, state, a)
  {
    FoldAppend(f, state, a, rest, n);
  }

  lemma WrapAdd(a: nat, b: nat)
    ensures (a % U64 + b) % U64 == (a + b) % U64
  {
    var q := a / U64;
    assert a + b == q * U64 + (a % U64 + b);
  }

  // ---- the hasher ------------------------------------------------------------------

  class Hasher {
    const compress: Compress
    const buffer: array<byte>
    var state: Words
    var buffered: nat
    var length: nat
    /** The bytes compressed so far, and how many blocks of them there are. */
    ghost var done: seq<byte>
    ghost var blocks: nat

    /** The state is that of the blocks done; `n` bytes are counted. */
    ghost predicate Counts(n: nat)
      reads this
    {
      && buffer.Length == 64 && buffered < 64
      && |done| == 64 * blocks && state == FoldBlocks(compress, INITIAL, done)
      && length == n % U64
    }

    ghost predicate Valid()
      reads this, buffer
    {
      Counts(|Message()|)
    }

    /** Everything fed in so far. */
    ghost function Message(): seq<byte>
      reads this, buffer
    {
      done + buffer[..Min(buffered, buffer.Length)]
    }

    constructor (compress: Compress)
      ensures Valid() && fresh(buffer) && this.compress == compress && Message() == []
    {
      this.compress := compress;
      buffer := new byte[64](i => 0);
      state, buffered, length, done, blocks := INITIAL, 0, 0, [], 0;
    }

    /** Copies `data` into the buffer from `at`. */
    method Fill(at: nat, data: seq<byte>)
      requires buffer.Length == 64 && at + |data| <= 64
      modifies buffer
      ensures buffer[..at + |data|] == old(buffer[..at]) + data
    {
      for i := 0 to |data|
        invariant buffer[..at + i] == old(buffer[..at]) + data[..i]
      {
        buffer[at + i] := data[i];
      }
    }

    /** One block into the state. */
    method Absorb(block: seq<byte>, ghost n: nat)
      requires |block| == 64 && Counts(n)
      modifies this`state, this`done, this`blocks
      ensures Counts(n) && done == old(done) + block
    {
      FoldOne(compress, INITIAL, done, block, blocks);
      state := compress(state, block);
      done := done + block;
      blocks := blocks + 1;
    }

    /** The whole blocks of `data`, straight into the state; what is left goes into the empty buffer. */
    method Blocks(data: seq<byte>)
      requires buffered == 0 && Counts(|done| + |data|)
      modifies this, buffer
      ensures Valid() && Message() == old(done) + data
    {
      var i := 0;
      ghost var before := done;
      while i + 64 <= |data|
        invariant i <= |data| && buffered == 0 && Counts(|before| + |data|)
        invariant done == before + data[..i]
      {
        Absorb(data[i..i + 64], |before| + |data|);
        SliceExtends(data, i, i + 64);
        Assoc3(before, data[..i], data[i..i + 64]);
        i := i + 64;
      }
      Fill(0, data[i..]);
      buffered := |data| - i;
      Assoc3(before, data[..i], data[i..]);
      assert data == data[..i] + data[i..];
    }

    method Update(data: seq<byte>)
      requires Valid()
      modifies this, buffer
      ensures Valid() && Message() == old(Message()) + data && length == (old(length) + |data|) % U64
    {
      ghost var m := Message();
      WrapAdd(|m|, |data|);
      length := (length + |data|) % U64;
      if buffered == 0 {
        assert m == done;
        Blocks(data);
      } else {
        TopUp(data, m);
      }
    }

    /** A buffer with something in it is filled up first, and compressed when it is full. */
    method TopUp(data: seq<byte>, ghost m: seq<byte>)
      requires buffered > 0 && m == Message() && Counts(|m| + |data|)
      modifies this, buffer
      ensures Valid() && Message() == m + data && length == old(length)
    {
      var take := Min(64 - buffered, |data|);
      Fill(buffered, data[..take]);
      assert data == data[..take] + data[take..];
      if buffered + take < 64 {
        buffered := buffered + take;
        assert Message() == m + data;
        return;
      }
      var block := buffer[..];
      assert done + block == m + data[..take];
      buffered := 0;
      Absorb(block, |m| + |data|);
      Blocks(data[take..]);
    }

    /** The digest of everything fed in; the padding leaves the buffer empty. */
    method Finalize() returns (out: seq<byte>)
      requires Valid()
      modifies this, buffer
      ensures out == Digest(compress, old(Message())) && buffered == 0 && length == old(length)
    {
      ghost var m := Message();
      var bits := length * 8 % U64;
      var tail := [0x80] + Zeros((119 - buffered) % 64) + BigEndian(bits, 8);
      var kept := length;
      BitsOfLength(|m|);
      TailOfMessage(|m|, blocks, buffered);
      Update(tail);
      assert Message() == Padded(m);
      length := kept;
      PaddingIsStandard(m);
      NothingLeft(|Padded(m)|, blocks, buffered);
      FoldRest(compress, INITIAL, done, buffer[..buffered], blocks);
      out := [];
      for i := 0 to |state|
        invariant out + WordBytes(state[i..]) == WordBytes(state)
      {
        assert state[i..][1..] == state[i + 1..];
        out := out + BigEndian(state[i], 4);
      }
    }
  }

  lemma TailOfMessage(n: nat, blocks: nat, buffered: nat)
    requires n == 64 * blocks + buffered && buffered < 64
    ensures (119 - buffered) % 64 == ZeroCount(n)
  {
    assert n % 64 == buffered;
  }

  lemma NothingLeft(n: nat, blocks: nat, buffered: nat)
    requires n == 64 * blocks + buffered && buffered < 64 && n % 64 == 0
    ensures buffered == 0
  {
  }

  lemma BitsOfLength(n: nat)
    ensures (n % U64) * 8 % U64 == 8 * n % U64
  {
    var q := n / U64;
    assert n == q * U64 + n % U64;
    assert 8 * n == (8 * q) * U64 + 8 * (n % U64);
  }

  /** However a message is split, feeding in the parts gives the digest of the whole. */
  method HashParts(compress: Compress, parts: seq<seq<byte>>) returns (out: seq<byte>)
    ensures out == Digest(compress, Concat(parts))
  {
    var hasher := new Hasher(compress);
    for i := 0 to |parts|
      invariant hasher.Valid() && fresh(hasher) && fresh(hasher.buffer) && hasher.compress == compress
      invariant hasher.Message() == Concat(parts[..i])
    {
      assert parts[..i + 1] == parts[..i] + [parts[i]];
      ConcatSnoc(parts[..i], parts[i]);
      hasher.Update(parts[i]);
    }
    assert parts[..|parts|] == parts;
    out := hasher.Finalize();
  }

  /** `parent` of src/v2.rs: the hash of two hashes one after the other. */
  method Parent(compress: Compress, left: seq<byte>, right: seq<byte>) returns (out: seq<byte>)
    ensures out == Digest(compress, left + right)
  {
    assert Concat([left, right]) == left + right by {
      ConcatSnoc([left], right);
      ConcatSnoc([], left);
      assert [left] + [right] == [left, right] && [] + [left] == [left];
    }
    out := HashParts(compress, [left, right]);
  }
}
