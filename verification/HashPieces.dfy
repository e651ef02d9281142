/** `hash_pieces` of src/create.rs: the hashes of a torrent's pieces, made while its files are read one after another in
    reads of any size. */
module HashPieces {
  import opened Numbers
  import opened Bytes
  import opened Layout

  /** A file: the length it had when the files were listed, whether it can be opened, and what each read of it gives. */
  datatype Entry = Entry(length: nat, opens: bool, parts: seq<Part>)

  /** What one read comes to: bytes, none at the end of the file, or an error. */
  datatype Part = Got(bytes: seq<byte>) | Failed

  datatype Outcome = Hashed(pieces: seq<seq<byte>>) | ChangedWhileReading(entry: nat) | IoError(entry: nat)

  type Hash = seq<byte> -> seq<byte>

  /** What is read of a file: everything before the end or an error. */
  function Read(parts: seq<Part>): seq<byte> {
    if parts == [] || parts[0].Failed? || parts[0].bytes == [] then [] else parts[0].bytes + Read(parts[1..])
  }

  /** No error comes before the end. */
  predicate Readable(parts: seq<Part>) {
    parts == [] || (parts[0].Got? && (parts[0].bytes == [] || Readable(parts[1..])))
  }

  /** What becomes of a file while it is read. */
  datatype Fate = Same | Changed | Unreadable

  /** The fate of a file of which `count` bytes have been read: the first thing to go wrong decides. */
  function FateFrom(length: nat, count: nat, parts: seq<Part>): Fate
    decreases |parts|
  {
    if parts == [] || parts[0] == Got([]) then if count == length then Same else Changed
    else if parts[0].Failed? then Unreadable
    else if count + |parts[0].bytes| > length then Changed
    else FateFrom(length, count + |parts[0].bytes|, parts[1..])
  }

  function FateOf(entry: Entry): Fate {
    if entry.opens then FateFrom(entry.length, 0, entry.parts) else Unreadable
  }

  /** A file that can be read to its end and is as long as it was. */
  predicate Unchanged(entry: Entry) {
    entry.opens && Readable(entry.parts) && |Read(entry.parts)| == entry.length
  }

  lemma {:induction false} FateIsSame(length: nat, count: nat, parts: seq<Part>)
    ensures FateFrom(length, count, parts) == Same <==> Readable(parts) && count + |Read(parts)| == length
    decreases |parts|
  {
    if parts != [] && parts[0].Got? && parts[0].bytes != [] {
      FateIsSame(length, count + |parts[0].bytes|, parts[1..]);
    }
  }

  /** A file's fate is to be the same exactly when it is unchanged. */
  lemma SameIsUnchanged(entry: Entry)
    ensures FateOf(entry) == Same <==> Unchanged(entry)
  {
    FateIsSame(entry.length, 0, entry.parts);
  }

  function ReadAll(entries: seq<Entry>): seq<byte> {
    if entries == [] then [] else ReadAll(entries[..|entries| - 1]) + Read(entries[|entries| - 1].parts)
  }

  function Hashes(hash: Hash, parts: seq<seq<byte>>): (hashes: seq<seq<byte>>)
    ensures |hashes| == |parts|
  {
    seq(|parts|, i requires 0 <= i < |parts| => hash(parts[i]))
  }

  lemma HashesSnoc(hash: Hash, parts: seq<seq<byte>>, last: seq<byte>)
    ensures Hashes(hash, parts + [last]) == Hashes(hash, parts) + [hash(last)]
  {
  }

  // ---- whole pieces and what is left -----------------------------------------------

  /** The pieces of `data` that are full. */
  function FullPieces(data: seq<byte>, size: nat): seq<seq<byte>>
    requires size > 0
    decreases |data|
  {
    if |data| < size then [] else [data[..size]] + FullPieces(data[size..], size)
  }

  /** What is after them. */
  function Remainder(data: seq<byte>, size: nat): seq<byte>
    requires size > 0
    decreases |data|
  {
    if |data| < size then data else Remainder(data[size..], size)
  }

  /** `data` is the whole pieces `done` and then `fed`, less than a piece. */
  ghost predicate CutInto(data: seq<byte>, size: nat, done: seq<seq<byte>>, fed: seq<byte>) {
    && (forall i :: 0 <= i < |done| ==> |done[i]| == size)
    && |fed| < size
    && data == Concat(done) + fed
  }

  lemma {:induction false} ConcatAt(parts: seq<seq<byte>>, size: nat, i: nat)
    requires i < |parts| && forall k :: 0 <= k < |parts| ==> |parts[k]| == size
    ensures (i + 1) * size <= |Concat(parts)| && Concat(parts)[i * size..i * size + size] == parts[i]
    decreases i
  {
    ConcatLength(parts, size);
    MulMono(i + 1, |parts|, size);
    if i > 0 {
      ConcatAt(parts[1..], size, i - 1);
      var rest := Concat(parts[1..]);
      assert i * size == size + (i - 1) * size;
      SliceOfBack(parts[0], rest, (i - 1) * size, i * size);
    }
  }

  lemma {:induction false} ConcatLength(parts: seq<seq<byte>>, size: nat)
    requires forall k :: 0 <= k < |parts| ==> |parts[k]| == size
    ensures |Concat(parts)| == |parts| * size
  {
    if parts != [] {
      ConcatLength(parts[1..], size);
      assert |parts| * size == size + (|parts| - 1) * size;
    }
  }

  /** Whole pieces and what is left are the chunks, in one way only. */
  lemma CutIsChunks(data: seq<byte>, size: nat, done: seq<seq<byte>>, fed: seq<byte>)
    requires size > 0 && CutInto(data, size, done, fed)
    ensures Chunks(data, size) == done + if fed == [] then [] else [fed]
  {
    var all := done + if fed == [] then [] else [fed];
    ConcatLength(done, size);
    assert (|done| + 1) * size == |done| * size + size;
    CeilDivUnique(|data|, size, |all|);
    forall i | 0 <= i < |all|
      ensures Chunks(data, size)[i] == all[i]
    {
      ChunkStarts(|data|, size, i);
      CutChunk(data, size, done, fed, i);
    }
  }

  lemma CutChunk(data: seq<byte>, size: nat, done: seq<seq<byte>>, fed: seq<byte>, i: nat)
    requires size > 0 && CutInto(data, size, done, fed) && i <= |done| && i * size <= |data|
    ensures Chunk(data, size, i) == if i < |done| then done[i] else fed
  {
    ConcatLength(done, size);
    var whole, at := Concat(done), i * size;
    if i < |done| {
      ConcatAt(done, size, i);
      assert (i + 1) * size == at + size;
      SliceOfFront(whole, fed, at, at + size);
    } else {
      BackOf(whole, fed);
    }
  }

  lemma {:induction false} CutFull(data: seq<byte>, size: nat)
    requires size > 0
    ensures CutInto(data, size, FullPieces(data, size), Remainder(data, size))
    decreases |data|
  {
    if |data| >= size {
      CutFull(data[size..], size);
      Assoc3(data[..size], Concat(FullPieces(data[size..], size)), Remainder(data[size..], size));
      assert data == data[..size] + data[size..];
    }
  }

  lemma {:induction false} CutUnique(data: seq<byte>, size: nat, done: seq<seq<byte>>, fed: seq<byte>)
    requires size > 0 && CutInto(data, size, done, fed)
    ensures done == FullPieces(data, size) && fed == Remainder(data, size)
    decreases |done|
  {
    if done != [] {
      var rest := Concat(done[1..]) + fed;
      Assoc3(done[0], Concat(done[1..]), fed);
      FrontAndBack(done[0], rest);
      CutUnique(rest, size, done[1..], fed);
      assert done == [done[0]] + done[1..];
    }
  }

  lemma FrontAndBack(front: seq<byte>, back: seq<byte>)
    ensures (front + back)[..|front|] == front && (front + back)[|front|..] == back
  {
  }

  lemma CutMore(data: seq<byte>, size: nat, done: seq<seq<byte>>, fed: seq<byte>, more: seq<byte>)
    requires CutInto(data, size, done, fed) && |fed| + |more| <= size
    ensures |fed| + |more| < size ==> CutInto(data + more, size, done, fed + more)
    ensures |fed| + |more| == size ==> CutInto(data + more, size, done + [fed + more], [])
  {
    Assoc3(Concat(done), fed, more);
    ConcatSnoc(done, fed + more);
  }

  // ---- the loops -------------------------------------------------------------------

  /** One read: bytes go to the hasher, and each time a piece is full its hash comes out. The hasher is what it has been
      fed since it was last reset; `data` is all that was read before. */
  method HashChunk(hash: Hash, size: nat, chunk: seq<byte>, pieces0: seq<seq<byte>>, fed0: seq<byte>,
                   ghost data: seq<byte>)
    returns (pieces: seq<seq<byte>>, fed: seq<byte>)
    requires size > 0 && pieces0 == Hashes(hash, FullPieces(data, size)) && fed0 == Remainder(data, size)
    ensures pieces == Hashes(hash, FullPieces(data + chunk, size)) && fed == Remainder(data + chunk, size)
  {
    pieces, fed := pieces0, fed0;
    ghost var done := FullPieces(data, size);
    CutFull(data, size);
    var i := 0;
    assert data + chunk[..0] == data;
    while i < |chunk|
      invariant i <= |chunk| && CutInto(data + chunk[..i], size, done, fed) && pieces == Hashes(hash, done)
    {
      var take := Min(size - |fed|, |chunk| - i);
      var more := chunk[i..i + take];
      CutMore(data + chunk[..i], size, done, fed, more);
      assert data + chunk[..i + take] == data + chunk[..i] + more;
      fed := fed + more;
      i := i + take;
      if |fed| == size {
        HashesSnoc(hash, done, fed);
        done := done + [fed];
        pieces := pieces + [hash(fed)];
        fed := [];
      }
    }
    assert chunk[..|chunk|] == chunk;
    CutUnique(data + chunk, size, done, fed);
  }

  /** One file: read until there is no more, or more than there should be, or an error. */
  method HashEntry(hash: Hash, size: nat, entry: Entry, pieces0: seq<seq<byte>>, fed0: seq<byte>, ghost data: seq<byte>)
    returns (fate: Fate, pieces: seq<seq<byte>>, fed: seq<byte>)
    requires size > 0 && pieces0 == Hashes(hash, FullPieces(data, size)) && fed0 == Remainder(data, size)
    ensures fate == FateOf(entry)
    ensures fate == Same ==> pieces == Hashes(hash, FullPieces(data + Read(entry.parts), size))
    ensures fate == Same ==> fed == Remainder(data + Read(entry.parts), size)
  {
    pieces, fed := pieces0, fed0;
    if !entry.opens {
      return Unreadable, pieces, fed;
    }
    var i, count := 0, 0;
    ghost var part := [];
    assert data + part == data && entry.parts[0..] == entry.parts;
    while i < |entry.parts| && entry.parts[i] != Got([])
      invariant i <= |entry.parts| && count == |part| <= entry.length
      invariant part + Read(entry.parts[i..]) == Read(entry.parts)
      invariant FateFrom(entry.length, count, entry.parts[i..]) == FateOf(entry)
      invariant pieces == Hashes(hash, FullPieces(data + part, size)) && fed == Remainder(data + part, size)
    {
      var next := entry.parts[i];
      assert entry.parts[i..][1..] == entry.parts[i + 1..];
      if next.Failed? {
        return Unreadable, pieces, fed;
      }
      count := count + |next.bytes|;
      if count > entry.length {
        return Changed, pieces, fed;
      }
      Assoc3(part, next.bytes, Read(entry.parts[i + 1..]));
      Assoc3(data, part, next.bytes);
      pieces, fed := HashChunk(hash, size, next.bytes, pieces, fed, data + part);
      part := part + next.bytes;
      i := i + 1;
    }
    assert Read(entry.parts[i..]) == [] && part == Read(entry.parts);
    fate := if count == entry.length then Same else Changed;
  }

  /** However the files are read, the hashes are those of the `size`-byte pieces of all of them back to back; unless
      some file cannot be read or is not as long as it was, and then the first such file is named. */
  method HashPieces(hash: Hash, entries: seq<Entry>, size: nat) returns (r: Outcome)
    requires size > 0
    ensures r.Hashed? <==> forall i :: 0 <= i < |entries| ==> Unchanged(entries[i])
    ensures r.Hashed? ==> r.pieces == Hashes(hash, Chunks(ReadAll(entries), size))
    ensures !r.Hashed? ==> r.entry < |entries| && forall i :: 0 <= i < r.entry ==> Unchanged(entries[i])
    ensures r.ChangedWhileReading? ==> FateOf(entries[r.entry]) == Changed
    ensures r.IoError? ==> FateOf(entries[r.entry]) == Unreadable
  {
    var pieces, fed := [], [];
    assert entries[..0] == [];
    for i := 0 to |entries|
      invariant forall k :: 0 <= k < i ==> Unchanged(entries[k])
      invariant pieces == Hashes(hash, FullPieces(ReadAll(entries[..i]), size))
      invariant fed == Remainder(ReadAll(entries[..i]), size)
    {
      var fate;
      assert entries[..i + 1][..i] == entries[..i];
      SameIsUnchanged(entries[i]);
      fate, pieces, fed := HashEntry(hash, size, entries[i], pieces, fed, ReadAll(entries[..i]));
      match fate
      case Same =>
      case Changed => return ChangedWhileReading(i);
      case Unreadable => return IoError(i);
    }
    assert entries[..|entries|] == entries;
    pieces := LastPiece(hash, size, pieces, fed, ReadAll(entries));
    r := Hashed(pieces);
  }

  /** What is left in the hasher at the end is the last piece. */
  method LastPiece(hash: Hash, size: nat, pieces0: seq<seq<byte>>, fed: seq<byte>, ghost data: seq<byte>)
    returns (pieces: seq<seq<byte>>)
    requires size > 0 && pieces0 == Hashes(hash, FullPieces(data, size)) && fed == Remainder(data, size)
    ensures pieces == Hashes(hash, Chunks(data, size))
  {
    pieces := pieces0;
    CutFull(data, size);
    CutIsChunks(data, size, FullPieces(data, size), fed);
    if |fed| > 0 {
      HashesSnoc(hash, FullPieces(data, size), fed);
      pieces := pieces + [hash(fed)];
    }
    assert FullPieces(data, size) + [] == FullPieces(data, size);
  }

  // ---- what the parser and the mirrors make of it ----------------------------------

  function Lengths(entries: seq<Entry>): (lengths: seq<nat>)
    ensures |lengths| == |entries|
  {
    seq(|entries|, i requires 0 <= i < |entries| => entries[i].length)
  }

  lemma {:induction false} ReadAllLength(entries: seq<Entry>, n: nat)
    requires n <= |entries| && forall i :: 0 <= i < |entries| ==> Unchanged(entries[i])
    ensures |ReadAll(entries[..n])| == Start(Lengths(entries), n)
    decreases n
  {
    if n > 0 {
      ReadAllLength(entries, n - 1);
      assert entries[..n][..n - 1] == entries[..n - 1];
      assert Unchanged(entries[n - 1]);
    }
  }

  /** The torrent that is made passes the parser's check, and its piece lengths make sense. */
  lemma MadeIsSensible(hash: Hash, entries: seq<Entry>, size: nat)
    requires size > 0 && forall i :: 0 <= i < |entries| ==> Unchanged(entries[i])
    ensures |Hashes(hash, Chunks(ReadAll(entries), size))| == CeilDiv(Whole(Lengths(entries)), size)
    ensures Sensible(Whole(Lengths(entries)), size, |Hashes(hash, Chunks(ReadAll(entries), size))|)
  {
    ReadAllIsWhole(entries);
    PieceCountExact(Whole(Lengths(entries)), size, CeilDiv(Whole(Lengths(entries)), size));
  }

  lemma {:induction false} FileInPlace(entries: seq<Entry>, n: nat, f: nat)
    requires f < n <= |entries| && forall i :: 0 <= i < |entries| ==> Unchanged(entries[i])
    ensures Start(Lengths(entries), f + 1) <= |ReadAll(entries[..n])|
    ensures ReadAll(entries[..n])[Start(Lengths(entries), f)..Start(Lengths(entries), f + 1)] == Read(entries[f].parts)
    decreases n
  {
    var before, last := ReadAll(entries[..n - 1]), Read(entries[n - 1].parts);
    var from, to := Start(Lengths(entries), f), Start(Lengths(entries), f + 1);
    ReadAllSnoc(entries, n);
    if f == n - 1 {
      ReadAllLength(entries, n - 1);
      assert Unchanged(entries[f]);
      assert to == from + |last|;
      BackOf(before, last);
    } else {
      FileInPlace(entries, n - 1, f);
      SliceOfFront(before, last, from, to);
    }
  }

  lemma ReadAllSnoc(entries: seq<Entry>, n: nat)
    requires 0 < n <= |entries|
    ensures ReadAll(entries[..n]) == ReadAll(entries[..n - 1]) + Read(entries[n - 1].parts)
  {
    assert entries[..n][..n - 1] == entries[..n - 1];
  }

  predicate Within(entries: seq<Entry>, s: Segment) {
    s.file < |entries| && s.offset + s.length <= |Read(entries[s.file].parts)|
  }

  predicate AllWithin(entries: seq<Entry>, segments: seq<Segment>) {
    forall k :: 0 <= k < |segments| ==> Within(entries, segments[k])
  }

  /** The bytes that segments of files stand for. */
  function Fetched(entries: seq<Entry>, segments: seq<Segment>): seq<byte>
    requires AllWithin(entries, segments)
  {
    if segments == [] then []
    else
      var s := segments[0];
      assert Within(entries, segments[0]);
      Read(entries[s.file].parts)[s.offset..s.offset + s.length] + Fetched(entries, segments[1..])
  }

  lemma {:induction false} TilesAreBytes(entries: seq<Entry>, segments: seq<Segment>, a: nat, b: nat)
    requires forall i :: 0 <= i < |entries| ==> Unchanged(entries[i])
    requires Tiles(Lengths(entries), segments, a, b) && b <= |ReadAll(entries)|
    ensures AllWithin(entries, segments)
    ensures a <= b && Fetched(entries, segments) == ReadAll(entries)[a..b]
    decreases |segments|
  {
    if segments != [] {
      var s := segments[0];
      TilesAreBytes(entries, segments[1..], a + s.length, b);
      assert Unchanged(entries[s.file]);
      FetchedCons(entries, segments);
      SegmentBytes(entries, s, a);
      SplitAt(ReadAll(entries), a, a + s.length, b);
    }
  }

  lemma FetchedCons(entries: seq<Entry>, segments: seq<Segment>)
    requires segments != [] && Within(entries, segments[0]) && AllWithin(entries, segments[1..])
    ensures AllWithin(entries, segments)
    ensures var s := segments[0];
      Fetched(entries, segments)
      == Read(entries[s.file].parts)[s.offset..s.offset + s.length] + Fetched(entries, segments[1..])
  {
    forall k | 0 <= k < |segments|
      ensures Within(entries, segments[k])
    {
      if k > 0 { assert Within(entries, segments[1..][k - 1]); }
    }
  }

  lemma SplitAt(data: seq<byte>, a: nat, m: nat, b: nat)
    requires a <= m <= b <= |data|
    ensures data[a..b] == data[a..m] + data[m..b]
  {
  }

  lemma SegmentBytes(entries: seq<Entry>, s: Segment, a: nat)
    requires forall i :: 0 <= i < |entries| ==> Unchanged(entries[i])
    requires Within(entries, s) && Start(Lengths(entries), s.file) + s.offset == a && a + s.length <= |ReadAll(entries)|
    ensures Read(entries[s.file].parts)[s.offset..s.offset + s.length] == ReadAll(entries)[a..a + s.length]
  {
    assert entries[..|entries|] == entries;
    FileInPlace(entries, |entries|, s.file);
    Inside(ReadAll(entries), Start(Lengths(entries), s.file), Start(Lengths(entries), s.file + 1),
           Read(entries[s.file].parts), s.offset, s.length);
  }

  lemma Inside(data: seq<byte>, from: nat, to: nat, part: seq<byte>, offset: nat, length: nat)
    requires from <= to <= |data| && data[from..to] == part && offset + length <= |part|
    ensures part[offset..offset + length] == data[from + offset..from + offset + length]
  {
    SliceOfSlice(data, from, to, offset, offset + length);
  }

  lemma FetchedStretch(entries: seq<Entry>, a: nat, b: nat)
    requires (forall i :: 0 <= i < |entries| ==> Unchanged(entries[i])) && a <= b <= |ReadAll(entries)|
    ensures AllWithin(entries, Scan(Lengths(entries), a, b, 0))
    ensures Fetched(entries, Scan(Lengths(entries), a, b, 0)) == ReadAll(entries)[a..b]
  {
    ReadAllIsWhole(entries);
    ScanTiles(Lengths(entries), a, b);
    TilesAreBytes(entries, Scan(Lengths(entries), a, b, 0), a, b);
  }

  lemma ReadAllIsWhole(entries: seq<Entry>)
    requires forall i :: 0 <= i < |entries| ==> Unchanged(entries[i])
    ensures |ReadAll(entries)| == Whole(Lengths(entries))
  {
    ReadAllLength(entries, |entries|);
    assert entries[..|entries|] == entries;
  }

  /** What a mirror is asked for piece `p`, put together, is what the hash of piece `p` is of. */
  lemma FetchedIsHashed(entries: seq<Entry>, size: nat, p: nat)
    requires size > 0 && forall i :: 0 <= i < |entries| ==> Unchanged(entries[i])
    requires p < CeilDiv(|ReadAll(entries)|, size)
    ensures AllWithin(entries, PieceSegments(Lengths(entries), size, p))
    ensures Fetched(entries, PieceSegments(Lengths(entries), size, p)) == Chunks(ReadAll(entries), size)[p]
  {
    ReadAllIsWhole(entries);
    ChunkAt(ReadAll(entries), size, p);
    PieceStretch(entries, p * size, size);
  }

  lemma PieceStretch(entries: seq<Entry>, a: nat, size: nat)
    requires (forall i :: 0 <= i < |entries| ==> Unchanged(entries[i]))
    requires a < |ReadAll(entries)| == Whole(Lengths(entries))
    ensures var segments := Scan(Lengths(entries), a, Min(a + size, Whole(Lengths(entries))), 0);
      && AllWithin(entries, segments)
      && Fetched(entries, segments) == ReadAll(entries)[a..Min(a + size, |ReadAll(entries)|)]
  {
    FetchedStretch(entries, a, Min(a + size, Whole(Lengths(entries))));
  }

  lemma ChunkAt(data: seq<byte>, size: nat, p: nat)
    requires size > 0 && p < CeilDiv(|data|, size)
    ensures p * size < |data| && Chunks(data, size)[p] == data[p * size..Min(p * size + size, |data|)]
  {
    ChunkStarts(|data|, size, p);
  }
}
