/** Torrents that are accepted, and saved, and are not what is read back: the inputs that show where the conditions of
    SavedTorrents are needed (src/torrent.rs, src/create.rs). */
module LostTorrents {
  import opened Numbers
  import opened Bytes
  import opened Bencode
  import opened BencodeProofs
  import opened Torrents
  import opened TorrentFields
  import opened FileTrees
  import opened SavedTorrents
  import Layout
  import HashFile
  import PiecePlan

  // ---- dictionaries by their fields ------------------------------------------------

  function Fields(keys: seq<Key>, values: seq<Value>): (entries: seq<Entry>)
    requires |keys| == |values|
    ensures |entries| == |keys|
  {
    seq(|keys|, i requires 0 <= i < |keys| => Entry(KeyOf(keys[i]), values[i]))
  }

  predicate InOrder(keys: seq<Key>) {
    forall i :: 0 <= i < |keys| - 1 ==> LexLess(KeyOf(keys[i]), KeyOf(keys[i + 1]))
  }

  lemma {:induction false} FieldsNest(last: Option<seq<byte>>, keys: seq<Key>, values: seq<Value>)
    requires |keys| == |values| && InOrder(keys) && WellFormedItems(values)
    requires last.Some? && keys != [] ==> LexLess(last.value, KeyOf(keys[0]))
    ensures SortedFrom(last, Fields(keys, values)) && WellFormedEntries(Fields(keys, values))
    ensures NestEntries(Fields(keys, values)) == NestItems(values)
    decreases |keys|
  {
    if keys != [] {
      KeyFits(keys[0]);
      forall i | 0 <= i < |keys[1..]| - 1 ensures LexLess(KeyOf(keys[1..][i]), KeyOf(keys[1..][i + 1])) {
        assert LexLess(KeyOf(keys[i + 1]), KeyOf(keys[i + 2]));
      }
      FieldsNest(Some(KeyOf(keys[0])), keys[1..], values[1..]);
      assert Fields(keys, values)[1..] == Fields(keys[1..], values[1..]);
    }
  }

  predicate Distinct(keys: seq<Key>) {
    forall i, j :: 0 <= i < j < |keys| ==> keys[i] != keys[j]
  }

  /** The field at a place of a dictionary. */
  lemma FieldAt(keys: seq<Key>, values: seq<Value>, n: nat)
    requires n < |keys| == |values| && Distinct(keys)
    ensures Get(Dict(Fields(keys, values)), keys[n]) == Some(values[n])
  {
    var entries := Fields(keys, values);
    forall i | 0 <= i < n ensures entries[i].key != entries[n].key {
      KeysDiffer(keys[i], keys[n]);
    }
    LookupAt(entries, n);
  }

  lemma {:induction false} LookupAt(m: seq<Entry>, n: nat)
    requires n < |m| && forall i :: 0 <= i < n ==> m[i].key != m[n].key
    ensures Lookup(m, m[n].key) == Some(m[n].value)
    decreases n
  {
    if n > 0 {
      LookupAt(m[1..], n - 1);
    }
  }

  lemma NoField(keys: seq<Key>, values: seq<Value>, key: Key)
    requires |keys| == |values| && key !in keys
    ensures Get(Dict(Fields(keys, values)), key) == None
  {
    var entries := Fields(keys, values);
    forall i | 0 <= i < |entries| ensures entries[i].key != KeyOf(key) {
      KeysDiffer(keys[i], key);
    }
    AbsentKey(entries, KeyOf(key));
  }

  lemma KeysInOrder()
    ensures LexLess(KeyOf(FileTree), KeyOf(Length)) && LexLess(KeyOf(Length), KeyOf(MetaVersion))
    ensures LexLess(KeyOf(Length), KeyOf(Name)) && LexLess(KeyOf(MetaVersion), KeyOf(Name))
    ensures LexLess(KeyOf(Name), KeyOf(PieceLength)) && LexLess(KeyOf(PieceLength), KeyOf(Pieces))
    ensures LexLess(KeyOf(Pieces), KeyOf(Other))
  {
    assert KeyOf(FileTree)[0] < KeyOf(Length)[0] < KeyOf(MetaVersion)[0] < KeyOf(Name)[0] < KeyOf(PieceLength)[0];
    assert KeyOf(Pieces)[0] < KeyOf(Other)[0];
    var a, b := KeyOf(PieceLength), KeyOf(Pieces);
    assert a[0] == b[0] && a[1..][0] == b[1..][0] && a[2..][0] == b[2..][0] && a[3..][0] == b[3..][0];
    assert a[4..][0] == b[4..][0];
    assert a[5..][0] < b[5..][0];
    LexFrom(a, b, 5);
  }

  lemma {:induction false} LexFrom(a: seq<byte>, b: seq<byte>, n: nat)
    requires n < |a| && n < |b| && a[..n] == b[..n] && a[n] < b[n]
    ensures LexLess(a, b)
    decreases n
  {
    if n > 0 {
      assert a[0] == a[..n][0] && b[0] == b[..n][0];
      assert a[1..][..n - 1] == a[..n][1..] && b[1..][..n - 1] == b[..n][1..];
      LexFrom(a[1..], b[1..], n - 1);
    }
  }

  /** A name that a file may have. */
  predicate Named(judge: Judge, name: seq<byte>) {
    judge.text(name) && judge.safe(name) && 0 < |name| <= I64_MAX
  }

  /** One empty file will do as a v1 torrent. */
  lemma EmptyFileAccepted(judge: Judge, info: Value, name: seq<byte>)
    requires Named(judge, name)
    requires Get(info, Length) == Some(Int(0)) && Get(info, Name) == Some(ByteString(name))
    requires Get(info, PieceLength) == Some(Int(16384)) && Get(info, Pieces) == Some(ByteString([]))
    ensures V1Accepts(judge, info)
  {
    assert Layout.Start([0], 1) == Layout.Start([0], 0) + 0;
    assert FileLengths(judge, info) == Some([0]);
    assert Layout.Whole([0]) == 0 && CeilDiv(0, 16384) == 0;
  }

  // ---- too deep to be read again ---------------------------------------------------

  function DeepList(n: nat): Value {
    if n == 0 then List([]) else List([DeepList(n - 1)])
  }

  lemma {:induction false} DeepListNests(n: nat)
    ensures WellFormed(DeepList(n)) && Nest(DeepList(n)) == n + 1
  {
    if n > 0 {
      DeepListNests(n - 1);
      TailOf(DeepList(n - 1), []);
      assert [DeepList(n - 1)] == [DeepList(n - 1)] + [];
    }
  }

  function DeepKeys(): seq<Key> {
    [Length, Name, PieceLength, Pieces, Other]
  }

  function DeepValues(name: seq<byte>, n: nat): seq<Value> {
    [Int(0), ByteString(name), Int(16384), ByteString([]), DeepList(n)]
  }

  /** One empty file, and a key nobody reads that holds a list nested `n + 1` deep. */
  function DeepInfo(name: seq<byte>, n: nat): Value {
    Dict(Fields(DeepKeys(), DeepValues(name, n)))
  }

  /** Values that do not nest, and one more. */
  lemma {:induction false} FlatThen(flat: seq<Value>, v: Value)
    requires (forall i :: 0 <= i < |flat| ==> WellFormed(flat[i]) && Nest(flat[i]) == 0) && WellFormed(v)
    ensures WellFormedItems(flat + [v]) && NestItems(flat + [v]) == Nest(v)
    decreases |flat|
  {
    if flat == [] {
      assert flat + [v] == [v] && [v][1..] == [];
    } else {
      FlatThen(flat[1..], v);
      assert (flat + [v])[1..] == flat[1..] + [v];
    }
  }

  lemma DeepInfoNests(name: seq<byte>, n: nat)
    requires |name| <= I64_MAX
    ensures WellFormed(DeepInfo(name, n)) && Nest(DeepInfo(name, n)) == n + 2
  {
    KeysInOrder();
    DeepListNests(n);
    var flat := [Int(0), ByteString(name), Int(16384), ByteString([])];
    FlatThen(flat, DeepList(n));
    assert DeepValues(name, n) == flat + [DeepList(n)];
    FieldsNest(None, DeepKeys(), DeepValues(name, n));
  }

  lemma DeepFields(name: seq<byte>, n: nat)
    ensures var info := DeepInfo(name, n);
      && Get(info, Length) == Some(Int(0)) && Get(info, Name) == Some(ByteString(name))
      && Get(info, PieceLength) == Some(Int(16384)) && Get(info, Pieces) == Some(ByteString([]))
  {
    var keys, values := DeepKeys(), DeepValues(name, n);
    FieldAt(keys, values, 0);
    FieldAt(keys, values, 1);
    FieldAt(keys, values, 2);
    FieldAt(keys, values, 3);
  }

  lemma DeepAccepted(judge: Judge, name: seq<byte>, n: nat)
    requires Named(judge, name)
    ensures V1Accepts(judge, DeepInfo(name, n)) && !UnknownVersion(DeepInfo(name, n)) && !HasFileTree(DeepInfo(name, n))
  {
    DeepFields(name, n);
    EmptyFileAccepted(judge, DeepInfo(name, n), name);
    DeepHasNoVersion(name, n);
  }

  lemma DeepHasNoVersion(name: seq<byte>, n: nat)
    ensures Get(DeepInfo(name, n), MetaVersion) == None
  {
    NoField(DeepKeys(), DeepValues(name, n), MetaVersion);
  }

  /** Whatever the hashes, accepted from a peer and written out, and the file cannot be read. */
  lemma DeepInfoIsLost(h: Hashes, judge: Judge, name: seq<byte>, n: nat)
    requires Named(judge, name) && n + 2 == MAX_DEPTH
    ensures var raw := Encode(DeepInfo(name, n));
      && FromInfoBytes(h, judge, raw, h.sha1(raw), None, []).Success?
      && var t := FromInfoBytes(h, judge, raw, h.sha1(raw), None, []).value;
      && t.info == DeepInfo(name, n) && TorrentFileBytes(h, t).Some?
      && ParseTorrent(h, judge, TorrentFileBytes(h, t).value) == Failure(Decoding(TooDeep))
  {
    var raw := Encode(DeepInfo(name, n));
    DeepInfoNests(name, n);
    DecodeEncoded(DeepInfo(name, n), true);
    DeepAccepted(judge, name, n);
    SavedReadsBack(h, judge, raw, h.sha1(raw), None, []);
  }

  // ---- a hybrid with layers --------------------------------------------------------

  /** A tree of one empty file. */
  function SmallTree(name: seq<byte>): Value {
    Dict([Entry(name, Dict([Entry([], Dict(Fields([Length], [Int(0)])))]))])
  }

  function HybridKeys(): seq<Key> {
    [FileTree, Length, MetaVersion, Name, PieceLength, Pieces]
  }

  function HybridValues(name: seq<byte>): seq<Value> {
    [SmallTree(name), Int(0), Int(2), ByteString(name), Int(16384), ByteString([])]
  }

  /** The same empty file for v1 and for v2. */
  function HybridInfo(name: seq<byte>): Value {
    Dict(Fields(HybridKeys(), HybridValues(name)))
  }

  /** A layer that is for no file. */
  function SpareLayer(root: seq<byte>): seq<Entry> {
    [Entry(root, ByteString([]))]
  }

  lemma OneEntry(key: seq<byte>, v: Value)
    requires WellFormed(v) && |key| <= I64_MAX
    ensures WellFormed(Dict([Entry(key, v)])) && Nest(Dict([Entry(key, v)])) == 1 + Nest(v)
  {
    TailOf(Entry(key, v), []);
    var entries := [Entry(key, v)] + [];
    assert NestEntries(entries) == Nest(v) && entries == [Entry(key, v)];
  }

  lemma SmallTreeNests(name: seq<byte>)
    requires |name| <= I64_MAX
    ensures WellFormed(SmallTree(name)) && Nest(SmallTree(name)) == 3
  {
    var leaf := Dict(Fields([Length], [Int(0)]));
    assert [Int(0)][1..] == [];
    FieldsNest(None, [Length], [Int(0)]);
    OneEntry([], leaf);
    OneEntry(name, Dict([Entry([], leaf)]));
  }

  lemma HybridNests(name: seq<byte>)
    requires |name| <= I64_MAX
    ensures WellFormed(HybridInfo(name)) && Nest(HybridInfo(name)) == 4
  {
    KeysInOrder();
    SmallTreeNests(name);
    var flat := [Int(0), Int(2), ByteString(name), Int(16384)];
    FlatThen(flat, ByteString([]));
    TreeThenFlat(SmallTree(name), flat + [ByteString([])]);
    assert HybridValues(name) == [SmallTree(name)] + (flat + [ByteString([])]);
    FieldsNest(None, HybridKeys(), HybridValues(name));
  }

  lemma TreeThenFlat(tree: Value, flat: seq<Value>)
    requires WellFormed(tree) && WellFormedItems(flat) && NestItems(flat) == 0
    ensures WellFormedItems([tree] + flat) && NestItems([tree] + flat) == Nest(tree)
  {
    TailOf(tree, flat);
  }

  lemma SmallTreeParses(judge: Judge, name: seq<byte>)
    requires Named(judge, name)
    ensures ParseFileTree(judge, SmallTree(name)) == Some([PiecePlan.V2File([name], 0, None)])
  {
    var leaf := Dict(Fields([Length], [Int(0)]));
    var node := Dict([Entry([], leaf)]);
    FieldAt([Length], [Int(0)], 0);
    NoField([Length], [Int(0)], PiecesRoot);
    var file := PiecePlan.V2File([name], 0, None);
    assert FilesUnder(judge, node, [name]) == Some([file]);
    assert [] + [name] == [name];
    var entries := SmallTree(name).entries;
    assert entries[1..] == [] && [file] + [] == [file] && [] + [file] == [file];
    assert FilesAmong(judge, entries, []) == Some([file]);
    AbsentKey(entries, []);
  }

  lemma HybridField(name: seq<byte>, n: nat)
    requires n < 6
    ensures Get(HybridInfo(name), HybridKeys()[n]) == Some(HybridValues(name)[n])
  {
    FieldAt(HybridKeys(), HybridValues(name), n);
  }

  lemma HybridV1(judge: Judge, name: seq<byte>)
    requires Named(judge, name)
    ensures V1Accepts(judge, HybridInfo(name)) && Get(HybridInfo(name), Pieces).Some?
  {
    HybridField(name, 1);
    HybridField(name, 3);
    HybridField(name, 4);
    HybridField(name, 5);
    EmptyFileAccepted(judge, HybridInfo(name), name);
  }

  lemma HybridV2(judge: Judge, name: seq<byte>)
    requires Named(judge, name)
    ensures !UnknownVersion(HybridInfo(name)) && TreeSound(judge, HybridInfo(name))
    ensures TreeFiles(judge, HybridInfo(name)) == [PiecePlan.V2File([name], 0, None)]
  {
    HybridField(name, 0);
    HybridField(name, 2);
    HybridField(name, 4);
    SmallTreeParses(judge, name);
    OneFileSound(judge, HybridInfo(name), SmallTree(name));
  }

  lemma OneFileSound(judge: Judge, info: Value, tree: Value)
    requires Get(info, FileTree) == Some(tree) && Get(info, MetaVersion) == Some(Int(2))
    requires Get(info, PieceLength) == Some(Int(16384)) && ParseFileTree(judge, tree).Some?
    ensures TreeSound(judge, info) && TreeFiles(judge, info) == ParseFileTree(judge, tree).value
  {
    assert HashFile.ValidPieceLength(16384);
  }

  lemma SpareLayerHeld(root: seq<byte>)
    requires |root| == 32
    ensures LayersHeld(Some(SpareLayer(root)))
  {
    assert SpareLayer(root)[1..] == [];
  }

  /** A hybrid with a sound file tree, shallow enough, and layers that fit it. */
  ghost predicate HybridWith(h: Hashes, judge: Judge, info: Value, layers: seq<Entry>) {
    && WellFormed(info) && Nest(info) < MAX_DEPTH && Get(info, Pieces).Some?
    && V1Accepts(judge, info) && !UnknownVersion(info) && TreeSound(judge, info)
    && LayersHeld(Some(layers)) && TreeFits(TreeHasher(h), judge, info, layers)
  }

  function HybridTorrent(h: Hashes, judge: Judge, info: Value, layers: seq<Entry>, t: Trackers): Torrent
    requires TreeSound(judge, info)
  {
    var raw := Encode(info);
    Torrent(info, h.sha1(raw), Some(V2Info(h.sha256(raw), layers, TreeFiles(judge, info))), t)
  }

  lemma HybridIsBuilt(h: Hashes, judge: Judge, info: Value, layers: seq<Entry>, t: Trackers)
    requires HybridWith(h, judge, info, layers)
    ensures Built(h, judge, HybridTorrent(h, judge, info, layers, t), Some(Dict(layers)))
    ensures BuildFromInfo(h, judge, info, Encode(info), t, None) == Some(HybridTorrent(h, judge, info, [], t))
  {
    NoLayersFit(TreeHasher(h), judge, info);
  }

  lemma HybridIsParsed(h: Hashes, judge: Judge, info: Value, layers: seq<Entry>, t: Trackers)
    requires HybridWith(h, judge, info, layers) && TrackersFit(judge, t)
    ensures ParseTorrent(h, judge, Encode(Dict(TopLevel(info, Some(layers), t))))
         == Success(HybridTorrent(h, judge, info, layers, t))
  {
    FileDecodes(judge, info, Some(layers), t);
    TopLevelBuilt(judge, info, Some(layers), t);
    HybridIsBuilt(h, judge, info, layers, t);
  }

  /** Every hybrid that came with layers is read back without them. */
  lemma HybridLosesLayers(h: Hashes, judge: Judge, info: Value, layers: seq<Entry>, t: Trackers)
    requires HybridWith(h, judge, info, layers) && TrackersFit(judge, t)
    ensures ParseTorrent(h, judge, Encode(Dict(TopLevel(info, Some(layers), t))))
         == Success(HybridTorrent(h, judge, info, layers, t))
    ensures TorrentFileBytes(h, HybridTorrent(h, judge, info, layers, t)).Some?
    ensures ParseTorrent(h, judge, TorrentFileBytes(h, HybridTorrent(h, judge, info, layers, t)).value)
         == Success(HybridTorrent(h, judge, info, [], t))
  {
    HybridIsParsed(h, judge, info, layers, t);
    HybridIsBuilt(h, judge, info, layers, t);
    SavedIsRead(h, judge, HybridTorrent(h, judge, info, layers, t), Some(Dict(layers)));
  }

  /** And there are such: whatever the hashes, one empty file and a layer for none. */
  lemma SmallHybridLosesLayers(h: Hashes, judge: Judge, name: seq<byte>, root: seq<byte>)
    requires Named(judge, name) && |root| == 32
    ensures HybridWith(h, judge, HybridInfo(name), SpareLayer(root))
    ensures var t := HybridTorrent(h, judge, HybridInfo(name), SpareLayer(root), Trackers(None, [], []));
      && ParseTorrent(h, judge, Encode(Dict(TopLevel(t.info, Some(SpareLayer(root)), t.trackers)))) == Success(t)
      && TorrentFileBytes(h, t).Some? && ParseTorrent(h, judge, TorrentFileBytes(h, t).value).Success?
      && ParseTorrent(h, judge, TorrentFileBytes(h, t).value).value.v2 != t.v2
  {
    HybridNests(name);
    HybridV1(judge, name);
    HybridV2(judge, name);
    SpareLayerHeld(root);
    HybridLosesLayers(h, judge, HybridInfo(name), SpareLayer(root), Trackers(None, [], []));
  }
}
