/** The file tree of a v2 torrent and the piece layers that come with it (BEP 52; src/v2.rs, src/torrent.rs). */
module FileTrees {
  import opened Numbers
  import opened Bytes
  import opened Bencode
  import opened BencodeProofs
  import opened TorrentFields
  import opened Merkle
  import opened HashFile
  import opened PiecePlan

  const MAX_PATH: nat := 64

  const MAX_FILES: nat := 0x10_0000

  // ---- parse_file_tree -------------------------------------------------------------

  /** The root a file is given: there must be one, of 32 bytes, exactly when the file is not empty. */
  function RootOf(length: int, root: Option<Value>): Option<Option<Digest>> {
    match root
    case None => if length > 0 then None else Some(None)
    case Some(ByteString(b)) => if length > 0 && |b| == 32 then Some(Some(Digest(b))) else None
    case _ => None
  }

  function FileAt(leaf: Value, path: seq<seq<byte>>): Option<V2File> {
    match IntOf(Get(leaf, Length))
    case None => None
    case Some(length) =>
      var root := RootOf(length, Get(leaf, PiecesRoot));
      if length < 0 || root.None? then None else Some(V2File(path, length, root.value))
  }

  /** The files under a node of the tree, in the order of the tree, if all of it is sound. */
  function FilesUnder(judge: Judge, node: Value, path: seq<seq<byte>>): Option<seq<V2File>>
    decreases node, 1
  {
    if !node.Dict? then None
    else
      match Lookup(node.entries, [])
      case Some(leaf) =>
        if |node.entries| != 1 || path == [] then None
        else
          var file := FileAt(leaf, path);
          if file.None? then None else Some([file.value])
      case None => if |path| >= MAX_PATH then None else FilesAmong(judge, node.entries, path)
  }

  function FilesAmong(judge: Judge, entries: seq<Entry>, path: seq<seq<byte>>): Option<seq<V2File>>
    decreases entries, 0
  {
    if entries == [] then Some([])
    else if !(judge.text(entries[0].key) && judge.safe(entries[0].key)) then None
    else
      match (FilesUnder(judge, entries[0].value, path + [entries[0].key]), FilesAmong(judge, entries[1..], path))
      case (Some(here), Some(rest)) => Some(here + rest)
      case _ => None
  }

  /** No more than there may be. */
  function Limited(before: seq<V2File>, files: Option<seq<V2File>>): Option<seq<V2File>> {
    if files.None? || |before| + |files.value| > MAX_FILES then None else Some(before + files.value)
  }

  function ParseFileTree(judge: Judge, tree: Value): Option<seq<V2File>> {
    Limited([], FilesUnder(judge, tree, []))
  }

  /** `walk`: the files under a node are added to those before. */
  method Walk(judge: Judge, node: Value, path: seq<seq<byte>>, before: seq<V2File>) returns (r: Option<seq<V2File>>)
    requires |before| <= MAX_FILES
    ensures r == Limited(before, FilesUnder(judge, node, path))
    decreases node
  {
    if !node.Dict? {
      return None;
    }
    var leaf := Lookup(node.entries, []);
    if leaf.Some? {
      if |node.entries| != 1 || path == [] || |before| >= MAX_FILES {
        return None;
      }
      var file := FileAt(leaf.value, path);
      if file.None? {
        return None;
      }
      return Some(before + [file.value]);
    }
    if |path| >= MAX_PATH {
      return None;
    }
    var files := before;
    var entries := node.entries;
    for i := 0 to |entries|
      invariant |files| <= MAX_FILES
      invariant Limited(files, FilesAmong(judge, entries[i..], path))
             == Limited(before, FilesAmong(judge, entries, path))
    {
      var name := entries[i].key;
      NextAmong(judge, entries[i..], path, files);
      assert entries[i..][1..] == entries[i + 1..];
      if !(judge.text(name) && judge.safe(name)) {
        return None;
      }
      var more := Walk(judge, entries[i].value, path + [name], files);
      if more.None? {
        return None;
      }
      files := more.value;
    }
    assert files + [] == files;
    return Some(files);
  }

  /** One entry and then the rest. */
  lemma NextAmong(judge: Judge, entries: seq<Entry>, path: seq<seq<byte>>, files: seq<V2File>)
    requires entries != []
    ensures var next := Limited(files, FilesUnder(judge, entries[0].value, path + [entries[0].key]));
      Limited(files, FilesAmong(judge, entries, path))
      == if !(judge.text(entries[0].key) && judge.safe(entries[0].key)) || next.None? then None
         else Limited(next.value, FilesAmong(judge, entries[1..], path))
  {
    var here := FilesUnder(judge, entries[0].value, path + [entries[0].key]);
    var rest := FilesAmong(judge, entries[1..], path);
    if here.Some? && rest.Some? {
      Assoc3(files, here.value, rest.value);
    }
  }

  // ---- files are where their paths lead --------------------------------------------

  /** From a node down, key by key. */
  function Descend(node: Value, keys: seq<seq<byte>>): Option<Value>
    decreases |keys|
  {
    if keys == [] then Some(node)
    else if !node.Dict? then None
    else
      var next := Lookup(node.entries, keys[0]);
      if next.None? then None else Descend(next.value, keys[1..])
  }

  /** The description of a file that the keys of a path lead to. */
  function LeafAt(node: Value, path: seq<seq<byte>>): Option<Value> {
    Descend(node, path + [[]])
  }

  lemma LeafHere(node: Value, leaf: Value)
    requires node.Dict? && Lookup(node.entries, []) == Some(leaf)
    ensures LeafAt(node, []) == Some(leaf)
  {
    var keys: seq<seq<byte>> := [] + [[]];
    assert keys[0] == [] && keys[1..] == [];
    assert Descend(leaf, []) == Some(leaf);
  }

  lemma LeafBelow(node: Value, key: seq<byte>, path: seq<seq<byte>>, next: Value)
    requires node.Dict? && Lookup(node.entries, key) == Some(next)
    ensures LeafAt(node, [key] + path) == LeafAt(next, path)
  {
    var keys := [key] + path + [[]];
    assert keys[0] == key && keys[1..] == path + [[]];
  }

  lemma {:induction false} LookupOwn(last: Option<seq<byte>>, entries: seq<Entry>, k: nat)
    requires SortedFrom(last, entries) && k < |entries|
    ensures Lookup(entries, entries[k].key) == Some(entries[k].value)
    decreases |entries|
  {
    if k > 0 {
      SortedAbove(entries[0].key, entries[1..], k - 1);
      LexTotal(entries[0].key, entries[k].key);
      LookupOwn(Some(entries[0].key), entries[1..], k - 1);
    }
  }

  lemma {:induction false} EntryWellFormed(entries: seq<Entry>, k: nat)
    requires WellFormedEntries(entries) && k < |entries|
    ensures WellFormed(entries[k].value)
    decreases |entries|
  {
    if k > 0 {
      EntryWellFormed(entries[1..], k - 1);
    }
  }

  /** The file is under entry `k`, at that entry's key. */
  predicate Beneath(entries: seq<Entry>, k: nat, path: seq<seq<byte>>, file: V2File) {
    && k < |entries| && |path| < |file.path| && file.path[..|path|] == path && file.path[|path|] == entries[k].key
    && var leaf := LeafAt(entries[k].value, file.path[|path| + 1..]);
    && leaf.Some? && FileAt(leaf.value, file.path) == Some(file)
  }

  /** Every file is the one that its path leads to, from the top down. */
  lemma {:induction false} FilesLead(judge: Judge, node: Value, path: seq<seq<byte>>, i: nat)
    requires WellFormed(node) && FilesUnder(judge, node, path).Some? && i < |FilesUnder(judge, node, path).value|
    ensures var file := FilesUnder(judge, node, path).value[i];
      && path <= file.path
      && var leaf := LeafAt(node, file.path[|path|..]);
      && leaf.Some? && FileAt(leaf.value, file.path) == Some(file)
    decreases node, 1
  {
    var file := FilesUnder(judge, node, path).value[i];
    if Lookup(node.entries, []).Some? {
      LeafHere(node, Lookup(node.entries, []).value);
      assert file.path[|path|..] == [];
    } else {
      var k := FilesAmongLead(judge, node.entries, path, i);
      LookupOwn(None, node.entries, k);
      var rest := file.path[|path| + 1..];
      assert file.path[|path|..] == [node.entries[k].key] + rest;
      LeafBelow(node, node.entries[k].key, rest, node.entries[k].value);
    }
  }

  lemma {:induction false} FilesAmongLead(judge: Judge, entries: seq<Entry>, path: seq<seq<byte>>, i: nat)
    returns (k: nat)
    requires WellFormedEntries(entries) && FilesAmong(judge, entries, path).Some?
    requires i < |FilesAmong(judge, entries, path).value|
    ensures Beneath(entries, k, path, FilesAmong(judge, entries, path).value[i])
    decreases entries, 0
  {
    var here := FilesUnder(judge, entries[0].value, path + [entries[0].key]).value;
    if i < |here| {
      FilesLead(judge, entries[0].value, path + [entries[0].key], i);
      StepInto(path, entries[0].key, here[i].path);
      k := 0;
    } else {
      var j := FilesAmongLead(judge, entries[1..], path, i - |here|);
      k := j + 1;
    }
  }

  lemma StepInto(path: seq<seq<byte>>, key: seq<byte>, all: seq<seq<byte>>)
    requires path + [key] <= all
    ensures |path| < |all| && all[..|path|] == path && all[|path|] == key
  {
    assert all[..|path| + 1] == path + [key];
    assert all[|path|] == all[..|path| + 1][|path|] && all[..|path|] == all[..|path| + 1][..|path|];
  }

  /** And every file that a path leads to is there. */
  lemma {:induction false} LeadsToFile(judge: Judge, node: Value, path: seq<seq<byte>>, down: seq<seq<byte>>)
    returns (i: nat)
    requires FilesUnder(judge, node, path).Some? && LeafAt(node, down).Some? && [] !in down
    ensures i < |FilesUnder(judge, node, path).value| && FilesUnder(judge, node, path).value[i].path == path + down
    decreases node, 1
  {
    var keys := down + [[]];
    assert keys[0] == if down == [] then [] else down[0];
    if Lookup(node.entries, []).Some? {
      OnlyEntry(node.entries, keys[0]);
      assert path + [] == path;
      i := 0;
    } else {
      assert keys[1..] == down[1..] + [[]];
      i := LeadsAmong(judge, node.entries, path, down);
    }
  }

  lemma OnlyEntry(entries: seq<Entry>, key: seq<byte>)
    requires |entries| == 1 && Lookup(entries, []).Some? && Lookup(entries, key).Some?
    ensures key == []
  {
    assert entries[1..] == [];
  }

  lemma {:induction false} LeadsAmong(judge: Judge, entries: seq<Entry>, path: seq<seq<byte>>, down: seq<seq<byte>>)
    returns (i: nat)
    requires FilesAmong(judge, entries, path).Some? && down != [] && [] !in down
    requires Lookup(entries, down[0]).Some? && LeafAt(Lookup(entries, down[0]).value, down[1..]).Some?
    ensures i < |FilesAmong(judge, entries, path).value|
    ensures FilesAmong(judge, entries, path).value[i].path == path + down
    decreases entries, 0
  {
    var here := FilesUnder(judge, entries[0].value, path + [entries[0].key]).value;
    if entries[0].key == down[0] {
      i := LeadsToFile(judge, entries[0].value, path + [down[0]], down[1..]);
      assert path + [down[0]] + down[1..] == path + down;
    } else {
      var j := LeadsAmong(judge, entries[1..], path, down);
      i := |here| + j;
    }
  }

  /** The files of a tree are exactly those that paths of plain names lead to, each with the path, the length and the
      root it has there. */
  lemma FilesArePaths(judge: Judge, tree: Value, path: seq<seq<byte>>)
    requires WellFormed(tree) && ParseFileTree(judge, tree).Some? && [] !in path
    ensures var files := ParseFileTree(judge, tree).value;
      && (LeafAt(tree, path).Some? <==> exists i :: 0 <= i < |files| && files[i].path == path)
      && forall i :: 0 <= i < |files| && files[i].path == path ==>
           FileAt(LeafAt(tree, path).value, path) == Some(files[i])
  {
    var files := ParseFileTree(judge, tree).value;
    assert [] + FilesUnder(judge, tree, []).value == FilesUnder(judge, tree, []).value;
    forall i | 0 <= i < |files| && files[i].path == path
      ensures LeafAt(tree, path).Some? && FileAt(LeafAt(tree, path).value, path) == Some(files[i])
    {
      FilesLead(judge, tree, [], i);
      assert path[0..] == path;
    }
    if LeafAt(tree, path).Some? {
      var i := LeadsToFile(judge, tree, [], path);
      assert [] + path == path;
    }
  }

  // ---- trees of files, and what is read of them ------------------------------------

  /** A tree as it is meant: files, and directories of named trees. */
  datatype Tree = File(length: nat, root: Option<Digest>) | Directory(names: seq<seq<byte>>, trees: seq<Tree>)

  /** The description of a file. */
  function LeafOf(length: nat, root: Option<Digest>): Value {
    if root.None? then Dict([Entry(KeyOf(Length), Int(length))])
    else Dict([Entry(KeyOf(Length), Int(length)), Entry(KeyOf(PiecesRoot), ByteString(root.value.bytes))])
  }

  function ValueOf(tree: Tree): Value
    decreases tree, 1
  {
    match tree
    case File(length, root) => Dict([Entry([], LeafOf(length, root))])
    case Directory(names, trees) => Dict(EntriesOf(names, trees))
  }

  function EntriesOf(names: seq<seq<byte>>, trees: seq<Tree>): seq<Entry>
    decreases trees, 0
  {
    if names == [] || trees == [] then []
    else [Entry(names[0], ValueOf(trees[0]))] + EntriesOf(names[1..], trees[1..])
  }

  function FilesIn(tree: Tree, path: seq<seq<byte>>): seq<V2File>
    decreases tree, 1
  {
    match tree
    case File(length, root) => [V2File(path, length, root)]
    case Directory(names, trees) => FilesInAll(names, trees, path)
  }

  function FilesInAll(names: seq<seq<byte>>, trees: seq<Tree>, path: seq<seq<byte>>): seq<V2File>
    decreases trees, 0
  {
    if names == [] || trees == [] then []
    else FilesIn(trees[0], path + [names[0]]) + FilesInAll(names[1..], trees[1..], path)
  }

  /** What a tree must be, `depth` levels down: a root of 32 bytes for each file that is not empty and none for one that
      is, safe names, and no file more than 64 names down; no file is at the top. */
  predicate Sound(judge: Judge, tree: Tree, depth: nat)
    decreases tree, 1
  {
    match tree
    case File(length, root) => depth > 0 && (root.Some? <==> length > 0) && (root.Some? ==> |root.value.bytes| == 32)
    case Directory(names, trees) => depth < 64 && |names| == |trees| && SoundAll(judge, names, trees, depth)
  }

  predicate SoundAll(judge: Judge, names: seq<seq<byte>>, trees: seq<Tree>, depth: nat)
    decreases trees, 0
  {
    || names == []
    || trees == []
    || (names[0] != [] && judge.text(names[0]) && judge.safe(names[0]) && Sound(judge, trees[0], depth + 1)
        && SoundAll(judge, names[1..], trees[1..], depth))
  }

  lemma LeafReads(length: nat, root: Option<Digest>, path: seq<seq<byte>>)
    ensures FileAt(LeafOf(length, root), path)
         == if (root.Some? <==> length > 0) && (root.Some? ==> |root.value.bytes| == 32)
            then Some(V2File(path, length, root)) else None
  {
    var a := Entry(KeyOf(Length), Int(length));
    KeysDiffer(Length, PiecesRoot);
    assert Lookup([a], KeyOf(Length)) == Some(Int(length));
    if root.None? {
      assert [a][1..] == [];
      assert Lookup([a], KeyOf(PiecesRoot)) == Lookup([], KeyOf(PiecesRoot)) == None;
      assert LeafOf(length, root) == Dict([a]);
    } else {
      var b := Entry(KeyOf(PiecesRoot), ByteString(root.value.bytes));
      assert [a, b][1..] == [b] && [b][1..] == [];
      assert Lookup([a, b], KeyOf(PiecesRoot)) == Lookup([b], KeyOf(PiecesRoot)) == Some(b.value);
    }
  }

  lemma {:induction false} NoEmptyName(judge: Judge, names: seq<seq<byte>>, trees: seq<Tree>, depth: nat)
    requires SoundAll(judge, names, trees, depth)
    ensures Lookup(EntriesOf(names, trees), []) == None
    decreases |trees|
  {
    if names != [] && trees != [] {
      NoEmptyName(judge, names[1..], trees[1..], depth);
      TailOf(Entry(names[0], ValueOf(trees[0])), EntriesOf(names[1..], trees[1..]));
    }
  }

  /** A tree that is sound is read as its files, in order, each under the names that lead to it. */
  lemma {:induction false} SoundIsRead(judge: Judge, tree: Tree, path: seq<seq<byte>>)
    requires Sound(judge, tree, |path|)
    ensures FilesUnder(judge, ValueOf(tree), path) == Some(FilesIn(tree, path))
    decreases tree, 1
  {
    match tree
    case File(length, root) =>
      LeafReads(length, root, path);
      assert Lookup([Entry([], LeafOf(length, root))], []) == Some(LeafOf(length, root));
    case Directory(names, trees) =>
      NoEmptyName(judge, names, trees, |path|);
      SoundAllRead(judge, names, trees, path);
  }

  lemma {:induction false} SoundAllRead(judge: Judge, names: seq<seq<byte>>, trees: seq<Tree>, path: seq<seq<byte>>)
    requires SoundAll(judge, names, trees, |path|)
    ensures FilesAmong(judge, EntriesOf(names, trees), path) == Some(FilesInAll(names, trees, path))
    decreases trees, 0
  {
    if names != [] && trees != [] {
      SoundIsRead(judge, trees[0], path + [names[0]]);
      SoundAllRead(judge, names[1..], trees[1..], path);
      TailOf(Entry(names[0], ValueOf(trees[0])), EntriesOf(names[1..], trees[1..]));
    }
  }

  /** So every sound tree of at most 2^20 files is accepted as what it is, and one of more is not. */
  lemma SoundTreeParses(judge: Judge, tree: Tree)
    requires Sound(judge, tree, 0)
    ensures ParseFileTree(judge, ValueOf(tree))
         == if |FilesIn(tree, [])| <= 0x10_0000 then Some(FilesIn(tree, [])) else None
  {
    SoundIsRead(judge, tree, []);
    assert [] + FilesIn(tree, []) == FilesIn(tree, []);
  }

  // ---- and nothing that is not safe ------------------------------------------------

  /** What every file that is read is: at a path of one to 64 safe names, with a root of 32 bytes exactly if it is not
      empty. */
  predicate FileSound(judge: Judge, file: V2File) {
    && 0 < |file.path| <= 64
    && (forall j :: 0 <= j < |file.path| ==> judge.text(file.path[j]) && judge.safe(file.path[j]))
    && (file.root.Some? <==> file.length > 0) && (file.root.Some? ==> |file.root.value.bytes| == 32)
  }

  predicate PathSound(judge: Judge, path: seq<seq<byte>>) {
    |path| <= 64 && forall j :: 0 <= j < |path| ==> judge.text(path[j]) && judge.safe(path[j])
  }

  lemma {:induction false} FilesAreSound(judge: Judge, node: Value, path: seq<seq<byte>>, i: nat)
    requires FilesUnder(judge, node, path).Some? && i < |FilesUnder(judge, node, path).value| && PathSound(judge, path)
    ensures FileSound(judge, FilesUnder(judge, node, path).value[i])
    decreases node, 1
  {
    if Lookup(node.entries, []).None? {
      AmongAreSound(judge, node.entries, path, i);
    }
  }

  lemma {:induction false} AmongAreSound(judge: Judge, entries: seq<Entry>, path: seq<seq<byte>>, i: nat)
    requires FilesAmong(judge, entries, path).Some? && i < |FilesAmong(judge, entries, path).value|
    requires PathSound(judge, path) && |path| < 64
    ensures FileSound(judge, FilesAmong(judge, entries, path).value[i])
    decreases entries, 0
  {
    var here := FilesUnder(judge, entries[0].value, path + [entries[0].key]).value;
    if i < |here| {
      FilesAreSound(judge, entries[0].value, path + [entries[0].key], i);
    } else {
      AmongAreSound(judge, entries[1..], path, i - |here|);
    }
  }

  /** Whatever tree is accepted, all its files are sound, and there are no more than 2^20. */
  lemma ParsedFilesAreSound(judge: Judge, tree: Value, i: nat)
    requires ParseFileTree(judge, tree).Some? && i < |ParseFileTree(judge, tree).value|
    ensures FileSound(judge, ParseFileTree(judge, tree).value[i]) && |ParseFileTree(judge, tree).value| <= 0x10_0000
  {
    assert [] + FilesUnder(judge, tree, []).value == FilesUnder(judge, tree, []).value;
    FilesAreSound(judge, tree, [], i);
  }

  // ---- parse_layers ----------------------------------------------------------------

  predicate IsLayer(e: Entry) {
    |e.key| == 32 && e.value.ByteString? && |e.value.b| % 32 == 0
  }

  /** `parse_layers`: hashes of 32 bytes under roots of 32 bytes. */
  function ParseLayers(layers: Option<Value>): Option<seq<Entry>> {
    match layers
    case None => Some([])
    case Some(Dict(entries)) =>
      if forall i :: 0 <= i < |entries| ==> IsLayer(entries[i]) then Some(entries) else None
    case _ => None
  }

  function HashesOf(b: seq<byte>): seq<Digest> {
    seq(|b| / 32, i requires 0 <= i < |b| / 32 => Digest(b[32 * i..32 * i + 32]))
  }

  /** The layers by their roots. */
  function LayerMap(layers: seq<Entry>): Layers {
    if layers == [] then map[]
    else
      var last := layers[|layers| - 1];
      var hashes := if last.value.ByteString? then HashesOf(last.value.b) else [];
      LayerMap(layers[..|layers| - 1])[Digest(last.key) := hashes]
  }

  /** A layer as it is written: its hashes one after another. */
  function JoinHashes(hashes: seq<Digest>): seq<byte> {
    if hashes == [] then [] else JoinHashes(hashes[..|hashes| - 1]) + hashes[|hashes| - 1].bytes
  }

  /** Hashes of 32 bytes, written under a root of 32 bytes, are a layer and are read back. */
  lemma {:induction false} LayerReadsBack(root: seq<byte>, hashes: seq<Digest>)
    requires forall i :: 0 <= i < |hashes| ==> |hashes[i].bytes| == 32
    ensures |JoinHashes(hashes)| == 32 * |hashes| && HashesOf(JoinHashes(hashes)) == hashes
    ensures IsLayer(Entry(root, ByteString(JoinHashes(hashes)))) <==> |root| == 32
    decreases |hashes|
  {
    if hashes != [] {
      var n := |hashes| - 1;
      var front, last := JoinHashes(hashes[..n]), hashes[n].bytes;
      LayerReadsBack(root, hashes[..n]);
      forall i | 0 <= i < |hashes| ensures HashesOf(front + last)[i] == hashes[i] {
        if i < n {
          assert (front + last)[32 * i..32 * i + 32] == front[32 * i..32 * i + 32];
          assert HashesOf(front)[i] == hashes[i];
        } else {
          assert (front + last)[32 * i..32 * i + 32] == last;
        }
      }
    }
  }

  // ---- what is asked of a tree and its layers --------------------------------------

  predicate HasFileTree(info: Value) {
    Get(info, MetaVersion) == Some(Int(2)) && Get(info, FileTree).Some?
  }

  /** An info dictionary has a file tree, and the tree and its piece length will do. */
  predicate TreeSound(judge: Judge, info: Value) {
    && HasFileTree(info) && ParseFileTree(judge, Get(info, FileTree).value).Some?
    && IntOf(Get(info, PieceLength)).Some? && ValidPieceLength(IntOf(Get(info, PieceLength)).value)
  }

  function TreeFiles(judge: Judge, info: Value): seq<V2File>
    requires TreeSound(judge, info)
  {
    ParseFileTree(judge, Get(info, FileTree).value).value
  }

  predicate TreeFits(h: Hasher, judge: Judge, info: Value, layers: seq<Entry>)
    requires TreeSound(judge, info)
  {
    LayersFit(h, TreeFiles(judge, info), LayerMap(layers), IntOf(Get(info, PieceLength)).value)
  }

  /** No layers fit every tree. */
  lemma NoLayersFit(h: Hasher, judge: Judge, info: Value)
    requires TreeSound(judge, info)
    ensures TreeFits(h, judge, info, [])
  {
  }
}
