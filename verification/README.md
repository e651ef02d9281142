# Proofs about a BitTorrent client

This project models the parts of a BitTorrent client, written in Rust, that do not touch a socket or a disk, and
proves what they promise. `dafny verify dfyconfig.toml` checks all of it.

## What is modelled

- **Merkle trees of BEP 52** (`Merkle`, `HashFile`, `HashProofs`, `PiecePlan`, `HashSource`, `LayerFetch`;
  `src/v2.rs`, `src/session/layers.rs`). A file is cut into 16 KiB blocks whose hashes, padded to a power of two, are
  the leaves of a tree. The prover has a simple form over a whole layer and a fast one that rebuilds leaves on demand
  with one piece cached; the verifier climbs from a range to the root. Proved: the root does not depend on the piece
  length; the verifier accepts the true answer exactly when the proof reaches the root, and nothing else; the fast
  prover refines the simple one; checked layers are unique and the piece plan is exact; a layer fetched range by range
  is the layer under the root.
- **Bencode** (`Bencode`, `BencodeDecoder`, `BencodeProofs`, `LenientBencode`, `BencodeEncoder`; `src/bencode.rs`) and
  the scanner that finds the info dictionary's bytes, and torrents parsed, saved and parsed again (`Torrents`,
  `TorrentFields`, `FileTrees`, `SavedTorrents`, `LostTorrents`; `src/torrent.rs`, `src/v2.rs`, `src/create.rs`).
  Proved: strict decoding and encoding are inverse both ways, up to the nesting limit and with exactly `TooDeep`
  beyond it; lenient decoding extends strict, and exactly what it makes of keys in any order; a value is read from its
  own bytes only; the two parsers agree; a parsed torrent is always reproducible, and exactly which ones are read back
  from what is saved.
- **The choker** (`Choosing`, `Choking`, `ChokerHistory`; `src/choker.rs`), as a machine over its calls. Proved:
  safety of every run, that its record is the history of the calls, the ranking by that history, and that the
  optimistic slot comes round to everyone in three rounds a peer.
- **Have announcements** (`HaveProtocol`; `src/seeder.rs`, `src/serving.rs`), as atomic steps of a writer and a
  connection in any interleaving. Proved: a peer is told of verified pieces only, once each, and of all of them once
  things are quiet.
- **uTP** (`UtpReceiving`, `UtpSending`, `UtpStream`, `UtpProgress`, `UtpLosses`, `UtpConnection`; `src/utp/conn.rs`,
  `src/utp/socket.rs`), as the steps of a writing end, a reading end and a network that loses, repeats and reorders
  packets, with 16-bit numbers that wrap. Proved: what is read is what was written, in order and without gaps, from
  where the reading end opened; and exactly when what is acknowledged has come.
- **Streaming equals one-shot** (`Sha256`, `HashPieces`, `Metadata`; `src/sha256.rs`, `src/create.rs`,
  `src/metadata.rs`). Proved: however input is split, hashing it gives the hash of the whole; a metadata exchange in
  any order ends with the dictionary.
- **Arithmetic with bounds** (`RateLimit`, `RateSharing`, `Layout`, `Urls`; `src/ratelimit.rs`, `src/webseed.rs`,
  `src/selection.rs`). Proved: no window of reservations moves more than a burst and the rate allow, at any limiter of
  a tree and however threads interleave, and no shorter wait would do; the pieces' segments tile the files and every
  byte is asked for once, each file at its own URL.

`Numbers` and `Bytes` hold what the others share.

The hash functions are parameters. Where a result needs that they do not collide, that is a hypothesis of the lemma,
of the pairs and blocks that are hashed in the true tree and in the check, and of no others (`NoCollision`,
`NoLeafCollision`; the sets are those of `TreePairs`, `CheckPairs`, `LayerPairs` and the like). The reader of pieces
in `HashSource`, the peer of `LayerFetch` and the reads of files in `HashPieces` are parameters, and so is the clock
of `RateLimit`.

Code that updates state in place is a class or a loop here too, tied by its `ensures` to functions on values; the
results are proved of those functions.

## Promises that do not hold

- A `.torrent` saved for a magnet link need not be readable. The info dictionary that came from a peer may nest 100
  deep; inside the file it is one level further down, and the decoder refuses that. `LostTorrents.DeepInfoIsLost`
  gives one that is accepted; `SavedTorrents.SavedReadsBack` says that exactly those that nest less than 100 deep are
  read back.
- A `.torrent` that is parsed and saved need not be the same torrent: the piece layers of a hybrid are not written.
  `LostTorrents.SmallHybridLosesLayers` gives one that is accepted; `SavedTorrents.ParsedReadsBack` says exactly which
  are the same.
- `file_height` need not be the height of the file's tree: a file of at most one piece is given the height of a whole
  piece. `HashFile.OneBlockFile` gives those of one block; `HashFile.FileHeightIsTreeHeight` says exactly when the two
  are equal.
- uTP's `is_flushed` may be true of bytes that never came. A connection request that comes again is heeded as an
  acknowledgement of number 0, and a reset forgets what is in flight. `UtpLosses.RepeatedRequestLoses` and
  `UtpLosses.ResetLoses` give the runs; `UtpStream.FairKeepsCame` says that just these steps, and acknowledgements of
  a circle before, do harm; `UtpSending.ZeroRefused` says that a request does so, with half a circle in flight at
  most, exactly while a packet numbered 0 is.
- The uTP end that asks to connect takes the number of the first state packet it hears as that of the peer's first
  data packet. If the peer has sent data by then, that data is acknowledged and never read.
  `UtpLosses.LateOpeningLoses` gives such a run; `UtpStream.EofIsAll` and `UtpStream.FlushedIsReceived` say exactly
  when all is read, and `UtpStream.NothingMissed` how to tell.
- Nothing bounds how many uTP packets are in flight. With more than 2^16 one can be read as another
  (`UtpLosses.CircleAheadMixes`); with half as many acknowledgements are ignored (`UtpLosses.HalfCircleIsReached`,
  `UtpStream.HalfCircleStalls`). `UtpStream.ModestRuns` and `UtpSending.HalfCircleCounts` say that fewer are safe.
- `TorrentFile::piece_len` and `SeederShared::piece_len` do not agree at every index: past the last piece one says a
  whole piece and the other nothing. `Layout.PieceLensDiffer` gives one such index; `Layout.PieceLensAgree` says
  exactly where they agree.

## Model

| member | source | states |
|---|---|---|
| `Merkle.ComputeZeroSubtree` | src/v2.rs:78-84 | the loop gives the root by halves of a tree of that height whose leaves are all zero, and that is any node past the end of a zero-padded row |
| `Merkle.MerkleRoot` | src/v2.rs:88-96 | halving the padded level until one hash is left gives the top node of the tree over the leaves and the padding |
| `Merkle.RootIsFold` | src/v2.rs:88-96 | that node is the root by halves of the leaves resized to the width, the independent definition of a merkle root |
| `Merkle.NodeOfPadding` | src/v2.rs:76-84 | every node past the end of a zero-padded row is the zero subtree of its height |
| `Merkle.NodeAboveLevel` | src/v2.rs:347-356 | a tree built on one of its own levels has the same nodes |
| `Merkle.FoldInjective` | src/v2.rs:88-96 | where no two of the pairs hashed collide, equal roots mean equal leaves |
| `Merkle.LevelUp` | src/v2.rs:92-94 | hashing the pairs of a whole level gives the whole level above |
| `HashFile.PieceHash` | src/v2.rs:104-108 | the tree over a piece's blocks, padded with zero leaves to the width of a whole piece |
| `HashFile.MerkleMatches` | src/v2.rs:111-116 | accepts exactly the data whose padded tree of that width has that root; more blocks than the width are refused |
| `HashFile.MatchesOnlyTheBytes` | src/v2.rs:111-116 | where no two of the pairs and blocks hashed collide, only the bytes a root was made of match it |
| `HashFile.HashFile` | src/v2.rs:172-194 | an empty file has no root; an input that ends early is refused; otherwise the root is that of all block hashes zero-padded to the next power of two, in both branches, and the layer is the true one |
| `HashFile.HashLayer` | src/v2.rs:183-191 | the read loop gives the file tree's nodes at the height of a piece, or refuses an input that ends early |
| `HashFile.PieceNode` | src/v2.rs:104-108 | a piece hashed on its own comes to the node of the file's tree over that piece, a short last piece included |
| `HashFile.LayerRoot` | src/v2.rs:172-194 | whatever the piece length, the root over the padded piece layer is the root over all the blocks |
| `HashFile.LayerIsLevel` | src/v2.rs:166-168 | the piece layer padded with zero subtrees is a level of the file tree at every position, padding included |
| `HashFile.FileHeightIsTreeHeight` | src/v2.rs:341-343 | for every file length and valid piece length, `file_height` is the height of the tree over all the blocks if and only if the file is longer than a piece or its blocks are more than half a piece |
| `HashFile.OneBlockFile` | src/v2.rs:341-343 | the witness: for every file of one block and every piece length above a block, which there is, the tree has height 0 and `file_height` says more |
| `HashProofs.UpperLayers` | src/v2.rs:347-356 | the layers it stacks are the whole levels of the padded tree from the given layer up to the one below the root |
| `HashProofs.HashRangeOf` | src/v2.rs:374-387 | answers exactly the allowed requests, with the slice of the padded layer and the true siblings on the way up |
| `HashProofs.VerifyRange` | src/v2.rs:500-518 | its verdict is that of climbing from the fold of the hashes through the uncles and ending at the root with nothing left over |
| `HashProofs.AllowedExactly` | src/v2.rs:375-381 | a range may be asked for if and only if it is all that is under one node of a layer above, at most the root: 2^k hashes from q * 2^k on |
| `HashProofs.EveryNodeProves` | src/v2.rs:374-518 | for every such node the answer is the hashes under it, and it is accepted if and only if the proof layers go up to the last below the root or the node is the root |
| `HashProofs.UncleInEach` | src/v2.rs:384-386 | an answer has one uncle for each layer from where the range is one node, up to the proof layers asked for and short of the root |
| `HashProofs.SiblingIs` | src/v2.rs:384-386 | the sibling of a node is the other child of the same node |
| `HashProofs.ClimbTrue` | src/v2.rs:510-515 | the true node climbs through its true siblings to its true ancestor |
| `HashProofs.ClimbUnique` | src/v2.rs:510-515 | two climbs from one place to one hash are the same climb, where no two of the pairs hashed collide |
| `HashProofs.ClimbSound` | src/v2.rs:510-515 | so only the true node and the true siblings climb to the true ancestor |
| `HashProofs.TrueRangeAccepted` | src/v2.rs:500-518 | completeness: the true answer to an allowed request is accepted if and only if its proof layers reach the root or the range is the whole layer |
| `HashProofs.AcceptedExactly` | src/v2.rs:500-518 | soundness: against the root of a row, where nothing hashed in its tree or in the check collides, nothing is accepted but that row's own slice with its own uncles, and that if and only if the proof reaches the root |
| `HashProofs.AcceptedIsTrue` | src/v2.rs:500-518 | accepted hashes are the layer's slice at that index and every accepted uncle is the true sibling, for every height, row, index, length and depth |
| `PiecePlan.ValidateLayers` | src/v2.rs:315-330 | accepts a set of layers if and only if each file of more than a piece that has a layer has one of the right length that comes to its root |
| `PiecePlan.FittingLayerUnique` | src/v2.rs:315-330 | two layers that pass for one file are equal, where no two of the pairs hashed for them collide |
| `PiecePlan.FittingLayerIsTrue` | src/v2.rs:315-330 | against the true root of a file a layer passes if and only if it is the true piece layer of its data |
| `PiecePlan.PlanPieces` | src/v2.rs:138-154 | for any layers at all the loop gives the pieces of every file in order, or nothing if some file cannot be planned |
| `PiecePlan.PlanHolds` | src/v2.rs:138-154 | with one hash for each piece in every layer, each file's pieces, and no others, are where the piece numbering puts them |
| `PiecePlan.PlanLength` | src/v2.rs:138-154 | the plan has as many pieces as the files need |
| `PiecePlan.FilePiecesTile` | src/v2.rs:138-154 | the pieces of a file are in order, none of them empty, one after another from its start, and sum to its length |
| `PiecePlan.PlannedPieceMatches` | src/v2.rs:111-154 | with layers checked against true roots, piece n of a file accepts exactly the bytes the file has there |
| `PiecePlan.TorrentFile.InstallLayers` | src/torrent.rs:415-425 | on success the plan and the short hashes are those of the merged layers; on an error nothing at all has changed |
| `HashSource.NewSource` | src/v2.rs:413-427 | the loop records for each root its length, its layer and the number of its first piece; with nothing to answer from there is no source |
| `HashSource.SourceKnows` | src/v2.rs:413-427 | there is an entry under a root if and only if some file has that root and a layer to answer from |
| `HashSource.SourceOfRoot` | src/v2.rs:413-427 | the entry under a root is that of the last file with that root, repeated files included: its length, its layer, and its first piece where the plan puts it |
| `HashSource.FittingSourceIsTrue` | src/v2.rs:315-427 | a source made of layers that passed has the true layer for every file whose root is the root of its data |
| `HashSource.RangeOfLevel` | src/v2.rs:432-446 | a range of a level, proved from that level, is the range of the whole tree under it |
| `HashSource.Answer` | src/v2.rs:432-446 | for a file told truly, answers exactly the allowed requests from the piece layer up, each with the range of the one tree over all blocks |
| `HashSource.Leaf` | src/v2.rs:462-473 | a block hash from the cached piece, from a piece read now and then cached, or padding; the cache stays honest |
| `HashSource.Uncle` | src/v2.rs:479-493 | an uncle from the tree over the pieces at or above them, or from the blocks below them, is the true sibling |
| `HashSource.AnswerLeaves` | src/v2.rs:451-495 | refines `hash_range` over the whole leaf layer: whatever is answered equals it, and every allowed request of at most 512 hashes is answered unless a piece it touches cannot be read |
| `HashSource.LeafAllowedExactly` | src/v2.rs:451-460 | block hashes may be asked for if and only if they are all those under one node above, at most 512 |
| `HashSource.FileRangesVerify` | src/v2.rs:432-518 | on every layer of a file's tree the verifier accepts that tree's own range and nothing else, exactly when the proof reaches the root |
| `LayerFetch.FetchLayer` | src/session/layers.rs:45-78 | gives a layer if and only if the file is not too large and every range the peer sends verifies, those ranges one after another cut to the pieces; from a peer that answers with the file's own ranges it gives the file's true layer |
| `LayerFetch.AnsweredIsFetched` | src/session/layers.rs:45-78 | completeness: the file's own ranges all verify and come together to its true layer |
| `LayerFetch.RequestsAllowed` | src/session/layers.rs:50-59 | every request made is one that may be answered |
| `LayerFetch.FetchRanges` | src/session/layers.rs:54-75 | the loop over the requests of one file stops at the first range that does not verify |
| `LayerFetch.AskFor` | src/session/layers.rs:59-74 | an answer too short, or that does not lead to the root, is refused; of any other the hashes asked for are kept |
| `LayerFetch.ClimbsMeet` | src/session/layers.rs:55-75 | hashes side by side that each climb to one root, by uncles of their own, are the level of one tree under that root |
| `LayerFetch.GatheredLeads` | src/session/layers.rs:45-78 | ranges accepted one by one against a root come, put together, to that root |
| `LayerFetch.FetchedFits` | src/session/layers.rs:45-78 | a fetched layer passes the check of layers if and only if every hash past the cut is the padding of its height |
| `LayerFetch.FetchedIsTrue` | src/session/layers.rs:45-78 | fetched against the true root of a file, it is the true piece layer of its data |
| `BencodeDecoder.Decoder.ParseSignedUntil` | src/bencode.rs:158-190 | moves the position as the specification of a signed number says, on errors too |
| `BencodeDecoder.Decoder.DecodeBytes` | src/bencode.rs:198-204 | a length-prefixed string, with the specification's error and position in every failing case |
| `BencodeDecoder.Decoder.DecodeItems` | src/bencode.rs:206-217 | the list loop gives the specification's items or its first error |
| `BencodeDecoder.Decoder.DecodeEntries` | src/bencode.rs:219-245 | the dictionary loop, strict or lenient: order and duplicates refused in one, first value kept in the other |
| `BencodeDecoder.Decoder.DecodeValue` | src/bencode.rs:247-263 | one value; the nesting count is restored on every exit, error exits included |
| `BencodeDecoder.Decoder.DecodeTopLevel` | src/bencode.rs:266-272 | `decode` and `decode_lenient`: one value and nothing after it |
| `BencodeDecoder.Decoder.DecodeValueWithSpan` | src/bencode.rs:276-280 | the value and the exact bytes it was read from |
| `BencodeEncoder.EncodeInto` | src/bencode.rs:306-335 | appends the canonical encoding to what the buffer holds |
| `BencodeProofs.SignedReadBack` | src/bencode.rs:158-190 | every 64-bit number written out is read back, whatever follows its terminator |
| `BencodeProofs.SignedWrittenBack` | src/bencode.rs:158-190 | a number that is accepted is written back byte for byte, so no second spelling is accepted |
| `BencodeProofs.StrictWrittenBack` | src/bencode.rs:247-263 | what strict decoding takes is the canonical encoding of the value it gives |
| `BencodeProofs.ReadBack` | src/bencode.rs:247-335 | in either mode and whatever follows, an encoding is read back as its value if it nests within the limit and refused as too deep if not |
| `BencodeProofs.DecodeStrict` | src/bencode.rs:266-289 | strict decoding gives v if and only if the data is the encoding of v and v nests at most 100 deep |
| `BencodeProofs.DecodeEncoded` | src/bencode.rs:285-304 | an encoding decodes to its value up to 100 deep and is `TooDeep` beyond |
| `BencodeProofs.LenientExtendsStrict` | src/bencode.rs:219-295 | lenient decoding agrees with strict wherever strict accepts, and its result is stable once made canonical |
| `LenientBencode.DecodeLenient` | src/bencode.rs:219-295 | lenient decoding gives v if and only if the data is the encoding of some value at most 100 deep, its keys in any order and coming again, of which v is the canonical form |
| `LenientBencode.CanonExactly` | src/bencode.rs:219-245 | that form of a dictionary is the one sorted dictionary with, under each key, what came first under it |
| `LenientBencode.AnyOrderDecodes` | src/bencode.rs:219-245 | entries in any order, with repeats, decode to a sorted dictionary with the same under every key, or are too deep |
| `BencodeProofs.LexExactly` | src/bencode.rs:219-245 | keys are ordered by the first byte in which they differ, a prefix first |
| `Torrents.StandardDict` | src/bencode.rs:306-335 | a dictionary is written as BEP 3 says |
| `Torrents.StandardList` | src/bencode.rs:306-335 | and a list |
| `Torrents.StandardIntegers` | src/bencode.rs:306-335 | and the integers of its examples |
| `Torrents.StandardString` | src/bencode.rs:306-335 | and its string |
| `BencodeProofs.ValueMoved` | src/bencode.rs:247-280 | a successful read depends only on the bytes it took: any others may follow |
| `BencodeProofs.ReadIsWellFormed` | src/bencode.rs:206-263 | what either mode reads is sorted, in range and nested within the limit |
| `Torrents.FindKeySpan` | src/torrent.rs:120-153 | the scanner's loop gives the span of the first entry with that key, or its error |
| `Torrents.ParsersAgree` | src/torrent.rs:120-164 | on every buffer strict decoding accepts as a dictionary, the scanner finds a key if and only if the decoder has it, and the span is that entry's encoding and decodes to it |
| `SavedTorrents.ParsedReproduces` | src/create.rs:331-347 | a torrent parsed from a file or from metadata is never refused as unreproducible |
| `SavedTorrents.FetchedExactly` | src/torrent.rs:203-222 | metadata from a peer is accepted if and only if its SHA-1, or the first 20 bytes of its SHA-256, is the hash expected, it decodes strictly and a torrent can be made of it |
| `SavedTorrents.HashIsOfTheBytes` | src/torrent.rs:155-213 | a torrent's hash is the SHA-1 of the very bytes of its info dictionary where it has v1 pieces, and the first 20 bytes of their SHA-256 where it has none |
| `SavedTorrents.AcceptedMakesSense` | src/torrent.rs:316-325 | what is accepted as v1 has pieces that are positive, at most a piece long and together all the files |
| `SavedTorrents.AcceptedIsSafe` | src/torrent.rs:227-399 | whatever is accepted, its name and every component of every file's path, by v1 and by v2, is text and one safe path component, and its piece length is from 1 byte to 128 MiB |
| `SavedTorrents.V1Exactly` | src/torrent.rs:240-325 | an info dictionary is accepted as v1 if and only if the name, piece length and files will do, the files come to a 64-bit total and there are 20 bytes for each piece of it |
| `SavedTorrents.EntriesExactly` | src/torrent.rs:279-307 | a list of files will do if and only if each has a length that is not negative and a path with at least one text, all of them safe |
| `SavedTorrents.SavedIsRead` | src/create.rs:291-347 | what parsing a saved torrent gives: too deep if its info dictionary nests 100 deep, else what that dictionary builds with the layers that were written |
| `SavedTorrents.TrackersReadBack` | src/create.rs:291-347 | the tracker, the tiers and the web seeds are read back as they were |
| `SavedTorrents.TextsOfParts` | src/torrent.rs:166-188 | the texts of a list are those of its parts in order |
| `SavedTorrents.TextsOfOne` | src/torrent.rs:166-188 | and of one value it is that value if it is UTF-8 text, and otherwise passed over |
| `SavedTorrents.SavedReadsBack` | src/create.rs:331-347 | a torrent accepted from a magnet link's metadata and saved is parsed back as the same torrent if its info dictionary nests less than 100 deep, and is `TooDeep` otherwise |
| `SavedTorrents.ParsedReadsBack` | src/create.rs:331-347 | a torrent parsed from a file and saved is parsed back as the same torrent if and only if it is v2 only, or has no sound file tree, or is a hybrid without layers |
| `FileTrees.Walk` | src/v2.rs:250-295 | the recursive walk gives the files of the tree in order, or nothing if a node, a name, a length, a root, the depth or the number of files is not right |
| `FileTrees.FilesArePaths` | src/v2.rs:250-295 | the files are exactly those that a path of names leads to, key by key from the top, with the length and root found there |
| `FileTrees.SoundTreeParses` | src/v2.rs:250-295 | every tree of files with safe names, at most 64 down, with a 32-byte root for just the files that are not empty, is read as its files in order, unless there are more than 2^20 |
| `FileTrees.ParsedFilesAreSound` | src/v2.rs:250-295 | whatever tree is accepted, each file is so: one to 64 safe names, and a 32-byte root if and only if it is not empty |
| `FileTrees.LayerReadsBack` | src/v2.rs:298-313 | 32-byte hashes written one after another are read back, as a layer if and only if the root is of 32 bytes |
| `LostTorrents.DeepInfoIsLost` | src/torrent.rs:203-213 | the witness: an info dictionary that `from_info_dict_bytes` accepts, whose saved file `parse_torrent_file` refuses as too deep |
| `LostTorrents.HybridLosesLayers` | src/create.rs:331-347 | every hybrid with a sound tree is parsed with the layers its file has and parsed from its saved file without them |
| `LostTorrents.SmallHybridLosesLayers` | src/torrent.rs:227-332 | the witness: a hybrid of one empty file that came with a layer is accepted, and is another torrent once saved |
| `Choosing.RankingUnique` | src/choker.rs:50-51 | two rankings of the same interested peers are one list |
| `Choosing.ChoiceIgnoresOrder` | src/choker.rs:46-71 | the choice does not depend on the order of the peers |
| `Choosing.ChoiceIsBest` | src/choker.rs:46-71 | min(slots, interested) are chosen, all interested, the optimistic one among them given two slots, and each other one better than every interested peer left out |
| `Choking.RoundServes` | src/choker.rs:180-195 | after a round exactly min(slots, interested) are unchoked, all of them interested |
| `Choking.ChokerIsSafe` | src/choker.rs:98-195 | over every sequence of calls: unchoked at most slots, unchoked only if interested, optimistic registered or none |
| `Choking.RoundRanks` | src/choker.rs:180-195 | whoever a round serves, other than the optimistic peer, outranks every interested peer it does not |
| `ChokerHistory.RecordIsHistory` | src/choker.rs:98-195 | after any calls, the record has just the peers connected, and says of each what it last said it wants and the sums of the bytes recorded for it since the last round or its connection |
| `ChokerHistory.RoundRanksHistory` | src/choker.rs:180-195 | whoever a round serves, other than the optimistic peer, gave more in that window than each who wants data and is not served, or as much and took more, or as much of both and came earlier |
| `ChokerHistory.SlotsAreKept` | src/choker.rs:104-165 | between rounds nobody loses a slot who did not leave or stop wanting data, and no other call gives one |
| `ChokerHistory.GrantServes` | src/choker.rs:138-151 | a grant serves a peer if and only if it wants data and a slot is free or is its own, and changes nothing for others |
| `ChokerHistory.OptimisticStays` | src/choker.rs:176-187 | a peer that goes on wanting data keeps the optimistic slot for three rounds |
| `Choking.MoveIsNearer` | src/choker.rs:182-187 | each move of the optimistic slot brings it one peer nearer to any given one, and arrives |
| `Choking.OptimisticFairness` | src/choker.rs:180-195 | with two slots or more and a fixed set of n interested peers, in any 3n rounds each holds the optimistic slot in some round and is unchoked at the end of it, whatever traffic is recorded |
| `Choking.Choker.Register` | src/choker.rs:104-112 | a step of the machine the safety is proved of; the id is new |
| `Choking.Choker.Unregister` | src/choker.rs:114-122 | a step of the machine |
| `Choking.Choker.SetInterested` | src/choker.rs:124-136 | a step of the machine |
| `Choking.Choker.GrantIfFree` | src/choker.rs:138-151 | a step of the machine; answers whether the peer is now served |
| `Choking.Choker.RecordUpload` | src/choker.rs:153-158 | a step of the machine |
| `Choking.Choker.RecordDownload` | src/choker.rs:160-165 | a step of the machine |
| `Choking.Choker.Rechoke` | src/choker.rs:180-195 | a step of the machine, optimistic move and choice included |
| `HaveProtocol.ApplyKeepsSound` | src/serving.rs:80-97 | every atomic step of every party keeps the invariant: the version seen is at most the number of pieces told |
| `HaveProtocol.ToldOnlyVerifiedOnce` | src/serving.rs:248-264 | in every run, however steps interleave, the peer is told only of verified pieces and of each at most once |
| `HaveProtocol.QuietTickTellsAll` | src/serving.rs:130-141 | once writers are quiet and one more tick completes, the told set is the verified set |
| `HaveProtocol.FirstMessageMeans` | src/serving.rs:84-97 | the first message, in each of its forms, says exactly the snapshot |
| `HaveProtocol.HaveMap.Set` | src/seeder.rs:78-85 | sets the bit and counts it once; an index out of range or a piece already there changes nothing |
| `HaveProtocol.Serving.constructor` | src/serving.rs:80-97 | begins as the machine does: version, then snapshot, then the first message |
| `HaveProtocol.Serving.AnnounceNewPieces` | src/serving.rs:248-264 | is one tick of the machine, or the part of one before a failed write |
| `HaveProtocol.Serving.Tick` | src/serving.rs:130-141 | the pieces as one tick of the machine, or part of one if a write fails, and then exactly one choke or unchoke if that changed and none if not; with nothing new, nothing is written; a peer that reads the wire believes what it was told last; it can be called again |
| `Sha256.Hasher.Update` | src/sha256.rs:69-89 | what has been fed grows by the data, wherever the buffer stood; the length counts modulo 2^64 |
| `Sha256.Hasher.Finalize` | src/sha256.rs:91-105 | the fold of `compress` over the 64-byte blocks of the padded message, with the buffer empty at the end |
| `Sha256.HashParts` | src/sha256.rs:69-113 | for every way of splitting a message the digest is that of the whole |
| `Sha256.Parent` | src/v2.rs:69-74 | the digest of the two hashes one after the other |
| `Sha256.PaddingIsStandard` | src/sha256.rs:91-97 | the message, the byte 128, the fewest zero bytes that fill the block, and the bit length, as section 5.1.1 of FIPS 180-4 has it |
| `Sha256.DigestIsWords` | src/sha256.rs:100-105 | byte by byte, the digest is the words of the last state, most significant byte first |
| `Sha256.BlockByBlock` | src/sha256.rs:69-89 | the state after one block more is the compression of that block into the state before |
| `Sha256.InitialIsStandard` | src/sha256.rs:15-15 | the first state is that of section 5.3.3 of FIPS 180-4, from the square roots of the first eight primes |
| `Sha256.PaddingInjective` | src/sha256.rs:91-97 | no two messages under 2^64 bits have the same padded form |
| `RateLimit.WindowBound` | src/ratelimit.rs:58-70 | any window of calls moves at most burst + rate * (clock after it, plus its own wait, minus the clock before it) |
| `RateLimit.TokensAreTightest` | src/ratelimit.rs:58-63 | the tokens of a bucket that began full are what the tightest window leaves of burst and rate |
| `RateLimit.WaitIsLeast` | src/ratelimit.rs:58-64 | a wait keeps every window ending now within burst and rate if and only if it is at least the wait given |
| `RateLimit.ReleasedBetween` | src/ratelimit.rs:58-64 | calls go ahead in order, and between two releases at most the larger of a burst and the first call, plus the rate times the time between |
| `RateLimit.BackwardsClock` | src/ratelimit.rs:60-62 | a clock reading earlier than the last earns nothing |
| `RateLimit.NewBound` | src/ratelimit.rs:34-37 | a new limiter moves at most a second's worth more than its rate times the time gone and the wait |
| `RateLimit.NewIsFull` | src/ratelimit.rs:34-64 | a new limiter lets n bytes go at once if and only if n is at most a second's worth |
| `RateLimit.EachSeesItsCalls` | src/ratelimit.rs:39-70 | in any run over any tree of limiters, a bucket is that of its own calls and those of every limiter under it |
| `RateLimit.FamilyBound` | src/ratelimit.rs:39-70 | the window bound at every limiter, counting all that moves through it, with the wait the last caller was given |
| `RateLimit.RateLimiter.New` | src/ratelimit.rs:34-37 | a full bucket of at least one byte a second |
| `RateLimit.RateLimiter.Beneath` | src/ratelimit.rs:42-44 | the same, answering to a parent |
| `RateLimit.RateLimiter.Account` | src/ratelimit.rs:59-65 | what is done under one lock: one step of a bucket, and the wait its debt asks for |
| `RateLimit.RateLimiter.Reserve` | src/ratelimit.rs:58-70 | with no other reservation in between, updates this limiter and every one above it and no other, and answers the longest wait on the way |
| `RateSharing.SharedBound` | src/ratelimit.rs:58-70 | with reservations of many threads interleaved between the levels, at every limiter, any that are accounted for in a row move at most burst + rate * (clock after them, plus the wait the last is given, minus the clock before) |
| `RateSharing.DoneIsAccounted` | src/ratelimit.rs:58-70 | however they interleave, a reservation that is done was accounted for exactly once at every limiter above it and nowhere else, and when all are done each limiter has accounted for all that moves through it |
| `RateSharing.AloneIsOneClimb` | src/ratelimit.rs:58-70 | a reservation that none comes between is the one climb of `Reserve`, state and wait |
| `RateLimit.OneMoreLimiter` | src/ratelimit.rs:42-44 | a limiter made under one of a tree, or under none, joins the tree |
| `Layout.BuildTargets` | src/webseed.rs:74-99 | each target has the URL of its file and starts where the one before ends |
| `Urls.PercentEncode` | src/webseed.rs:53-62 | the loop gives each unreserved byte as it is and any other as `%` and two hexadecimal digits |
| `Urls.SegmentDecodes` | src/webseed.rs:53-62 | an encoded segment is decoded back to the same bytes |
| `Urls.BuildUrl` | src/webseed.rs:80-95 | the URL of a file under a base with or without a slash, for one file or many |
| `Urls.UrlTellsPath` | src/webseed.rs:74-99 | two files of one torrent have the same URL only if they have the same path |
| `Urls.UrlOfMany` | src/webseed.rs:80-90 | after the base and one slash, the segments of the URL decode to the torrent's name and then the path |
| `Urls.UrlOfOne` | src/webseed.rs:91-95 | a single file is at the base, or under its own name if the base ends in a slash |
| `Urls.UnreservedIs` | src/webseed.rs:53-62 | the bytes left as they are, are those of section 2.3 of RFC 3986 |
| `Urls.HexDigitIs` | src/webseed.rs:53-62 | any other is in upper-case hexadecimal |
| `Layout.PieceRequests` | src/webseed.rs:106-125 | the binary search with early stop asks for what a plain scan of all files asks for, empty files included |
| `Layout.PartitionPoint` | src/webseed.rs:114-114 | the first target that ends after the piece starts |
| `Layout.ScanTiles` | src/webseed.rs:106-125 | the segments follow one another over the stretch, none empty, each inside its file |
| `Layout.EveryByteOnce` | src/webseed.rs:106-125 | over all pieces every byte of every file is in exactly one segment of exactly one piece |
| `Layout.FileRanges` | src/selection.rs:109-118 | the ranges are those of the targets |
| `Layout.SelectedPieces` | src/selection.rs:128-151 | a piece is selected if and only if one of its segments is of a selected file; the bytes are the sum of those pieces, in whatever order the set is walked |
| `Layout.SelectingAll` | src/selection.rs:128-151 | all pieces together are all bytes |
| `Layout.PieceCountExact` | src/torrent.rs:321-325 | the lengths are positive, at most a piece, and sum to the total if and only if the piece count is the one the parser demands |
| `Layout.PieceLensAgree` | src/torrent.rs:502-514 | with the right count the torrent's and the seeder's lengths agree at an index if and only if it is below max(1, pieces) |
| `Layout.PieceLensDiffer` | src/seeder.rs:148-155 | the witness past the end: a whole piece by one formula, nothing by the other |
| `Layout.PieceIsItsSegments` | src/seeder.rs:148-155 | a piece is as long as its segments together |
| `HashPieces.HashChunk` | src/create.rs:437-448 | after one read of any size the hashes are those of the full pieces of all read so far, and the hasher holds what is after them |
| `HashPieces.HashEntry` | src/create.rs:426-453 | one file read to its end adds exactly its bytes; it is unreadable at the first error, and changed if more or fewer bytes are read than it had |
| `HashPieces.SameIsUnchanged` | src/create.rs:426-453 | a file is taken as it was if and only if it opens, no read fails and it is as long as it was |
| `HashPieces.HashPieces` | src/create.rs:417-459 | however reads are split, the hashes are those of the pieces of all files back to back, if and only if every file can be read and is as long as it was; else the first that is not is named, with which of the two it is |
| `HashPieces.CutIsChunks` | src/create.rs:437-457 | whole pieces and a shorter rest are the chunks of the data, in one way only |
| `HashPieces.MadeIsSensible` | src/create.rs:417-459 | the count is ceil(total / piece length), which the parser demands, so the piece lengths make sense |
| `HashPieces.FetchedIsHashed` | src/webseed.rs:106-125 | what a mirror is asked for a piece, put together, is what that piece's hash is of |
| `Metadata.ReadMessage` | src/metadata.rs:100-121 | a lenient header, its fields cut to 32 bits, and for data every byte after it |
| `Metadata.MessageReadBack` | src/metadata.rs:71-121 | every message is read back, whatever its raw bytes look like |
| `Metadata.AnyOrderReads` | src/metadata.rs:100-121 | a message is read the same with the fields of its header in any order, repeated, and among others |
| `Metadata.MessagesAre` | src/metadata.rs:71-93 | the three messages have the types and fields BEP 9 gives them |
| `Metadata.AnswerIs` | src/serving.rs:202-210 | the chunk is the dictionary's bytes at 16384 times the index, with the dictionary's own length; past the end there is a refusal |
| `Metadata.Responder.Handle` | src/serving.rs:194-214 | counts requests only, hangs up past the limit, and answers with the chunk or a refusal |
| `Metadata.MetadataAssembler.constructor` | src/metadata.rs:188-191 | as many empty places as there are pieces, at least one |
| `Metadata.MetadataAssembler.ForClaimedSize` | src/metadata.rs:181-186 | a claim from 1 byte to 16 MiB gives an empty assembler, any other an error |
| `Metadata.MetadataAssembler.AddPiece` | src/metadata.rs:200-215 | a chunk of the right index and length is put in; otherwise the error says which and nothing changes |
| `Metadata.MetadataAssembler.IsComplete` | src/metadata.rs:217-219 | whether every place is filled |
| `Metadata.MetadataAssembler.Assemble` | src/metadata.rs:227-234 | the chunks one after another, or incomplete |
| `Metadata.CompleteAssembles` | src/metadata.rs:217-234 | parts can be put together if and only if none is missing |
| `Metadata.ChunkAccepted` | src/metadata.rs:200-215 | every chunk the server cuts is accepted, whenever and however often it comes |
| `Metadata.ExchangeWorks` | src/serving.rs:194-214 | a run of requests is answered to its end if and only if it is no longer than 2 * ceil(length / 16384) + 8 |
| `Metadata.EndToEnd` | src/metadata.rs:71-234 | over the wire, in any order with repeats, the dictionary is assembled if every piece was asked for, and incomplete otherwise |
| `Metadata.OncePerPiece` | src/serving.rs:194-214 | a fetcher asking once per piece is within the limit and gets the dictionary |
| `Metadata.AddKeepsSized` | src/metadata.rs:200-215 | whatever is put in, each part held is of the length its place calls for |
| `Metadata.AssembledLength` | src/metadata.rs:200-234 | whoever sends the chunks, what is assembled is as long as claimed, if and only if the claim is not zero |
| `UtpReceiving.ReceiveTracks` | src/utp/conn.rs:392-420 | whatever packet comes, if its number is not taken for another's, the receiver goes on having a run of what was sent in order and the rest that came under its own number |
| `UtpReceiving.NearIsPlaced` | src/utp/conn.rs:392-398 | a number is never taken for another's less than a circle of 2^16 behind, less the window, and up to a circle ahead; one further either way it is |
| `UtpReceiving.TakenFor` | src/utp/conn.rs:392-415 | a packet in the window is kept as the packet of that place, which is itself if and only if it is not too far off |
| `UtpSending.SendDataBacks` | src/utp/conn.rs:706-723 | each packet carries the next bytes of what was written, under the next number |
| `UtpSending.AcknowledgeBacks` | src/utp/conn.rs:440-465 | whatever number is acknowledged, what is left in flight is what was sent last, under its own numbers |
| `UtpSending.RefusedExactly` | src/utp/conn.rs:440-465 | an acknowledgement changes nothing if and only if nothing is in flight, or it is of what was never sent, or the packet at the front is not among what it covers |
| `UtpSending.FairExactly` | src/utp/conn.rs:440-465 | an acknowledgement lets go of no packet past those it covers if and only if it covers one in flight or is refused |
| `UtpSending.RecentIsFair` | src/utp/conn.rs:440-465 | that is so unless it is both half a circle older than what is acknowledged and a whole circle older than what is sent |
| `UtpSending.AckCounts` | src/utp/conn.rs:440-465 | with at most a circle in flight, a true acknowledgement lets go of exactly what it covers if that and what it leaves are within half a circle, and of nothing otherwise |
| `UtpSending.HalfCircleCounts` | src/utp/conn.rs:440-465 | with at most half a circle in flight, every true acknowledgement lets go of exactly what it covers |
| `UtpSending.ZeroRefused` | src/utp/conn.rs:375-380 | with at most half a circle in flight, a repeated connection request, which acknowledges 0, is refused if and only if no packet numbered 0 is in flight |
| `UtpStream.StepKeepsSound` | src/utp/conn.rs:238-420 | every step of either end and of the network, requests and resets and any acknowledgement included, keeps: what is held is what was sent, and what was sent is what was written |
| `UtpStream.ReadInOrder` | src/utp/conn.rs:238-420 | in every run in which no packet is taken for another, with packets lost, repeated and reordered, what was missed before opening followed by what was read is a prefix of what was written |
| `UtpStream.NothingMissed` | src/utp/conn.rs:361-373 | nothing was missed if and only if no packet but a close was sent before the state packet that opened the connection |
| `UtpStream.ReadIsPrefix` | src/utp/conn.rs:258-270 | with nothing missed, what is read is a prefix of what was written |
| `UtpStream.EofIsAll` | src/utp/conn.rs:276-278 | at the end of the stream all that was written has been read, if and only if nothing was missed |
| `UtpStream.FairKeepsCame` | src/utp/conn.rs:343-386 | every fair step keeps what is acknowledged among what has come; where all that has come is acknowledged, a step does so if and only if it is fair |
| `UtpStream.FlushedIsReceived` | src/utp/conn.rs:287-289 | in every fair run, when every byte is acknowledged all of them have come, if and only if nothing was missed |
| `UtpStream.WronglyFlushed` | src/utp/conn.rs:343-386 | after a request or a reset that leaves `is_flushed` true, all bytes have come if and only if it was true before, where nothing unacknowledged has come |
| `UtpStream.ModestRuns` | src/utp/conn.rs:238-420 | a run is in place and fair if at most a circle is in flight, nothing is a circle late, no request comes that would be heeded and no reset while anything is in flight |
| `UtpStream.HalfCircleStalls` | src/utp/conn.rs:440-445 | with half a circle of packets that have not come, no acknowledgement lets go of anything until more of them come |
| `UtpProgress.AnyOrderArrives` | src/utp/conn.rs:392-420 | packets within the window that all come, in any order and with repeats, are all taken, if each fits when it comes |
| `UtpProgress.BeyondIsDropped` | src/utp/conn.rs:392-398 | a packet 64 or more past the one due, up to a circle, changes nothing |
| `UtpProgress.WritableIs` | src/utp/conn.rs:238-256 | a write takes what is left of 262144 bytes by those written and not acknowledged |
| `UtpProgress.PacketIsFull` | src/utp/conn.rs:706-723 | a packet carries all that is queued, up to 1380 bytes |
| `UtpLosses.RepeatedRequestLoses` | src/utp/socket.rs:94-105 | the witness: first number 0 and one byte in flight, and a repeated request makes it flushed and never received |
| `UtpLosses.ResetLoses` | src/utp/conn.rs:353-359 | the witness: with one byte in flight a reset makes it flushed and never received |
| `UtpLosses.LateOpeningLoses` | src/utp/conn.rs:361-373 | the witness: a fair run in which a byte is acknowledged and never read, because the first state packet was lost and the one that opened the connection was sent after the byte |
| `UtpLosses.CircleAheadMixes` | src/utp/conn.rs:706-723 | the witness: with 2^16 + 1 packets of a byte in flight and nothing late, the last of them is read as the first |
| `UtpLosses.HalfCircleIsReached` | src/utp/conn.rs:706-723 | half a circle can be in flight, and then acknowledgements are ignored |
| `UtpConnection.Connection.Write` | src/utp/conn.rs:238-246 | takes what fits, as the stream's step does |
| `UtpConnection.Connection.Read` | src/utp/conn.rs:258-270 | gives the oldest bytes and keeps the rest |
| `UtpConnection.Connection.OnPacket` | src/utp/conn.rs:343-386 | once ended nothing; a reset forgets what is in flight and ends; else the acknowledgement is heeded whatever the kind of packet, and data is received |
| `UtpConnection.Connection.Receive` | src/utp/conn.rs:392-420 | a step of the stream, the packets that were waiting included |
| `UtpConnection.Connection.ProcessAck` | src/utp/conn.rs:440-465 | a step of the stream: packets are let go of in order, a close among them noted |
| `UtpConnection.Connection.SendData` | src/utp/conn.rs:706-723 | a step of the stream and the packet it sends |
| `UtpConnection.Connection.SendFin` | src/utp/conn.rs:725-731 | a close is sent if and only if it is due, after all that was queued |

## Left out

- Sockets, threads, timeouts, HTTP, port mapping, the user interface, configuration and the daemon: they are input and
  output around what is modelled.
- `compress` of SHA-256 and all of SHA-1: parameters.
- Machine widths, except where the code wraps or truncates and the model says so (the SHA-256 length, the 32-bit
  fields of a metadata message, the 64-bit integers of bencode): trees of 2^32 leaves, 32-bit piece numbers, byte
  counters past 2^64 and a 32-bit `usize` are not modelled.
- RateLimit.RateLimiter.Reserve: tokens and seconds are real numbers, so the rounding of `f64` and of `Duration` is
  not captured; the method climbs with no other thread in between, and interleaving is that of `RateSharing`; the
  sleeping loop of `acquire_while` is not modelled.
- HashPieces.HashPieces: the progress callback is left out; the hasher is what it has been fed since its last reset,
  and the hashes are a list rather than one string of 20-byte hashes.
- HaveProtocol.ApplyKeepsSound: setting the bit and counting it are two steps that anything may come between, which
  allows more runs than the write lock of `HaveMap` does; one connection is followed, others being like it.
- Metadata.MessageReadBack: the encoder `src/metadata.rs` keeps for itself does what `encode` of `src/bencode.rs`
  does, and is modelled by that; the hash check after assembly is left out.
- SavedTorrents.SavedReadsBack: whether bytes are UTF-8 and whether a name is a safe path component are parameters;
  every reason for refusing an info dictionary is one error, `Rejected`. The trackers of a magnet link, and their
  lengths, are what the encoder can write.
- LayerFetch.FetchLayer: the answers of the peer are a parameter; connecting, the stop flag and the loop over files
  and peers are left out.
- UtpStream.ReadInOrder: asks of a run that no packet is taken for another (`InPlace`), without which it does not
  hold. When packets are sent and sent again is free, so timers, windows, congestion control and selective
  acknowledgements, which decide only that, are left out. An end is followed from when it is open; the request of the
  end that connects takes up a number of its own before the first.
- Padding files and `v2_piece_requests` of `src/webseed.rs`, `selected_pieces_of`, `layout_mask` and `visible_mask`:
  walks and lookups that would only add easy members.
- The `Request` and `HashRequest` arms of `Serving::handle`, allowed-fast sets and the extended handshake: checks on
  one message each.
- `src/json.rs`, `src/magnet.rs`, `src/tracker_discovery.rs`, `parse_rate` and `parse_size`: small parsers.
