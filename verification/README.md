# Couch file reading, B-tree modify bookkeeping and vbucket start-up decisions

This project models three pieces of a Rust port of couchstore and of the
ep-engine's couch KV store:

- **The paged chunk reader** (`FileRead`, file `file_read.dfy`). A couch file
  is a sequence of blocks. The first byte of every block is a marker that
  belongs to no chunk. `read_skipping_prefixes` fills a buffer with payload
  bytes one block piece at a time and steps over each marker. It is proved to
  compute exactly what a byte-at-a-time reference reader computes.
  `pread_bin_internal` decodes the 8-byte chunk prefix: a 31-bit big-endian
  length whose top bit is a flag, then the big-endian CRC-32C. It applies the
  header-size guard, reads the body and accepts it only when the checksum
  matches. `pread_bin`, `pread_header` and `pread_compressed` are thin
  variants of it. A writer-side layout (`Frame`, `EncodeChunk`,
  `EncodeHeader`) is defined only to state round trips: a chunk written and
  laid out across blocks reads back as its body. A corrupted body is
  rejected, and so is an oversized header.
- **The B-tree modify accumulator** (`BtreeModify`, file `btree_modify.dfy`).
  It covers the parts of `modify_node` that exist: the result record and its
  pushes, the node load and type-tag dispatch, and the trailing action loop.
  That loop is the whole behaviour for an absent node. It is implemented as an
  imperative method and proved against a recursive reference. The model also
  covers the `maybe_flush` trigger, `modify_btree`'s decision about the new
  root, and `UpdateIdContext::on_fetch`.
- **The vbucket start-up decisions** (`KvStore`, file `kv_store.dfy`). These
  are:
  - the directory-name filter;
  - parsing names of the form `<vbid>.couch.<rev>`;
  - the shard-ownership test;
  - the collection of revisions per vbucket (a method proved against a
    reference);
  - cache slot and cache size arithmetic;
  - the three-way reconcile of a stored revision with the revisions found;
  - the sanitising of the persisted vbucket state.

Supporting modules:

- `Results`: the `Option` and `Result` types.
- `DivMod`: facts about Euclidean division.
- `ByteOrder`: big-endian `u32` reading, and its inverse.
- `Text`: the modelled behaviour of Rust's `str::split`, `contains`,
  `ends_with`, unsigned `parse` and decimal `format!`. It includes the
  split/join and format/parse round trips.

Modelling conventions:

- Every panic of the source is an `Err` value. This covers `unwrap`,
  `assert!`, arithmetic overflow in a debug build, division by zero, an
  index out of range, and the `todo!()` of `maybe_flush`.
- One panic is not an `Err`: the `todo!()` that ends every call of
  `modify_node`. The model stops just before it and returns the state the
  function holds there (`BtreeModify.ModifyAbsentNode`). The statements
  about flushing and the new root are about that state. The source itself
  never reaches them, because it panics first.
- The file is an immutable sequence of bytes. A read returns what the file
  holds at the requested position, up to the requested size, or nothing at
  or after its end.
- The block size (`COUCH_BLOCK_SIZE`, defined in a constants module that is
  not part of this model) is a parameter greater than one.
- CRC-32C (section 12.1 of RFC 3720) and the raw Snappy decoder are passed
  in as functions (`Codecs`). Snappy is partial, so it returns an `Option`.
- A chunk read fills zero-filled buffers and never checks how many bytes
  arrived. So a chunk read at or past the end of the file yields an empty
  body. That body is accepted whenever the CRC-32C of the empty sequence is
  0 (`FileRead.ReadPastEndYieldsEmptyChunk`).

## Model

| member | source | states |
|---|---|---|
| FileRead.StoreRead | couchstore/src/file_read.rs:71-72 | a read after a seek yields a prefix of the file's bytes at the position, never more than asked; it is short only at end of file and empty past it |
| FileRead.SkipMarker | couchstore/src/file_read.rs:61-63 | a position on a block boundary moves one byte forward, any other stays; the result is never on a boundary |
| FileRead.ReadPayload | couchstore/src/file_read.rs:60-86 | the reference reader yields at most the requested bytes, ends off a boundary and no earlier than it started, falls short only at end of file, and reads nothing at end of file or for an empty request |
| FileRead.ReadPayloadRun | couchstore/src/file_read.rs:66-84 | reading a run of `c` contiguous bytes inside one block and then continuing gives the same bytes and position as the byte-at-a-time reader |
| FileRead.ReadSize | couchstore/src/file_read.rs:66-69 | each read asks for at least one and at most the remaining bytes, never crosses a block boundary, and stops short of the remaining bytes only at a block's end |
| FileRead.FillStep | couchstore/src/file_read.rs:72-84 | placing one block piece at the buffer cursor and advancing past it, plus the marker it may land on, keeps the loop invariant |
| FileRead.FillRound | couchstore/src/file_read.rs:66-84 | one loop iteration keeps the invariant; an empty read (end of file) leaves buffer, cursor and position untouched, any other read makes progress |
| FileRead.FillDone | couchstore/src/file_read.rs:65-85 | when the buffer is full or the file is exhausted, the loop's state is the reference result |
| FileRead.ReadSkippingPrefixes | couchstore/src/file_read.rs:60-86 | the buffer is filled from its start with the payload bytes the reference reads, the unfilled suffix is untouched, the final position is what the reference reaches and is off a boundary, and an empty buffer only skips the initial marker |
| FileRead.SkipFill | couchstore/src/file_read.rs:60-86 | the filled buffer keeps its length and the cursor ends off a block boundary |
| FileRead.ChunkLength | couchstore/src/file_read.rs:28-30 | the chunk length is the big-endian word of the first four prefix bytes with bit 31 cleared, so it is below 2^31 |
| FileRead.PrefixAt | couchstore/src/file_read.rs:24-26 | the prefix is always 8 bytes, read through the block skipper into a zeroed buffer |
| FileRead.StoredCrc | couchstore/src/file_read.rs:31 | the stored CRC is the big-endian word of prefix bytes 4 to 8: writing it back big-endian gives exactly those bytes |
| FileRead.BodyLength | couchstore/src/file_read.rs:33-36 | a plain chunk's body has the declared length; a header's has 4 bytes less, and a header declaring fewer than 4 bytes has no body length |
| FileRead.PreadBinInternal | couchstore/src/file_read.rs:23-49 | a header longer than the maximum is fatal; an accepted body has the declared length (less 4 for a header) and its CRC-32C equals the stored CRC; a mismatch reports both values; without a maximum the only failure is a mismatch |
| FileRead.PreadBin | couchstore/src/file_read.rs:19-21 | a plain read is the internal read without a header maximum, and an accepted body has exactly the declared length |
| FileRead.PreadHeader | couchstore/src/file_read.rs:51-58 | a missing maximum is fatal; otherwise the internal read starts one byte after the given position |
| FileRead.PreadCompressed | couchstore/src/file_read.rs:8-17 | a failed chunk read propagates; otherwise the body is decompressed, and a body Snappy rejects is fatal |
| FileRead.PrefixBytes | couchstore/src/file_read.rs:28-31 | the prefix a writer lays down decodes to the length and CRC it was built from, whatever the flag bit |
| FileRead.FrameAppend | couchstore/src/file_read.rs:60-86 | the block layout of two payloads laid out one after the other is the layout of their concatenation |
| FileRead.FrameThenRead | couchstore/src/file_read.rs:60-86 | payload laid out across blocks from a position is read back whole by the reference reader, which ends just past it |
| FileRead.FillFromFrame | couchstore/src/file_read.rs:60-86 | the block skipper reads a laid-out payload back whole into a zeroed buffer of its size |
| FileRead.ReadFramedPieces | couchstore/src/file_read.rs:24-41 | a laid-out chunk yields its prefix from the first skipper read and its body from the second |
| FileRead.ChunkFromPieces | couchstore/src/file_read.rs:33-48 | given the prefix and body the skipper reads, the chunk read returns the body when its CRC matches the stored one and reports the mismatch otherwise |
| FileRead.PreadBinRoundTrip | couchstore/src/file_read.rs:19-49 | a chunk written with its CRC-32C, at any block offset and with either flag, reads back as its body |
| FileRead.PreadHeaderRoundTrip | couchstore/src/file_read.rs:51-58 | a header written one byte after the position, within the maximum, reads back as its body |
| FileRead.OversizedHeaderRejected | couchstore/src/file_read.rs:33-34 | a header whose length field exceeds the maximum is rejected with that length |
| FileRead.PreadCompressedRoundTrip | couchstore/src/file_read.rs:8-17 | a chunk holding Snappy data reads back as the decompressed data |
| FileRead.CorruptedBodyRejected | couchstore/src/file_read.rs:44-46 | a body whose bytes changed so that its CRC-32C differs from the one written is rejected, reporting both checksums |
| FileRead.ReadPastEndYieldsEmptyChunk | couchstore/src/file_read.rs:39-48 | a chunk read at or past the end of the file yields an empty body when the CRC of nothing is 0 |
| ByteOrder.DecodeEncode | couchstore/src/file_read.rs:30-31 | writing a `u32` big-endian and reading it back gives the value |
| ByteOrder.EncodeDecode | couchstore/src/file_read.rs:30-31 | reading four bytes big-endian and writing the value gives the bytes |
| BtreeModify.NewResult | couchstore/src/btree_modify.rs:18-28 | a fresh result has no values, no pointers, is unmodified, has the default node type, and its count and length are 0 |
| BtreeModify.MrPushItem | couchstore/src/btree_modify.rs:178-186 | one item with no pointer is appended; the count grows by one and the length by key, value and 5; type, pointers and the modified flag are unchanged; the count and length keep matching the values |
| BtreeModify.MaybePureKv | couchstore/src/btree_modify.rs:167-176 | its effect is exactly that of pushing the item |
| BtreeModify.ValuesLengthAppend | couchstore/src/btree_modify.rs:185 | the length of a node's items is additive over concatenation |
| BtreeModify.PushAllKeepsAccounting | couchstore/src/btree_modify.rs:178-186 | appending items while adding their count and length keeps the accounting invariant |
| BtreeModify.AfterTrailingStep | couchstore/src/btree_modify.rs:142-156 | one more trailing action pushes an insert's data and marks the result modified, marks it modified for a removal, and leaves it alone for a fetch |
| BtreeModify.ApplyTrailingActions | couchstore/src/btree_modify.rs:134-157 | the loop succeeds exactly when every action in range exists and every insert carries data, and then equals the reference; otherwise it fails with the error of the first failing action |
| BtreeModify.ModifyAbsentNode | couchstore/src/btree_modify.rs:108-157 | for an absent node, the result is a KV node with no pointers whose values are the inserts of the range in order, whose count and length match them, and which is modified exactly when some action in range modifies |
| BtreeModify.LoadNode | couchstore/src/btree_modify.rs:108-112 | an absent pointer gives an empty buffer without reading; a present one gives the decompressed chunk at the pointer, or the read's error |
| BtreeModify.NodeKind | couchstore/src/btree_modify.rs:118-161 | an absent pointer selects KV without looking at the buffer; a present one needs a non-empty buffer whose first byte is 1 (KV) or 0 (KP); any other tag is fatal |
| BtreeModify.NodeKindOfTag | couchstore/src/btree_modify.rs:118-158 | a buffer starting with a node type's tag selects that type |
| BtreeModify.DispatchNode | couchstore/src/btree_modify.rs:108-161 | loading then dispatching: an absent node is KV, a failed load propagates, and a loaded node is classified by its tag |
| BtreeModify.MaybeFlush | couchstore/src/btree_modify.rs:188-197 | flushing aborts exactly when the result is modified, holds more than 3 items and is a KV node |
| BtreeModify.RootDecision | couchstore/src/btree_modify.rs:87-98 | the root is returned unchanged when the result is unmodified, has more than one item or has pointers; otherwise the empty pointer list makes the call fail |
| BtreeModify.OnFetch | couchstore/src/btree_modify.rs:41-49 | a value shorter than 6 bytes is fatal; otherwise exactly one action is appended, a removal of the value's first 6 bytes with no data |
| BtreeModify.InsertsModify | couchstore/src/btree_modify.rs:142-155 | a range that inserts anything marks the result modified |
| BtreeModify.FlushOfAbsentNode | couchstore/src/btree_modify.rs:188-197 | applied to the state an absent node reaches just before the `todo!()`, flushing aborts exactly when more than 3 actions are inserts |
| BtreeModify.RootOfAbsentTree | couchstore/src/btree_modify.rs:87-98 | the root decision, applied to the state an absent tree reaches just before `modify_node`'s `todo!()`, keeps the absent root unless the batch modifies with at most one insert, in which case it fails |
| BtreeModify.RemovalsInsertNothing | couchstore/src/btree_modify.rs:142-145 | a batch of removals is always applicable, inserts nothing, and modifies exactly when it is non-empty |
| BtreeModify.OnFetchQueuesRemoval | couchstore/src/btree_modify.rs:41-49 | the removal queued by a fetch is applicable, adds no value and marks the result modified |
| KvStore.CacheSize | ep_engine/src/kv_store.rs:18-20 | the cache size is the least count whose multiple of the shard count covers the vbuckets; with no shards it is 0 for no vbuckets and `usize::MAX` otherwise |
| KvStore.CacheSlot | ep_engine/src/kv_store.rs:116-118 | the slot is the quotient of the vbucket by the shard count; a zero shard count is fatal |
| KvStore.SlotWithinCache | ep_engine/src/kv_store.rs:116-118 | every vbucket below the vbucket count has a slot inside the cache |
| KvStore.Owns | ep_engine/src/kv_store.rs:133-144 | a vbucket is kept exactly when its residue is the shard id or it equals the last whole round of shards plus the shard id; a zero shard count is fatal, and a vbucket whose residue differs is fatal exactly when that sum overflows `u16`; in every other case it is not kept |
| KvStore.OwnershipIsResidue | ep_engine/src/kv_store.rs:133-144 | with a shard id below the shard count, ownership is exactly the residue test: the second test never admits another vbucket |
| KvStore.KeepDbFile | ep_engine/src/kv_store.rs:216 | a name is kept exactly when `.couch.` occurs at some position in it and its last 8 characters are not `.compact` |
| KvStore.DiscoverDbFiles | ep_engine/src/kv_store.rs:210-221 | a listed name is kept exactly when it contains `.couch.` and does not end with `.compact` |
| KvStore.DbFileDiscovered | ep_engine/src/kv_store.rs:216 | a file name the store writes passes the filter, and its compaction file does not |
| Text.Split | ep_engine/src/kv_store.rs:123 | splitting always yields at least one piece |
| Text.SplitPiecesFree | ep_engine/src/kv_store.rs:123 | no piece of a split contains the separator |
| Text.JoinSplit | ep_engine/src/kv_store.rs:123 | the pieces of a split, joined with the separator, give back the string |
| Text.SplitJoin | ep_engine/src/kv_store.rs:123 | splitting the join of separator-free pieces gives back the pieces |
| Text.Contains | ep_engine/src/kv_store.rs:216 | a string contains another exactly when it occurs at some position |
| Text.ParseUnsigned | ep_engine/src/kv_store.rs:130-131 | a parse succeeds exactly when the string, less one optional leading `+`, is at least one decimal digit (leading zeros allowed) with a value below the type's limit, and then yields that value |
| Text.NatToDecimal | ep_engine/src/kv_store.rs:230 | a formatted number is a non-empty string of digits with no leading zero |
| Text.DecimalRoundTrip | ep_engine/src/kv_store.rs:230 | the digits a number is formatted to have that number as value |
| Text.ParseFormatted | ep_engine/src/kv_store.rs:130-131 | parsing a formatted number that fits gives the number back |
| Text.DecimalHasNoDot | ep_engine/src/kv_store.rs:230 | a formatted number holds no `.`, so it cannot disturb the split |
| KvStore.ParseEntry | ep_engine/src/kv_store.rs:123-144 | a name that does not split into three parts on `.` is fatal, reporting the name and the piece count; an entry that is kept belongs to a vbucket this shard owns |
| KvStore.ParseEntryCases | ep_engine/src/kv_store.rs:123-144 | for a three-part name: a `master` name is skipped; otherwise an unparsable first part is an invalid vbucket, then an unparsable third part an invalid revision; when both parse, an ownership failure propagates, and otherwise the entry is kept exactly when this shard owns the vbucket |
| KvStore.DbFileBase | ep_engine/src/kv_store.rs:230 | the base name written for a vbucket's revision splits on `.` into exactly the vbucket's decimal digits, `couch` and the revision's decimal digits |
| KvStore.DbFileName | ep_engine/src/kv_store.rs:229-231 | the file name is the database directory, a `/`, then the base name, and nothing else |
| KvStore.MasterFilesSkipped | ep_engine/src/kv_store.rs:125-128 | a `master.couch.<rev>` name is skipped without error, whatever the revision |
| KvStore.ParseDbFileBase | ep_engine/src/kv_store.rs:123-144 | a written file name parses back to its vbucket and revision, and is kept exactly when this shard owns the vbucket |
| KvStore.GetVbucketRevision | ep_engine/src/kv_store.rs:120-149 | the collection succeeds exactly when every name parses, failing with the first bad name's error; the map holds a vbucket's revision exactly when a kept entry has it, and has no empty set |
| KvStore.CollectStep | ep_engine/src/kv_store.rs:146 | inserting a revision into its vbucket's set records exactly one more entry |
| KvStore.VbucketRevisionMembership | ep_engine/src/kv_store.rs:120-149 | a vbucket holds a revision in the map exactly when some name parses to that vbucket and revision and is kept |
| KvStore.Reconcile | ep_engine/src/kv_store.rs:84-99 | the stored revision becomes the larger one; nothing is stale exactly when the two are equal; otherwise the smaller one is stale |
| KvStore.ReconcileAll | ep_engine/src/kv_store.rs:82-105 | reconciling the found revisions in turn never lowers the stored revision, and reports at most one stale revision per revision found |
| KvStore.StaleAreOlder | ep_engine/src/kv_store.rs:82-105 | every revision reported stale is older than the revision finally stored, so the kept revision's file is never removed |
| KvStore.ReconcileAllSpec | ep_engine/src/kv_store.rs:81-106 | in any enumeration order, the stored revision ends as the newest of all, and the stale revisions are exactly all the others |
| KvStore.ReconcileVbucket | ep_engine/src/kv_store.rs:81-106 | with no revisions found nothing happens; otherwise the call succeeds exactly when the shard count is non-zero and the vbucket's slot lies in the revision map, failing with a division by zero or an out-of-range slot; on success the slot's entry becomes the newest revision, no other entry changes, and each stale revision names a file to remove |
| KvStore.AsI64 | ep_engine/src/kv_store.rs:185 | `as i64` keeps a `u64` below 2^63 and subtracts 2^64 from any larger one, so the result agrees with the input modulo 2^64 |
| KvStore.AsU64 | ep_engine/src/kv_store.rs:185 | the inverse reinterpretation keeps a non-negative `i64` and adds 2^64 to a negative one |
| KvStore.ReinterpretRoundTrip | ep_engine/src/kv_store.rs:185 | the `u64`/`i64` reinterpretations are inverse both ways |
| KvStore.SanitizeMaxCas | ep_engine/src/kv_store.rs:198-200 | `u64::MAX` becomes 0 and any other value is kept, so the result is never `u64::MAX` |
| KvStore.ReadVbState | ep_engine/src/kv_store.rs:183-203 | the high sequence number is the header's update sequence read as signed, the purge sequence number is the header's, and `max_cas` is sanitised |

## Left out

- Seek and read system calls: the file is an immutable byte sequence, and a read returns every byte it can. A real `read` may return fewer bytes before end of file; the source loops on that too, but the model does not cover that case.
- `usize` overflow of file positions and of the result's counters is not modelled: positions, counts and lengths are unbounded naturals.
- CRC-32C and the raw Snappy decoder are passed-in functions. Their bit-level definitions are not modelled.
- FileRead.PreadBinInternal: a header whose length field is below 4 makes `chunk_len -= 4` overflow `u32`. The model treats this as a fatal error (`HeaderLengthUnderflow`), as a debug build panics; a release build would wrap around.
- The existing-record loop of `modify_node` (couchstore/src/btree_modify.rs:122-133) is left out. It depends on `read_kv` from `node_types`, which is not part of this model, and it does nothing with the records. For a present KV node the model stops after the dispatch.
- The KP branch of `modify_node` is empty, and the `todo!()` that ends it is not modelled. The result for an absent node is what the function holds just before it.
- `flush_mr` and `flush_mr_partial` have empty bodies and are not modelled. The root-split write in `modify_btree` is only a comment and is not modelled either.
- `NodeType::default()` lives in `btree_read`, which is not part of this model, so it is a parameter of `NewResult`. Node types other than KP and KV are one value (`OtherNodeType`). `NodePointer` keeps only its `pointer` field.
- The "not found" fetch callback in the trailing loop (couchstore/src/btree_modify.rs:136-141) has an empty body, so it has no model.
- `populate_rev_map_and_remove_stale_files` is modelled one vbucket at a time (`ReconcileVbucket`). The fold over all vbuckets, and the order in which a `HashMap`/`HashSet` enumerates them, are left out. `ReconcileAllSpec` holds for every enumeration order.
- `get_db_revision`, `update_db_file_map` and `make_revision_map` appear only as reads and writes of the revision map, a plain sequence. The `Arc<RwLock<…>>` around it is a concurrency concern.
- Filesystem and database plumbing is not modelled: `read_dir`, `metadata`, `remove_file`, `println!`, `Db::open`, local-document reading, `serde_json` decoding, `maybe_remove_compact_file`, `initialise` and the write into `cached_vb_states`. The decoded state and the header come in as values.
- KvStore.CacheSize: the `f64` division and `ceil` are replaced by integer ceiling division, which gives the same value for `u16` operands.
- `Vbid` is taken as a `u16` formatted in decimal. The `vbucket` module defining it and `VBucketState` is not part of this model, so `VbState` keeps only the three fields `read_vb_state` sets.
- The `test_new` test depends on files on disk and has no model.
