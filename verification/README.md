# RDFStore in Dafny

RDFStore keeps RDF statements. Each statement has a number, and every subject, predicate, object,
context, language, datatype, date and number of a statement leads to a compressed bit vector of
such numbers. This project models the parts of it that are hardest to get right and proves what
they do:

- The coders for bit vectors: nulls, rle and bits (`Runs`, `RunFormat`, `RunCoders`), the LZ block
  coder (`BlockFormat`, `BlockCoder`), the hierarchical bitmap coder (`Fraenkel`) and the
  repeated-block coder (`Mine`). Each is modelled twice: as a format with its decoding, for which
  the round trip is proved, and as the loops over arrays, which are proved to follow the format.
  `CoderExamples` says what streams look like byte by byte, for whole families of data.
- The write-back cache between the store and its backend: a recency ring, a sorted index over the
  same nodes, dirty records and cached misses (`CacheModel`, `CacheRuns`, `CachingStore`). Over
  every run it refines a plain table, and it evicts only the least recently used key.
- The algebra of id vectors and the iterators (`ByteBits`, `BitVectors`, `Iterators`).
- The index: insert and remove keep every table exact (`Statements`, `TripleStore`, `StoreRuns`),
  exactly if the coder brings back the vectors and the caches answer, and never use a number twice.
  `Codecs` says for each coder which sets of ids it brings back, with `RunLoss` for the run coders.
- Search (`Queries`, `Ranges`, `Searching`) and the description of a resource (`FetchObject`).
- The record a statement is stored as (`Records`), SHA-1 in pieces (`Sha1Spec`, `Sha1Context`)
  with its known answer for abc (`Sha1Example`), and the closed formula for seconds since 1970 (`Calendar`).

Where the code falls short of what is expected of it, the model follows the code, and it is proved
what the code does instead and when:

- A word in the coders is an unsigned 32-bit integer (`include/sflcomp.h`), but a run has two
  length bytes. Data with a run of more than 65535 equal bytes does not come back from nulls, rle
  or bits (`RunFormat.RoundTrip`). The store's vectors may be 262144 bytes, so with the default
  coder a statement numbered 524288 can be posted as statement 0 (`Codecs.LostStatement`), and
  removing one statement can lose another (`Codecs.RemoveLosesExample`). Which sets of ids come back
  is said exactly (`Codecs.RunServesWhen`), and so is which inserts keep the index exact
  (`Codecs.RunPostableWhen`). The block coder loses nothing (`Codecs.BlockServesAll`).
- A bits stream can be half as long again as the data, not the tenth the comment at
  `sflcomp.c:613-629` speaks of (`RunCoders.BitsGrowthExample`).
- The Fraenkel compressor accepts eight times the data its expander has room for
  (`Fraenkel.BufferSuffices`), does not stop on no data at all (`Fraenkel.NothingNeverEnds`), and
  turns zeros into eight zeros.
- The repeated-block coder writes a count of 2^28 as zero (`Mine.RoundTrip`).
- The cache's delete answers for the backend, so it reports a key that was only ever in the cache as
  not found (`CacheRuns.DeleteReply`). `rdfstore_remove` gives up on that answer and leaves the index
  half changed. It also reads and writes contexts, languages, datatypes, dates and numbers past the
  cache, while insert and search go through it, so that a cached record of such a key is not seen
  by one and goes stale for the other. `TripleStore.Store.Remove` and `StoreRuns.ApplyDrop` say
  exactly when a removal succeeds and when the index is right after it.
- `rdfstore_remove` looks a statement up by its digest and takes the keys of the one it is given:
  `TripleStore.Unposted` says when the index survives two statements with one digest.
- A list of requirements in a search skips missing keys and starts over when nothing is left
  (`Queries.AllIsExactWhen`, with an example of each). It finds too much, never too little
  (`Searching.AnswerIsFilter`).
- The description of a resource can miss statements near it if the blank nodes form a cycle: a visit
  cut off by the level cap puts its statements into the result, and they are not followed again
  (`FetchObject.CycleLoses`).
- Subtract and complement lose ids beyond the negated vector (`Iterators.Iterator.Subtract`);
  subtracting nothing leaves nothing (`Iterators.SubtractNothing`).
- Removing at a cursor leaves its counter alone, so a walk that removes anything before its last
  statement ends early (`Iterators.WalkRemoving`).
- A literal refused by insert has used up a number, which size counts (`TripleStore.Store.Size`).
- A record comes back as it was exactly if it is canonical (`Records.RecordRoundTrip`).

The files build on each other in this order: `Options`, `ByteString`, `ByteBits`; the coders and
`CoderExamples`; the cache; `BitVectors`, `Iterators`; `RunLoss`; `Statements`, `Store`, `Codecs`;
`Queries`, `Ranges`, `Search`, `StoreRuns`, `FetchObject`; `Records`; `Sha1Spec`, `Sha1Example`,
`Sha1`; `Calendar`. `dafny verify dfyconfig.toml` checks them all.

What comes from outside the modelled code is a parameter: digests of nodes and statements, case
folding, and the parsing of integers, doubles and dates are the functions of `Statements.World`;
the coding functions of a store are a `TripleStore.Codec`; how the caches of its tables stand
when a statement is removed is a `TripleStore.Caches`; the byte order of the machine is a field
of a SHA-1 context, and the width of `time_t` an argument of `Calendar.Mktime`.

## Model

| member | source | states |
|---|---|---|
| ByteString.CmpAntisymmetric | backend_caching_store.c:430-456 | comparing equal means being the same key, and swapping two keys flips the sign |
| ByteString.LessTransitive | backend_caching_store.c:430-456 | the key order is transitive |
| ByteString.KeyOrderIsTotal | backend_caching_store.c:430-456 | the key order is total and strict |
| ByteString.LessIsPrecedes | backend_caching_store.c:430-456 | a key is less exactly if the other goes on where it ends or has the greater byte where the two first differ, as unsigned numbers |
| ByteString.PackDigits | include/rdfstore.h:485-486 | a 32-bit number is written as its four digits to the base 256, the most significant first |
| ByteString.UnpackDigits | include/rdfstore.h:485-486 | four bytes are read back as that number |
| CacheModel.Lookup | backend_caching_store.c:458-486 | the table a cache stands for answers each key as its cached record, or else the backend, does |
| CacheModel.EvictKeepsTable | backend_caching_store.c:265-281 | evicting the least recently used record writes it back if dirty and changes nothing a caller can see |
| CacheModel.StepShape | backend_caching_store.c:260-372 | a step makes room if it must, renews one record and brings it to the front |
| CacheModel.StepCoherent | backend_caching_store.c:243-393 | clean records agree with the backend, keys stay distinct and the cache never exceeds its size, through every step |
| CacheModel.StepRefines | backend_caching_store.c:243-393 | one step keeps the cache coherent, has the effect of the operation on the plain table, and leaves the key first in recency order |
| CacheRuns.PurgeSettles | backend_caching_store.c:400-417 | after a purge nothing is cached and the backend equals the table the caller saw |
| CacheRuns.ExecRefines | backend_caching_store.c:783-918 | each call changes the plain table as the plain store would and answers the same, but for the code of delete |
| CacheRuns.BumpRefines | backend_caching_store.c:969-1030 | inc and dec through the cache are inc and dec on the plain table |
| CacheRuns.BumpCounts | backend_caching_store.c:969-1030 | a bumped counter moves by one modulo 2^32 and keeps whatever follows it |
| CacheRuns.BumpUp | backend_caching_store.c:969-998 | inc on the bytes: the last of the four goes up by one, and every 255 turns into 0 and carries |
| CacheRuns.BumpDown | backend_caching_store.c:1000-1030 | dec on the bytes, with the borrows |
| CacheRuns.StoredIsFetched | backend_caching_store.c:783-900 | what was stored is fetched, and exists |
| CacheRuns.DeletedIsAbsent | backend_caching_store.c:783-917 | what was deleted is not fetched any more, and does not exist |
| CacheRuns.OthersStay | backend_caching_store.c:783-1047 | no call changes what is fetched under a key it does not name, and sync changes nothing |
| CacheRuns.BumpedIsFetched | backend_caching_store.c:969-1030 | inc and dec answer what is fetched from then on: the counter moved by one if there was one, and otherwise nothing |
| CacheRuns.DeleteReply | backend_caching_store.c:513-531 | the code of delete is the plain table's exactly unless the key is known to the cache only |
| CacheRuns.DeleteReplyExample | backend_caching_store.c:513-531 | a key stored and deleted before any write-back is reported as not found |
| CacheRuns.RunsRefine | backend_caching_store.c:783-1047 | over every run of fetch, store, exists, delete, inc, dec and sync the cache refines a plain table |
| CacheRuns.SyncedRun | backend_caching_store.c:1032-1047 | a run that ends in a sync leaves the backend holding the plain run's table |
| CacheRuns.KeepsMostRecent | backend_caching_store.c:260-349 | through any run of all seven calls the cached keys are the most recently used ones since the last sync, in order: eviction takes only the least recently used |
| CacheRuns.FreshKeepsMostRecent | backend_caching_store.c:260-417 | the same from an empty cache |
| CacheRuns.RecentOnce | backend_caching_store.c:335-349 | the recently used keys are the keys of the history, each once |
| CacheRuns.RecentOrder | backend_caching_store.c:335-349 | and of two of them the one used later stands in front |
| CachingStore.Unlink | backend_caching_store.c:338-340 | taking a node out leaves a well-formed ring of the others, in order |
| CachingStore.LinkBefore | backend_caching_store.c:311-322 | putting a node before the head gives a well-formed ring with it in front |
| CachingStore.BSearch | backend_caching_store.c:251-253 | the search of a sorted index finds the slot of the key, or says that no slot has it |
| CachingStore.Sink | backend_caching_store.c:324-329 | one pass of the sort puts a node in its place and keeps the others in order |
| CachingStore.QSort | backend_caching_store.c:324-329 | the index ends up strictly sorted over the same nodes |
| CachingStore.Caching.EvictLast | backend_caching_store.c:265-281 | the tail of the ring leaves the ring and frees its index slot, and its record goes to the backend if dirty |
| CachingStore.Caching.TakeSlot | backend_caching_store.c:264-289 | a node and an index slot for a new key: fresh ones below the maximum, the least recently used ones at it |
| CachingStore.Caching.Fill | backend_caching_store.c:291-306 | what each kind of request leaves in the record of a key that was not cached |
| CachingStore.Caching.Miss | backend_caching_store.c:260-329 | a miss is the specification's step: evict, fill, link in front, sort the index |
| CachingStore.Caching.MoveToFront | backend_caching_store.c:335-349 | a hit moves the node to the head and keeps the ring and the index over the same nodes |
| CachingStore.Caching.Renew | backend_caching_store.c:351-372 | what each kind of request does to the record of a cached key |
| CachingStore.Caching.CacheKey | backend_caching_store.c:243-393 | the pointer structure stays valid (ring, sorted index, size) and its records, backend and answer are those of the specification's step |
| CachingStore.Caching.PurgeCache | backend_caching_store.c:400-417 | the ring is walked from its head, every dirty record written, and the cache left empty |
| CachingStore.Caching.Fetch | backend_caching_store.c:783-825 | fetch answers and changes state as specified |
| CachingStore.Caching.Store | backend_caching_store.c:839-859 | store answers and changes state as specified |
| CachingStore.Caching.ExistsKey | backend_caching_store.c:874-900 | exists answers and changes state as specified |
| CachingStore.Caching.Delete | backend_caching_store.c:902-917 | delete answers and changes state as specified |
| CachingStore.Caching.Bump | backend_caching_store.c:969-1030 | inc and dec read, move and write back the counter as specified |
| CachingStore.Caching.Sync | backend_caching_store.c:1032-1047 | sync is a purge |
| Runs.RunIsMaximal | sflcomp.c:263-282 | a run is the longest stretch of equal bytes |
| Runs.ScanRun | sflcomp.c:268-281 | the scan with a planted sentinel finds the end of the run, and the data before the sentinel is unchanged |
| RunFormat.FirstToken | sflcomp.c:353-607 | every token the coders write reads back as its run, the length modulo 65536; no token class is taken for another |
| RunFormat.ExpandFlush | sflcomp.c:238-339 | a literal string behind its header reads back as itself |
| RunFormat.ExpandEncodeFrom | sflcomp.c:238-859 | from any position, expanding what is written gives what was kept of every run, with the waiting literals in front |
| RunFormat.RoundTrip | sflcomp.c:238-859 | every stream expands; it gives back the data exactly when no run is longer than its two length bytes can count |
| RunFormat.LongRunExample | sflcomp.c:238-859 | 65536 zeros expand to nothing |
| RunFormat.EncodeSize | sflcomp.c:238-779 | at most n + ceil(n/127) bytes for nulls and rle, and n + ceil(n/2) for bits |
| CoderExamples.NullsRun | sflcomp.c:432-536 | the bytes a run comes to with the nulls coder, for every byte and length |
| CoderExamples.RleRun | sflcomp.c:238-339 | the same of the rle coder, where zeros and blanks are shorter |
| CoderExamples.BitsZeros | sflcomp.c:631-779 | the bytes a run of zeros comes to with the bits coder |
| CoderExamples.BitsRun | sflcomp.c:631-779 | and a run of a byte of several bits |
| CoderExamples.BitsSingles | sflcomp.c:631-779 | a byte of one bit is written as the position of the bit |
| CoderExamples.Literals | sflcomp.c:318-339 | bytes that go into no token are a string behind its length, up to 127 of them, or 120 and the length plus seven for bits |
| CoderExamples.OneTooMany | sflcomp.c:318-339 | one byte more starts a second string |
| CoderExamples.ShortRuns | sflcomp.c:238-779 | a zero, three other bytes, two bytes and three bytes are no run for nulls, rle and bits |
| RunLoss.KeptWeighs | sflcomp.c:238-859 | the positions of the bytes that are not zero add up to no more once a stream was expanded, and to less if an over-long run is lost that is not all zeros to the end |
| RunLoss.KeptButZeros | sflcomp.c:238-859 | otherwise only zeros at the end are lost |
| RunLoss.IdsKept | sflcomp.c:238-859 | as a set of ids a vector comes back from a run-length coder exactly if it has no over-long run with anything set in it or behind it |
| RunLoss.SpoiltByIds | sflcomp.c:238-859 | and that depends on the ids only, not on the zeros at the end of a vector |
| RunCoders.PutLiteral | sflcomp.c:318-331 | a literal byte opens a header if none is open and closes a full string |
| RunCoders.PutToken | sflcomp.c:275-317 | a token closes the open literal string by filling in its header |
| RunCoders.CompressNulls | sflcomp.c:432-536 | the nulls coder writes the specified stream and leaves the data unchanged in front of the sentinel |
| RunCoders.CompressRle | sflcomp.c:238-339 | the same of the rle coder |
| RunCoders.CompressBits | sflcomp.c:631-779 | the same of the bits coder, with the wrapped guard for a single byte |
| RunCoders.BitsRoundTrip | sflcomp.c:631-859 | what the bits coder writes expands to the data exactly when no byte of several bits, and no zero, is repeated more than 65535 times |
| RunCoders.BitsSize | sflcomp.c:613-629 | the bits stream fits n + ceil(n/2) bytes, or four bytes for a single one |
| RunCoders.BitsGrowthExample | sflcomp.c:613-629 | two bytes can take three: more than the ten percent the source's comment allows for |
| CoderExamples.BitsOneByte | sflcomp.c:631-779 | a single byte of several bits is a literal, or a run of one if three more of it lie past the data |
| RunCoders.ExpandNulls | sflcomp.c:550-607 | expansion follows the format on any stream that does not end inside a token |
| RunCoders.ExpandRle | sflcomp.c:353-409 | expansion follows the format on any stream that does not end inside a token |
| RunCoders.ReadRun | sflcomp.c:821-853 | the header of a run gives its length and its byte |
| RunCoders.ExpandBits | sflcomp.c:792-859 | expansion follows the format on any stream that does not end inside a token |
| RunCoders.NullsThereAndBack | sflcomp.c:432-607 | compressing and expanding arrays gives the data back exactly when it has no over-long run |
| RunCoders.RleThereAndBack | sflcomp.c:238-409 | the same of the rle coder |
| RunCoders.BitsThereAndBack | sflcomp.c:631-859 | the same of the bits coder |
| BlockFormat.FlagsNext | sflcomp.c:153-183 | shifting the command word moves the next of its sixteen flags under the mask |
| BlockFormat.DecodeOne | sflcomp.c:159-180 | each kind of token decodes to what it stands for; a run is never taken for a match |
| BlockFormat.DecodePack | sflcomp.c:132-186 | every flag meets its token: a packed stream decodes to what its tokens play |
| BlockCoder.NearIsTrue | sflcomp.c:195-208 | an entry that passes the distance test is a true earlier position 1 to 4095 back, although slots hold 16-bit shorts |
| BlockCoder.NearWhen | sflcomp.c:195-208 | of the positions a slot can hold, exactly those up to 4095 back pass |
| BlockCoder.ChooseIsSound | sflcomp.c:74-103 | the chosen token is valid and plays exactly the bytes it stands for |
| BlockCoder.CopyIsData | sflcomp.c:163-169 | copying a match byte by byte extends the data by itself, also where it overlaps |
| BlockCoder.TokensPlay | sflcomp.c:43-118 | the tokens of a block play its data |
| BlockCoder.BlockRoundTrip | sflcomp.c:43-186 | expanding a compressed block gives the data back, whatever the hash proposes and whatever lies past the end; the block is at most one byte longer |
| CoderExamples.BlockTokens | sflcomp.c:74-103 | the bytes of literals, matches and runs |
| CoderExamples.LongestMatch | sflcomp.c:195-216 | a match goes on until the bytes differ, the data ends, or it is 18 long |
| CoderExamples.LongestRun | sflcomp.c:74-78 | a run goes on until the byte changes, the data ends, or it is 4095 long |
| CoderExamples.BlockOfRun | sflcomp.c:43-118 | the seven bytes a block of one run comes to |
| CoderExamples.BlockOfSix | sflcomp.c:43-216 | the eight bytes that six times abc comes to: the hash finds the first abc from the second, and the match copies itself |
| CoderExamples.ShortBlock | sflcomp.c:43-118 | a block of fewer than three bytes is copied |
| BlockCoder.ScanSize | sflcomp.c:74-78 | the run at a position is measured exactly |
| BlockCoder.GetMatch | sflcomp.c:195-216 | a match is found only if its bytes are equal, with length 3 to 18 |
| BlockCoder.CompressBlock | sflcomp.c:43-118 | the packed tokens, or a plain copy exactly when they would take more room than the data |
| BlockCoder.ExpandBlock | sflcomp.c:132-186 | expansion follows the format on any stream that stays within itself |
| BlockCoder.BlockThereAndBack | sflcomp.c:43-186 | compressing and expanding arrays gives every block back, in at most one byte more |
| Fraenkel.MaskBit | fraenkel_compress.c:18-27 | bit k of a mask says whether byte k of its group is non-zero |
| Fraenkel.RootIsOne | fraenkel_compress.c:17-34 | the levels end with a single root byte after the depth's number of passes |
| Fraenkel.DepthIsLeast | fraenkel_compress.c:48-64 | the depth is the least positive k with n <= 8^k |
| Fraenkel.StreamSize | fraenkel_compress.c:7-35 | a stream is at most n + n/4 + 1 bytes |
| CoderExamples.FraenkelThree | fraenkel_compress.c:7-35 | the stream of three bytes |
| CoderExamples.OneLevel | fraenkel_compress.c:7-35 | up to eight bytes come to those that are set and one mask |
| CoderExamples.TwoLevels | fraenkel_compress.c:7-35 | nine to 64 bytes come to those that are set, the masks that are, and the root |
| Fraenkel.CompressLevel | fraenkel_compress.c:18-31 | one pass copies the non-zero bytes and leaves the masks, also when it overwrites the level it reads |
| Fraenkel.CompressFraenkel | fraenkel_compress.c:7-35 | the compressor writes the non-zero bytes level by level and the root last |
| Fraenkel.PaddedParent | fraenkel_compress.c:53-61 | padding a level and its masks with zeros keeps one the parent of the other |
| Fraenkel.ExpandMask | fraenkel_compress.c:53-61 | one mask becomes eight bytes, read from the end of the stream |
| Fraenkel.ExpandRun | fraenkel_compress.c:48-63 | one run becomes the reverse of the next lower level |
| Fraenkel.UnfoldsTo | fraenkel_compress.c:48-64 | the expander stops after the lowest level, but after one run if no byte is set |
| Fraenkel.BufferSuffices | fraenkel_compress.c:42-64 | the runs the expander unfolds before the stream is used up fit its local buffer exactly for n <= 32768 or data of zeros; the compressor accepts eight times as much |
| Fraenkel.NothingNeverEnds | fraenkel_compress.c:17-33 | on no data every level is empty, so the compressor never gets to a single byte |
| Fraenkel.ExpandFraenkel | fraenkel_compress.c:37-70 | expanding a stream the buffer is enough for gives the data padded with zeros to 8^depth, or eight zeros if no byte is set |
| Fraenkel.RestoredIsPadded | fraenkel_compress.c:37-70 | the padding is all zeros and its length the least possible power of eight |
| Fraenkel.FraenkelThereAndBack | fraenkel_compress.c:7-70 | compressing and expanding arrays of up to 32768 bytes, or of zeros, pads them and loses nothing |
| Mine.LengthOfHeader | my_compress.c:152-180 | the three length encodings with optional period read back as written, except that 2^28 reads as zero; a header byte is never zero |
| CoderExamples.MineHeaders | my_compress.c:152-184 | the bytes of a header in each of its forms |
| Mine.FirstOfPacked | my_compress.c:152-212 | a written segment reads back as itself, or stops the expander if its count is 2^28 |
| Mine.ExpandPacked | my_compress.c:231-302 | expanding a written stream gives the segments before the first count read as zero |
| Mine.CountIsTimes | my_compress.c:86-93 | the repetitions counted are there, and at least a byte is left after them |
| Mine.ChosenOnce | my_compress.c:79-144 | the choice of a segment leaves no freedom |
| Mine.ChosenPlays | my_compress.c:79-144 | a chosen segment stands for exactly the bytes it was chosen for and never passes the end |
| CoderExamples.MineRun | my_compress.c:79-116 | a run of n bytes is repeated n - 1 times |
| CoderExamples.MineGoodEnough | my_compress.c:79-116 | a block that repeats ten thousand times for each of its bytes ends the search |
| CoderExamples.MineBestOfAll | my_compress.c:79-116 | if the chosen block repeats less often than that, none repeats more often for its length |
| CoderExamples.MineDistinct | my_compress.c:119-134 | bytes that all differ are a literal string of up to 127 |
| CoderExamples.MinePair | my_compress.c:79-134 | two equal bytes alone are no repetition, and the second ends the literal string |
| Mine.RoundTrip | my_compress.c:63-302 | expansion gives the data back exactly when no segment repeats 2^28 times, as none does up to 2^28 bytes |
| Mine.LongRunExample | my_compress.c:63-302 | 2^28 + 1 zeros expand to nothing |
| Mine.CountMatches | my_compress.c:86-93 | the inner loop counts the repetitions of a block |
| Mine.FindBest | my_compress.c:79-116 | the first period good enough, or else the first of the best ratio; none only if no block is repeated |
| Mine.CountLiterals | my_compress.c:119-134 | a literal string is of distinct bytes and goes on until one comes back, the data ends, or it is 127 long |
| Mine.PutHeader | my_compress.c:152-184 | the header is written in place, its flags set last |
| Mine.PackedSize | my_compress.c:152-212 | a segment takes at most twice the bytes it stands for |
| Mine.CompressMine | my_compress.c:63-228 | the stream is the packed cut of the data into chosen segments |
| Mine.ReadHeader | my_compress.c:238-262 | run length and period are worked out from the header bytes |
| Mine.ExpandMine | my_compress.c:231-302 | expansion follows the format on any stream that does not end inside a segment |
| Mine.MineThereAndBack | my_compress.c:63-302 | compressing and expanding arrays of up to 2^28 bytes gives them back |
| ByteBits.BitOf | rdfstore_bits.c:267-370 | how the operators of the language act on a single bit |
| ByteBits.SameBits | rdfstore_bits.c:267-370 | a byte is the set of its bits |
| BitVectors.TrimmedIds | rdfstore_bits.c:380-386 | zero bytes at the end stand for no ids |
| BitVectors.ShortOnce | rdfstore_bits.c:380-386 | a set of ids has exactly one vector without zeros at the end |
| BitVectors.SetMask | rdfstore_bits.c:95-152 | one bit is set or cleared, the vector extended with zeros by steps of sixteen bytes, and the result says whether anything changed |
| BitVectors.GrownIs | rdfstore_bits.c:95-152 | a vector that has no room for an id ends with the sixteen bytes the id is in |
| BitVectors.GetFirstSetAfter | rdfstore_bits.c:228-255 | the least id from a position on, or a position past the end if there is none |
| BitVectors.IsAnySet | rdfstore_bits.c:192-214 | the least id of the same place within a byte, from a position on |
| BitVectors.Shorten | rdfstore_bits.c:380-386 | the ids stay and no zero byte is left at the end |
| BitVectors.And | rdfstore_bits.c:332-348 | the result vector is the intersection, of the returned length |
| BitVectors.Or | rdfstore_bits.c:308-323 | the result vector is the union, of the returned length |
| BitVectors.Exor | rdfstore_bits.c:267-300 | the result vector is the set difference, of the returned length |
| BitVectors.Not | rdfstore_bits.c:356-370 | the ids the vector has room for and does not have |
| Iterators.Iterator.CountIds | rdfstore_iterator.c:1147-1153 | size becomes the number of ids and the position goes back to the start |
| Iterators.Iterator.HasNext | rdfstore_iterator.c:127-140 | on a cursor in step there is more exactly if an id is left from the position on |
| Iterators.Iterator.Each | rdfstore_iterator.c:641-699 | the next id from the position on and its statement; back to the start at the end |
| Iterators.Iterator.First | rdfstore_iterator.c:528-566 | back to the least id, which becomes the current one |
| Iterators.Iterator.Next | rdfstore_iterator.c:142-182 | on to the next id; counter and position stay in step if the current id is still there, and the counter is one ahead if it is not |
| Iterators.Iterator.Remove | rdfstore_iterator.c:956-990 | the id at the position goes, size stays the population count, and the result says whether it was there |
| Iterators.Iterator.Contains | rdfstore_iterator.c:1076-1082 | membership of an id |
| Iterators.Iterator.Intersect | rdfstore_iterator.c:1084-1156 | a new iterator over the intersection, with its size |
| Iterators.Iterator.Unite | rdfstore_iterator.c:1158-1230 | a new iterator over the union, with its size |
| Iterators.Iterator.Subtract | rdfstore_iterator.c:1232-1322 | the difference on ids the second vector has room for, which is the set difference exactly if the first has no others |
| Iterators.Iterator.Complement | rdfstore_iterator.c:1324-1405 | the elements not in the iterator, up to the room of its vector; exact if and only if no element is beyond it |
| Iterators.Iterator.ExOr | rdfstore_iterator.c:1407-1477 | a new iterator over the set difference, with its size |
| Iterators.SubtractNothing | rdfstore_iterator.c:1232-1322 | subtracting an empty iterator leaves nothing |
| Iterators.EachAll | rdfstore_iterator.c:641-699 | a loop over each() visits every statement once in ascending order of ids and ends back at the start |
| Iterators.WalkAll | rdfstore_iterator.c:127-182 | first(), and next() while hasnext(), visit every statement once in ascending order of ids |
| Iterators.EndsWhere | rdfstore_iterator.c:127-182 | a walk that removes has one place to end, the end of the list exactly if nothing before the last statement is removed |
| Iterators.WalkRemoving | rdfstore_iterator.c:127-990 | first(), and next() while hasnext(), with any chosen statements removed on the way, visit the front of the list up to where as many are counted as are left; they visit all exactly if nothing before the last is removed |
| Iterators.TwoStatements | rdfstore_iterator.c:127-990 | of two statements, removing the first ends the walk before the second |
| Statements.BeforeIsTotal | rdfstore_kernel.c:8264-8303 | the order of values within a table is total and strict |
| Statements.NumberKeysIn | rdfstore_kernel.c:1932-2000 | a statement has an integer key exactly if its literal reads as that integer, and a double key exactly if it reads as that double and as no integer |
| Statements.DateKeysIn | rdfstore_kernel.c:1857-1929 | it has a date key exactly if its literal has one of the two datatypes of dates and reads as that date |
| Statements.AsciiIs | rdfstore_kernel.c:1321-1340 | the letters of the datatype URIs are their codes |
| Statements.RefusedLiterals | rdfstore_kernel.c:1321-1340 | a literal is accepted exactly if it has no datatype, or has the parse type exactly with the XMLLiteral datatype |
| TripleStore.Store.constructor | rdfstore_kernel.c:345-400 | a new store is empty and valid |
| TripleStore.Store.Fetch | rdfstore_kernel.c:2157-2175 | the vector under a key decodes to exactly the ids posted there |
| TripleStore.Store.FetchPast | backend_caching_store.c:827-836 | fetch_compressed reads what the backend has, not what is cached |
| TripleStore.Posted | rdfstore_kernel.c:1711-2352 | posting a new statement under all its keys keeps every table exact exactly if the coder brings back the new vectors, which are known before |
| TripleStore.Unposted | rdfstore_kernel.c:4503-7257 | taking a number off some keys leaves the tables exact exactly if every one of them is seen without the number afterwards and they are all the keys of the statement that had it |
| TripleStore.FailsWhen | rdfstore_kernel.c:6495-6566 | of a live statement, the deletion of a key fails exactly if the key is cached and the backend lacks it, and remove reads it there or no other statement has it |
| TripleStore.RightWhen | rdfstore_kernel.c:6495-6566 | where remove reads and writes past a cached record, what is seen afterwards is right exactly if the record and the backend named this statement alone; elsewhere it is right if the coder serves the rest |
| TripleStore.SharedKeyExample | rdfstore_kernel.c:6859-6922 | a key of two statements that is in the cache alone: taking one off fails exactly if it is the key of a context, language, datatype, integer, double or date, and then the other is gone from the table as well |
| TripleStore.ServedPut | rdfstore_kernel.c:1711-2352 | a statement that leaves every set of ids one the coder serves can be posted |
| TripleStore.ServedDrop | rdfstore_kernel.c:4503-7257 | and one whose removal does can be taken off |
| TripleStore.Store.Post | rdfstore_kernel.c:1736-1791 | fetch, decode, set one bit, encode and store puts the coded form of the widened vector under that key and touches no other |
| TripleStore.Store.Unpost | rdfstore_kernel.c:6502-6568 | read, past the cache in six of the tables, clear one bit, and store or delete: what is seen under the key is exactly as specified, no other key is touched, and it fails exactly if a deletion finds nothing in the backend |
| TripleStore.Store.PostLiteral | rdfstore_kernel.c:1711-2064 | a literal is posted under its language, datatype, date, and its integer or else double value, and under nothing else |
| TripleStore.Store.PostNodes | rdfstore_kernel.c:2147-2352 | subject, predicate, object and context are posted |
| TripleStore.Store.Insert | rdfstore_kernel.c:1221-1341 | a new statement gets the next number and is added under exactly its keys; the store stays valid exactly if the coder brings back the new vectors; a duplicate, a full store and a refused literal leave the tables alone |
| TripleStore.Store.UnpostLiteral | rdfstore_kernel.c:6834-7257 | a literal is taken off all its keys, until a deletion fails |
| TripleStore.Store.UnpostNodes | rdfstore_kernel.c:4503-6569 | a statement is taken off the keys of its nodes, until a deletion fails |
| TripleStore.Store.Withdraw | rdfstore_kernel.c:4433-7290 | the record goes, then the keys, then the digest; the store is valid afterwards exactly if all deletions but the last were answered and every key is right |
| TripleStore.Store.Remove | rdfstore_kernel.c:4392-7290 | it succeeds exactly if the statement is there and every deletion is answered; the store is valid afterwards exactly if the statement was not there, or all deletions but the last were answered, every key is right, and the live statement with the digest had no other keys |
| TripleStore.Store.Contains | rdfstore_kernel.c:9330-9420 | whether a live statement has the digest |
| TripleStore.Store.Size | rdfstore_kernel.c:879-921 | the number of live statements, and of numbers lost to refused literals |
| TripleStore.Store.Elements | rdfstore_kernel.c:9613-9685 | a cursor over exactly the live statements, with its size |
| StoreRuns.ApplyPut | rdfstore_kernel.c:1044-2352 | insert puts a statement into the set of live statements under the next number, and the store stays valid exactly if the coder brings back the new vectors |
| StoreRuns.AnsweredWhen | rdfstore_kernel.c:4433-7290 | the conditions of a removal in terms of what is live and what the caches hold are those of the tables |
| StoreRuns.NoCaches | rdfstore_flat_store.c:153-177 | without caches every deletion is answered and nothing is stale |
| StoreRuns.ApplyDrop | rdfstore_kernel.c:4261-7353 | remove takes a statement out of the set of live statements; it succeeds exactly if every deletion is answered, and leaves a valid store exactly if moreover no cached record is stale and the coder brings back the rest |
| StoreRuns.NumbersStay | rdfstore_kernel.c:1240-1316 | between any two points of a run a number keeps its statement or is gone for good: no number is used twice |
| StoreRuns.EntriesAfter | rdfstore_kernel.c:1240-1256 | as long as no new statement meets a full store, what is live is the set the run leaves |
| StoreRuns.Run | rdfstore_kernel.c:1044-7353 | after any run of inserts and removes at each point of which the coder serves what is live and the caches answer, the store holds exactly what the run leaves, indexed exactly, with the numbers the run gives out |
| StoreRuns.RunAndSearch | rdfstore_kernel.c:1044-9039 | searching after such a run finds every live statement that matches, and nothing else if lists of requirements are answered right |
| Codecs.BlockRestores | rdfstore_compress.c:105-107 | the block coder gives back every vector of the store |
| Codecs.BlockServesAll | rdfstore_compress.c:105-107 | with the block coder any set of live statements is served |
| Codecs.RunCodecWorks | rdfstore_compress.c:101-124 | the run-length coders never write nothing, and what they give back has room |
| Codecs.RunRestoresWhen | rdfstore_compress.c:101-124 | a run-length coder brings back the ids of a vector exactly if it has no run of more than 65535 equal bytes with anything set in it or behind it |
| Codecs.RunServesWhen | rdfstore_compress.c:101-124 | it serves a set of ids exactly if that is so of any one vector of the set |
| Codecs.RunPostableWhen | rdfstore_kernel.c:1711-2352 | an insert with a run-length coder keeps the store valid exactly if that is so of every vector it stores |
| Codecs.RunServesAllBelow | rdfstore_compress.c:101-124 | with a run-length coder statements numbered below 524280 are served |
| Codecs.RunCodecLimit | rdfstore_compress.c:101-124 | all vectors of a size come back exactly up to 65535 bytes |
| Codecs.LostId | rdfstore_compress.c:121-124 | with the default coder the id 524288, alone under its key, is found again as id 0 |
| Codecs.LostStatement | rdfstore_compress.c:121-124 | a new statement with that number is not found under a key of its own; statement 0 is found instead |
| Codecs.RemoveLosesExample | rdfstore_kernel.c:6502-6568 | a number that comes back with another in front of it is lost when the other is removed |
| Queries.AnyIsExact | rdfstore_kernel.c:7646-7725 | a list of alternatives comes to the live statements with at least one of the keys |
| Queries.AllIsLastGroup | rdfstore_kernel.c:7661-7713 | a list of requirements comes to the statements with every key of its last group, where missing keys are skipped and a group ends when nothing is left |
| Queries.AllIsExactWhen | rdfstore_kernel.c:7672-7703 | it is answered with the statements that meet all requirements exactly if nothing meets those of the last group, or no key is missing and there is one group |
| Queries.SkippedKeyExample | rdfstore_kernel.c:7672-7676 | a requirement nobody meets is skipped: the answer is not empty although it should be |
| Queries.RestartExample | rdfstore_kernel.c:7680-7703 | two requirements nobody meets together are forgotten when a third comes |
| Queries.Merge | rdfstore_kernel.c:7661-7713 | one key joins the part at hand: skipped if missing, decoded in place of an empty accumulator, else combined |
| Queries.Combine | rdfstore_kernel.c:7646-7729 | the loop over a part's entries computes its specification |
| Queries.Join | rdfstore_kernel.c:7731-7747 | a part cuts down the result so far, or starts it on zeroed buffers |
| Ranges.NextKey | rdfstore_kernel.c:8351-8357 | the cursor passes exactly one key |
| Ranges.ScanUnder | rdfstore_kernel.c:8260-8358 | operators 1 and 2 collect exactly the keys below the bound, and the bound itself for 2 |
| Ranges.ScanExcept | rdfstore_kernel.c:8414-8483 | operator 4 collects every key of the table but one |
| Ranges.ScanOver | rdfstore_kernel.c:8484-8593 | operators 5 and 6 collect exactly the keys above the bound, and the bound itself for 5 |
| Ranges.OneValue | rdfstore_kernel.c:1932-2000 | a statement has at most one value in each table |
| Ranges.SelectedIsExact | rdfstore_kernel.c:8258-8593 | the postings collected are exactly the live statements whose value satisfies the operator |
| Ranges.TwoHalves | rdfstore_kernel.c:8594-8835 | operators 7 to 10 are the intersection of their halves |
| Ranges.InRangeMeans | include/rdfstore.h:175-189 | the ten operators are the ten comparisons of integers, of doubles, and of dates as they are written down |
| Ranges.ValueInRangeMeans | rdfstore_kernel.c:8258-8835 | a statement is in a range exactly if its literal reads as a value of the kind that compares so, where an integer is no double |
| Searching.Narrow | rdfstore_kernel.c:7646-7747 | one part of a pattern cuts down the result as specified |
| Searching.ScanRange | rdfstore_kernel.c:8258-8593 | each one-sided operator finds exactly the live statements in its range |
| Searching.NarrowRange | rdfstore_kernel.c:8186-8889 | the range part finds exactly the live statements in the range, and gives up on values it cannot read and on an equality nobody meets |
| Searching.BoundsMean | rdfstore_kernel.c:8199-8256 | a range is of integers if its first text reads as one, else of doubles, else of dates; it can be read exactly if the second text of a two-sided operator is of the same kind |
| Searching.RangeMatchesIs | rdfstore_kernel.c:8186-8889 | what the range part asks of a statement, on the values of its literal |
| Searching.GivesUpWhen | rdfstore_kernel.c:8186-8889 | a search has no answer exactly for an unknown operator, or if something is left by then, for values that cannot be read and for an equality nobody meets |
| Searching.NeverGivesUp | rdfstore_kernel.c:8186-8889 | without a range it always has an answer |
| Searching.NarrowTerms | rdfstore_kernel.c:7645-8183 | subjects, predicates, objects, languages and datatypes cut down the result in turn |
| Searching.Search | rdfstore_kernel.c:7357-9039 | a cursor over the answer of the pattern, its size the number of ids; every early exit is an empty answer |
| Searching.AnswerIsPasses | rdfstore_kernel.c:7496-9039 | the exact answer for any pattern: the live statements that pass every part, each list taken as the code takes it |
| Searching.AnswerIsFilter | rdfstore_kernel.c:7496-9039 | the answer holds every live statement that matches all non-empty parts of the pattern, and no other if its lists are of alternatives or of requirements that are answered right |
| FetchObject.AboutIs | rdfstore_kernel.c:9102-9130 | the posting of a subject cut down to the context is the statements about it |
| FetchObject.ClosedHoldsAll | rdfstore_kernel.c:9121-9184 | a set closed under following blank nodes holds everything reachable |
| FetchObject.FetchedIs | rdfstore_kernel.c:9068-9199 | the recursion adds only statements within reach, and leaves a closed result closed where no chain meets the cap |
| FetchObject.WithinIsTrails | rdfstore_kernel.c:9143-9181 | a statement is within reach exactly if a trail of statements leads there, the first about the resource and each other about the object before it, which is a blank node |
| FetchObject.FirstLevels | rdfstore_kernel.c:9085-9194 | the statements about a resource are found, and those about its blank objects |
| FetchObject.NothingToFollow | rdfstore_kernel.c:9143-9181 | if no object is a blank node, the statements about a resource are all that is found |
| FetchObject.FetchedDescribes | rdfstore_kernel.c:9068-9199 | so a description is of statements at the end of a trail of up to twenty, holds the first two levels, and is the first alone where nothing is to be followed |
| FetchObject.CompleteWhenClosed | rdfstore_kernel.c:9068-9199 | a description misses nothing within reach exactly if its result is closed under following blank nodes |
| FetchObject.Unvisited | rdfstore_kernel.c:9085-9141 | the statements about a node, in the context, that are not in the result yet |
| FetchObject.FollowNext | rdfstore_kernel.c:9143-9181 | one statement of the scan is followed if its object is a blank node, with the result as it is by then |
| FetchObject.AddTo | rdfstore_kernel.c:9183-9194 | the processed statements are added, with the size |
| FetchObject.Recurse | rdfstore_kernel.c:9068-9199 | the recursion stops at the level cap and computes its specification |
| FetchObject.Describe | rdfstore_kernel.c:9205-9324 | the result is that of the recursion: only statements at the end of a trail of up to twenty in the context, the first two levels whatever the graph, nothing past a resource that has a name, and all reachable ones if no chain of blank nodes takes more |
| FetchObject.CycleLoses | rdfstore_kernel.c:9121-9194 | in a small cycle a statement four levels down is lost |
| FetchObject.CycleExists | rdfstore_kernel.c:9121-9194 | four blank nodes and five statements make such a cycle |
| Records.MaskBits | rdfstore_kernel.c:1419-1440 | each flag of the type byte reads back |
| Records.RecordShape | rdfstore_kernel.c:1379-1493 | seven lengths, the type byte, the texts one after the other, and a zero |
| Records.StorableWhen | rdfstore_kernel.c:1343-1497 | what can be written down: lengths of four bytes, a language that has room, and a literal only as the object |
| Records.RecordBytes | rdfstore_kernel.c:1379-1493 | the record byte by byte: seven lengths, most significant byte first, the six flags with their weights, the seven texts in order, and a zero |
| Records.ParseRecord | rdfstore_iterator.c:1591-1864 | what a record reads back as, for texts of any length |
| Records.RecordRoundTrip | rdfstore_kernel.c:1343-1497 | it is the statement that was written exactly if the statement is canonical |
| Records.PrefixExample | rdfstore_iterator.c:1660-1700 | an accepted literal whose datatype is the start of the XMLLiteral URI comes back as an XML literal |
| Records.WriteRecord | rdfstore_kernel.c:1379-1493 | the buffer is filled with the record |
| Records.ReadRecord | rdfstore_iterator.c:1591-1864 | the record is taken apart text by text |
| Records.RecordThereAndBack | rdfstore_iterator.c:1591-1864 | writing a statement down and reading it back |
| Sha1Spec.LastBlocks | rdfstore_ap_sha1.c:279-311 | what the padding of section 5.1.1 of FIPS 180-4 leaves to hash: one block more, or two |
| Sha1Spec.PaddedShape | rdfstore_ap_sha1.c:279-311 | a padded message is whole blocks: the message, a one bit, the fewest zeros, and the number of bits in eight bytes |
| Sha1Spec.FourExample | rdfstore_ap_sha1.c:290-300 | the most significant byte comes first |
| Sha1Example.AbcDigest | rdfstore_ap_sha1.c:119-177 | the digest words of the message abc, which FIPS 180 gives as its first example, through all eighty rounds |
| Sha1Example.AbcBytes | rdfstore_ap_sha1.c:218-311 | and its twenty bytes |
| Sha1Context.CodeChoice | rdfstore_ap_sha1.c:89-93 | the code's f1 is the Ch of section 4.1.1 |
| Sha1Context.CodeMajority | rdfstore_ap_sha1.c:89-93 | the code's f3 is the Maj of section 4.1.1 |
| Sha1Context.Context.MaybeByteReverse | rdfstore_ap_sha1.c:194-214 | on either byte order the words of the buffer come out most significant byte first |
| Sha1Context.CodeRound | rdfstore_ap_sha1.c:104-106 | one round of the code is one round of section 6.1.2 |
| Sha1Context.Context.Transform | rdfstore_ap_sha1.c:119-177 | the digest words are mixed with the block as section 6.1.2 says |
| Sha1Context.CarryRight | rdfstore_ap_sha1.c:238-242 | adding in two words with a carry is adding modulo 2^64 |
| Sha1Context.Context.constructor | rdfstore_ap_sha1.c:218-228 | a context starts with the initial hash value and no message |
| Sha1Context.Context.FillUp | rdfstore_ap_sha1.c:243-260 | a block that was begun is filled up and hashed when full |
| Sha1Context.Context.Update | rdfstore_ap_sha1.c:232-269 | the message goes on: whole blocks are hashed, the rest waits, and hi:lo is eight times the bytes seen modulo 2^64 |
| Sha1Context.Context.Final | rdfstore_ap_sha1.c:279-311 | the digest written out is that of the whole message |
| Sha1Context.Digest | rdfstore_ap_sha1.c:218-311 | however a message is cut into pieces, and on either byte order, the digest is the one-shot digest |
| Calendar.LeapFormula | rdfstore_xsd.c:505-507 | the formula's years have 365 days, or 366 exactly in leap years |
| Calendar.FormulaCounts | rdfstore_xsd.c:500-509 | the formula is the number of days counted one at a time from 1 January 1970 |
| Calendar.MktimeCounts | rdfstore_xsd.c:490-517 | for every valid time from 1970 on the routine gives the seconds counted; a time_t of 32 bits has an answer up to 2037 |
| Calendar.NoAnswerWhen | rdfstore_xsd.c:490-517 | of all calendar times, exactly those before 1970 have no answer, and with a time_t of 32 bits those after 2037 |
| Calendar.MktimeKeepsOrder | rdfstore_xsd.c:490-517 | a later time has more seconds |
| Calendar.MktimeIsPosix | rdfstore_xsd.c:490-517 | the routine agrees with the formula of section 4.16 of IEEE Std 1003.1-2017 |
| Calendar.KnownTimes | rdfstore_xsd.c:490-517 | six times whose seconds are known, from 1970 to 2100 |
| Calendar.KnownFirstHalf | rdfstore_xsd.c:490-517 | the first of every month of 2001, up to June |
| Calendar.KnownSecondHalf | rdfstore_xsd.c:490-517 | and from July |
| Calendar.KnownLeapDays | rdfstore_xsd.c:490-517 | the days around the end of February and of the year in 2004 |
| Calendar.KnownDays | rdfstore_xsd.c:500-509 | for any day whose seconds are known, counting one day at a time comes to the same |

## Left out

- CachingStore.BSearch: the C library's bsearch is modelled as a binary search of the same contract.
- CachingStore.QSort: the C library's qsort is modelled as an insertion sort of the same contract.
- CachingStore.Caching.Fetch: a null value and an empty one are the same; fetch and store of compressed values go past the cache and are not modelled.
- CacheModel.StepRefines: the backend only answers success or not found; its other errors, memory failures and the statistics counters are not modelled.
- RunCoders.CompressRle: guards that look past the data before testing the index are given spare bytes in the array; the same holds for the bits and block coders and for `getfirstsetafter`.
- Mine.FindBest: the ratio is a real number; the rounding of doubles is not modelled.
- Mine.RoundTrip: sizes near 2^32, where index sums would wrap, are not modelled.
- Mine.ExpandMine: a period of zero, or of a literal string, is never written; the expander's behaviour on one is not modelled.
- Fraenkel.ExpandFraenkel: streams the compressor does not write are not modelled, nor is data the expander has no room for.
- BitVectors.SetMask: masks of more than one bit, which the store never uses, are not modelled.
- TripleStore.Store.Insert: the counters and tables are plain maps, so failures of the backend half way through an insert are not modelled.
- TripleStore.Store.Remove: where a deletion fails, which keys were taken off before it is not said.
- StoreRuns.Run: the statements of a run have different digests, the coder serves what is live at every point, and the caches answer for every deletion; what a single insert or remove does otherwise is proved for ApplyPut and ApplyDrop. How the caches stand at each removal is part of the run, and is not derived from the calls before it.
- Codecs.BlockRestores: the Fraenkel and repeated-block coders are not set up as codecs of the store; their own round trips are proved.
- Searching.Search: the unfinished operator for "not" is not modelled; entries are of the kind their part asks for.
- Ranges.ScanUnder: the tables are iterated in true value order; the integer comparison of the backend shortens a long difference to an int, and doubles are real numbers.
- FetchObject.Describe: which graphs with a chain of blank nodes beyond the level cap lose statements is said through the result of the recursion (CompleteWhenClosed), not by a condition on the graph alone. The store is one without caches: the recursion reads subjects and contexts past them.
- Records.WriteRecord: the spare byte the final zero needs is part of the buffer.
- Sha1Context.Context.Update: RDFSTORE_AP_LONG is a 32-bit quantity, as its declaration says, not the 64-bit type it is on some machines.
- Free-text words and stems, whose removal can drop another statement's entry.
- The tables of connections between nodes, which are compiled out.
- Parsing and printing of dates, numbers and N-Triples, case folding and UTF-8.
- Files, sockets, locking, the BerkeleyDB and DBMS backends, and messages to the user.
- The bit operations for wider records (`getfirstrecord`, `and2`, `or2`), which nothing else here calls.
- Getters, setters and memory management of nodes and statements.
