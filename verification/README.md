# Verified model of ginject

A Dafny model of the stateful parts of ginject, a Go web framework with an embedded
document store, a route trie, an in-memory publish/subscribe broker with a WebSocket
layer, a TTL cache, request throttling and an access log. Each part sets a fast or
stateful form against the simple thing it must agree with, and proves that it does:

- `storage/`: the log-structured document store. Binary record codec, segmented log,
  replay, rotation, crash recovery, compaction, transactions, secondary and full-text
  indexes, queries. The indexes are at all times those of the table's documents, which are
  the replay of its log as long as no torn record stands in front of a write, and queries
  equal a full scan.
- `routing/`: path normal form, the glob matcher, the mutable route trie, the numbering of
  route parameters and the router that joins them and picks the item for a request. The trie
  is a map from segment lists to routes, lookups are sound and determined by the stored routes
  alone, and in a trie filled by the router the parameter indices line up with what the trie captures, exactly
  where the parts of the route are fair.
- `events/`: topic patterns, the broker's four buckets, the event table, and two protocols
  over all interleavings: closing the broker, and the life of a WebSocket connection.
- `limits/`: the sharded cache and the fixed-window and token-bucket throttlers on top of it.
- `accesslog/`: whole percentages by largest remainder.
- `common/`: optional values, the larger of two numbers, and listings of sets.

`dafny verify dfyconfig.toml` checks everything.

## How the model is set up

Code that updates fields in place is a class with those fields; loops are loops, proved
against functions on values. A file is a sequence of bytes to which a record is appended
as a whole; a crash keeps any number of bytes of the last segment. A Go map that is ranged
over is listed in an order the language leaves open, so every result holds for every order.
Go errors and panics are values of a result type. The following are parameters: the
checksum function, JSON writing and reading (written content is non-empty and reads back, as it
does in the format of `Payload`), the lower-casing and the word characters of the tokenizer,
the hash that picks a shard, clock readings, and the ids of documents, transactions, subscriptions and connections.
Field values are strings. Protocols are state machines whose actions are what one
goroutine does between taking and releasing a lock.

## Where the code and its documentation differ

The model follows the code in each case.

- `modules/storage/README.md:383` says that compaction keeps the latest version of each
  document. It keeps only records written outside a transaction
  (modules/storage/engine.go:280-287); `Compaction.CompactionKeepsIff` gives the exact
  condition under which nothing is lost, `Compaction.CommittedDocumentIsLost` a case where
  something is, `Transactions.CommittedThenCompacted` a run. It also installs an index without
  the schema (modules/storage/engine.go:376-377), so that no search finds anything until the
  schema is declared again (`Store.Model.Compact`, `Store.CompactedSchemaIsLost`).
- `modules/storage/README.md:713` says that no intervention is needed after a crash. Recovery
  does find the last consistent state (`Recovery.RecoverAfterCrash`), but the last segment is
  written on behind a torn record (modules/storage/engine.go:82-86), where a scan does not
  look (`Log.TornTailHides`). What is written there is found again if and only if nothing torn
  stands in front of it or it goes into a new segment (`Recovery.WriteBehind`). `TornTail.LostBehindTear` follows a document that is lost so, and
  `TornTail.StoredAndLost` is a run.
- Withdrawing the last search field leaves old terms behind that `Search` still finds
  (modules/storage/index.go:122-125); `Store.Model.SearchFaithfulIff` is the exact condition
  for search to answer by the last declaration, and `Store.WithdrawnFieldIsFound` a run.
- `Tx.UpdateByID` does not ask whether a document exists and resets the creation time of one
  that the transaction did not make (modules/storage/tx.go:68-93): `Batches.SameIff`
  says for any list of operations when that makes no difference, `Transactions.UpdateMakesDocument`
  is an input.
- A suffix pattern's own matcher refuses the topic that is its prefix and a dot, which the
  complex matcher, the broker and the event table accept: `Patterns.Match` states the
  exception, `Patterns.SomeBarePrefix` a topic for every suffix pattern,
  `Broker.MemoryBroker.PublishInternal` and `WSEvents.WSEvent.Match` hold without one.
- A second `Close` of the broker returns while publications may still be in flight
  (`Shutdown.LoserReturnsEarly`): exactly those from before the flag that have not finished
  (`Shutdown.QuietIff`). A connection that ends between the raising of the flag
  and the clearing of the maps leaves its subscriptions there (`Lifecycle.LeftWhenTheBrokerCloses`;
  the exact condition is `Lifecycle.LeftOfConnection`).
- Names and captured values drift apart in three ways: a segment that is the parameter sign
  itself takes the parameter edge by its own name and is not captured (internal/ds/trie.go:119-128),
  a literal sign in a route captures what no name counts, and a name inside a longer part is
  counted but never captured. `Captures.ShapeIff` is the exact condition,
  `Router.OwnKeyCapturesNothing`, for names of either kind, and `Router.LiteralSignShifts` are
  inputs.
- A fixed window forgets its count when a request looks it up at or after the deadline, which
  falls in the request's own window when the clock moves on in between
  (`FixedWindow.LateLookupForgets`; the exact condition is `FixedWindow.CountsOnIff`). A token
  bucket does so too unless it has filled up by then (`TokenBucket.LateLookupForgets`,
  `TokenBucket.FoundIff`), and its reported second can begin before the token
  (`TokenBucket.AtReset`).

## Model

| member | source | states |
|---|---|---|
| Codec.RoundTrip | modules/storage/record.go:28-125 | An encoded record followed by any bytes decodes to itself and its exact size if and only if its field lengths fit their length words |
| Codec.DecodeIff | modules/storage/record.go:59-125 | Decoding succeeds with a record and a size exactly on data that starts with a frame of that size, checksum included, around the record's own bytes and possible slack |
| Codec.CarriedOnce | modules/storage/record.go:59-125 | No data can be read as two different records |
| Codec.PanicIff | modules/storage/record.go:63-69 | The decoder slices out of range exactly when the header is there and its length word is below 4 |
| Codec.CutIsCorrupt | modules/storage/record.go:59-71 | A record cut anywhere is reported corrupt, never misread and never a panic |
| Codec.EncodeRecord | modules/storage/record.go:28-57 | Filling the buffer at an advancing offset, header last, yields the printed form of the record |
| Codec.DecodeRecord | modules/storage/record.go:59-125 | The bound-checked walk yields exactly what the grammar of the format reads, with the same error cases |
| ByteOrder.UintOfPut | modules/storage/record.go:28-57 | A little-endian word read back is the number modulo the width, so a wider length is silently truncated |
| ByteOrder.PutOfUint | modules/storage/record.go:59-125 | Every run of bytes is the writing of the number it stands for |
| ByteOrder.PutUintAt | modules/storage/record.go:28-57 | Byte i of a number is its digit of weight 256 to the i: the least significant stands first |
| ByteOrder.TwosComplement | modules/storage/record.go:48 | The bits of a timestamp are the one number of 64 bits that is congruent to it, and it is the one signed number with these bits |
| Codec.Layout | modules/storage/record.go:28-57 | Where every field of a record stands in its bytes, by offset: length word, checksum of all behind it, type, transaction, table, id, timestamp, payload |
| Log.ScanEncoded | modules/storage/engine.go:230-251 | Scanning concatenated records with torn bytes behind them visits exactly those records at their cumulative offsets |
| Log.ReadBackAt | modules/storage/engine.go:221-228 | Every location a scan reports reads back the record it was reported for |
| Log.ReplayIsMeaning | modules/storage/engine.go:108-157 | Replay of the log of any history gives what its calls meant: plain operations, and committed transactions in full; unfinished and rolled-back ones leave no trace |
| Log.BufferIsSequential | modules/storage/engine.go:133-147 | The buffer of the last operation per id does the same as all operations of the transaction in order |
| Log.StepReplayed | modules/storage/engine.go:108-157 | By the type bytes in the file: a plain put or delete changes its own id; of a committed transaction the last operation on each id decides and other ids stay; a rolled-back or unfinished one changes nothing |
| Log.PrefixHistory | modules/storage/engine.go:108-157 | Every prefix of a log is the log of the calls that stand whole in it and of one unfinished transaction at most |
| Log.CutScan | modules/storage/engine.go:230-251 | A segment cut at any byte scans as the records that are whole before the cut |
| Log.CrashConsistency | modules/storage/engine.go:108-157 | For every cut of the last segment recovery yields exactly the primary map after the first k calls, k counting exactly the calls all of whose records survive |
| Log.TornTailHides | modules/storage/engine.go:82-86 | A record written behind the first n bytes of another one is found by a scan where it was written if and only if n is 0, whatever the checksum does |
| Log.StillShortHides | modules/storage/engine.go:230-251 | While a torn record still lacks bytes, nothing appended to its segment is seen by a scan |
| Engine.ScanSegFile | modules/storage/engine.go:230-251 | The scanning loop reports exactly the entries of the segment |
| Engine.ReadRecordAt | modules/storage/engine.go:221-228 | Reading a location fails beyond the end of the file and otherwise gives what the decoder makes of the bytes that stand there, a panic included |
| Engine.LoadSegments | modules/storage/engine.go:50-92 | Every file becomes a segment, the next number exceeds all, and the last segment is current only when it has room |
| Engine.TableEngine.Open | modules/storage/engine.go:36-48 | Opening a directory that holds the log of a history yields a valid engine whose documents are those of the history |
| Engine.TableEngine.NewSegment | modules/storage/engine.go:94-106 | Rotation appends one empty segment under the next number |
| Engine.TableEngine.WriteRecord | modules/storage/engine.go:180-194 | Appends the bytes of any record to the current segment, or to a new one exactly when a non-empty segment would overflow, and returns where they stand; what read back before still does, and so does a record that fits; if nothing torn is in front the log gains exactly its entry, and if torn bytes hide it the log stays what it was |
| Engine.TableEngine.RotatesIff | modules/storage/engine.go:180-186 | A new segment is begun if and only if the current one has bytes and with the new record would exceed 64 MiB |
| Engine.TableEngine.LogPlain | modules/storage/model.go:110-149 | On any engine: the record reads back at its location; the log is that of one more call if nothing torn was in front, and of the same calls if torn bytes hide it |
| Engine.TableEngine.LogBlock | modules/storage/tx.go:125-156 | On any engine: every record reads back at its location; with nothing torn in front the begin mark, the operations and the commit mark make the log that of one more committed transaction |
| Engine.TableEngine.ReplaySegments | modules/storage/engine.go:108-157 | The replay loop computes exactly the locations of the live versions that the history means |
| Engine.ApplyInAnyOrder | modules/storage/engine.go:133-147 | Applying a committed buffer in any map order gives the one result of applying it in order |
| Engine.TableEngine.RebuildIndex | modules/storage/engine.go:108-178 | After the rebuild the live index is the replay of all segments, secondary and text indexes agree with the documents, and nothing declared before is in them |
| Engine.TableEngine.ReadAt | modules/storage/engine.go:221-228 | A read of a location returns the record that stands there |
| Engine.TableEngine.LoggedReads | modules/storage/engine.go:221-228 | Every entry of the log stands at its location |
| Engine.TableEngine.ReadDoc | modules/storage/engine.go:196-210 | A live location reads back as the document that was written |
| Engine.TableEngine.IndexPut | modules/storage/model.go:140-142 | Pointing an id at a new version that reads back keeps all three indexes in step with the documents of the table |
| Engine.TableEngine.IndexDelete | modules/storage/model.go:256-258 | Forgetting an id keeps all three indexes in step with the documents of the table |
| Engine.TableEngine.Compact | modules/storage/engine.go:271-379 | Afterwards the live versions are those of the records without a transaction, one record per id, segments numbered 0 to n-1 with n next, under an index without schema and without terms; they are the live versions of the files from before if and only if the log was compactable, and then the documents are those the files held |
| Engine.TableEngine.CollectPlain | modules/storage/engine.go:274-297 | The first pass finds the last version of every id among the records without a transaction |
| Engine.TableEngine.Rewrite | modules/storage/engine.go:299-356 | The second pass writes exactly one record per collected id, rotating as it goes, and numbers the segments from 0 |
| Compaction.CompactionKeepsIff | modules/storage/engine.go:271-297 | Compaction keeps exactly the live versions if and only if on every id whose last effective operation belongs to a transaction that operation is a delete and the last plain operation, if any, is no put |
| Compaction.WithoutCommits | modules/storage/engine.go:271-297 | In a log whose committed transactions hold no data record compaction always keeps the live versions |
| Compaction.CommittedDocumentIsLost | modules/storage/engine.go:280-287 | A document created in a committed transaction is live and is gone after compaction |
| Compaction.OnlyBlocks | modules/storage/engine.go:280-287 | Of a log without plain operations compaction keeps nothing |
| Transactions.CommittedThenCompacted | modules/storage/engine.go:280-287 | The run: a document is created in a transaction, committed and found; the table is compacted and empty |
| Compaction.PlainVersionsAgree | modules/storage/engine.go:280-287 | A live version written outside a transaction is the very one compaction finds |
| Recovery.Reopen | modules/storage/engine.go:36-48 | Opening a table again on the files of a running one finds what the log has: the very same documents and history when table and log are in step |
| Recovery.RecoverAfterCrash | modules/storage/engine.go:36-157 | After a crash that keeps any number of bytes of the last segment, of a table that may already hold torn segments, opening again yields the documents of the surviving calls; it can be written behind exactly when the cut fell between records or the segment is full |
| Recovery.CrashRepeatedly | modules/storage/engine.go:36-157 | After any number of crashes, each at any byte, the documents are those of some first calls of the history |
| Recovery.WriteBehind | modules/storage/engine.go:82-92 | A record written behind what crashes have left is found by a scan if and only if nothing torn was in front of it or it went into a new segment |
| TornTail.LostBehindTear | modules/storage/engine.go:82-92 | For every table and document: created behind torn bytes whose record still lacks bytes, it is in the table and found, and the table opened again is what its files held before |
| TornTail.StoredAndLost | modules/storage/engine.go:82-92 | The loss is reachable: create, crash after four bytes, open, create a smaller document, find it, open again: the table is empty |
| TornTail.WrittenUnseen | modules/storage/engine.go:82-92 | After a crash in the first byte of a record a scan does not have any record that is written next |
| Payload.LawfulFormat | modules/storage/document.go:23-37 | A format with readable payloads exists for every checksum and tokenizer, so what is assumed of JSON writing can be met |
| Index.TableIndex.UpdateSecondary | modules/storage/index.go:55-96 | Postings and field values stay mutual inverses without empty postings, and the id is indexed under exactly the declared fields of the new data |
| Index.TableIndex.LookupSecondary | modules/storage/index.go:102-116 | Returns each id under the value exactly once |
| Index.TableIndex.UpdateText | modules/storage/index.go:122-158 | Term postings and term lists stay mutual inverses, and the id is indexed under exactly the terms of its search fields |
| Index.TableIndex.SearchText | modules/storage/index.go:164-195 | Returns, each once, exactly the ids indexed under every term of the query, and none for a query without terms |
| Index.PostedMirrors | modules/storage/index.go:55-96 | Adding one id's values to postings that mirror the others keeps the mirror |
| Index.TermsMirror | modules/storage/index.go:122-158 | The same for terms |
| Index.FieldsAfterUpdate | modules/storage/index.go:55-100 | After an update or a removal the field index is again right for all documents |
| Index.TextAfterUpdate | modules/storage/index.go:122-162 | After an update or a removal the text index is again right for all documents |
| Tokens.Script.Tokenize | modules/storage/index.go:222-240 | The terms of a text are exactly its longest runs of word characters of two bytes or more, in order |
| Tokens.Script.OneWord | modules/storage/index.go:222-240 | A text of word characters only is one term, or none if it has less than two bytes |
| Tokens.Script.TermsOfBoth | modules/storage/index.go:222-240 | The terms of two texts with a separator between them are those of the first and then those of the second; with the row above this decides every text |
| Tokens.Script.BytesAdd | modules/storage/index.go:222-240 | The bytes of a text are those of its parts together |
| Queries.OrderSplits | modules/storage/query.go:56-76 | The string order of gt and lt is total, and no two strings are both less than one another |
| Queries.GreaterIs | modules/storage/query.go:69-72 | A present value meets gt if and only if the condition's is a proper prefix of it, or at the first place where they differ it has the larger character |
| Queries.SmallerIs | modules/storage/query.go:73-76 | The mirror image: it meets lt if and only if it is a proper prefix of the condition's, or has the smaller character there |
| Queries.ContainsIs | modules/storage/query.go:77-80 | A value contains a part if and only if it is something, the part, and something |
| Queries.OthersAre | modules/storage/query.go:49-87 | What eq, ne and contains select, present or missing, and that an unknown operator selects nothing |
| Queries.LessTransitive | modules/storage/query.go:56-76 | And transitive |
| Queries.ExactlyOne | modules/storage/query.go:49-87 | On a field that is there exactly one of eq, gt and lt holds, and ne is the complement of eq |
| Store.WhereSplits | modules/storage/query.go:30-33 | One more condition narrows a query: not-equal selects what equal leaves of it, and equal, greater and less split its matches that have the field |
| Store.NoConditions | modules/storage/query.go:49-87 | A query without conditions selects every document |
| Store.PageIs | modules/storage/model.go:294-321 | A page leaves out the skipped matches, keeps within a positive limit, and is as large as that allows |
| Store.Model.Create | modules/storage/model.go:110-149 | The table then holds the new document and nothing else changes; so do the files if nothing torn was in front of the record, and if torn bytes hide it they hold what they held |
| Store.Model.FindByID | modules/storage/model.go:151-175 | Returns the document of a live id as last written, and the right error otherwise |
| Store.Model.UpdateByID | modules/storage/model.go:177-225 | Replaces the data of a live document, keeps its creation time, and changes nothing at all on an error; the files follow as for Create |
| Store.Model.DeleteByID | modules/storage/model.go:227-266 | Takes exactly the document out, and changes nothing at all on an error; the files follow as for Create |
| Store.Model.Schema | modules/storage/model.go:72-108 | Whatever was declared before, both indexes are afterwards right for all documents under the new field sets |
| Store.Model.Candidates | modules/storage/model.go:276-292 | An indexed equality, or all ids, covers every matching document |
| Store.Model.ExecQuery | modules/storage/model.go:272-323 | Returns documents from exactly the set a full scan selects, none twice, as many as the page takes of it |
| Store.Model.Search | modules/storage/model.go:325-346 | While some search field is declared, returns exactly the documents whose text has every term of the query, each once |
| Store.Model.FoundIsNaive | modules/storage/index.go:164-195 | What the inverted index finds is the naive conjunction over the documents' text |
| Store.SearchMeans | modules/storage/index.go:164-195 | That conjunction in full: a document is in it if and only if the text has a term and every one of them is a term of some declared search field of the document |
| Store.Model.SearchFaithfulIff | modules/storage/index.go:122-125 | Search is faithful to the fields of the last declaration for every query text if and only if: while the index has them, there is one or no live document still has terms from before the last one was withdrawn; once a compaction has dropped them, no document has text under them |
| Store.Model.IndexFaithfulIff | modules/storage/index.go:122-125 | Search is faithful to the index's own search fields if and only if it has one or no live document still has terms |
| Store.Model.Compact | modules/storage/engine.go:373-379 | After a compaction the documents are those the files held, if the log was compactable, and no text finds anything |
| Store.CompactedSchemaIsLost | modules/storage/engine.go:373-379 | The run: a search field is declared, a document created, the table compacted; the document is there and a search for its text finds nothing |
| Store.WithdrawnFieldIsFound | modules/storage/index.go:122-125 | The failing run: a search field is declared, a document created, the schema declared without it, and a search still returns the document, where no field is searched |
| Store.Withdraw | modules/storage/model.go:72-108 | Declaring an empty schema changes nothing about what any search finds, although no text should match any more |
| Store.Model.CommitTable | modules/storage/tx.go:119-192 | A committed transaction changes the documents of a table exactly as its operations in order; so do the files if nothing torn was in front |
| Store.DocsOfAll | modules/storage/tx.go:158-190 | Applying the records of a transaction one by one is the sequential meaning on documents |
| Transactions.Tx.Create | modules/storage/tx.go:42-66 | Adds one insert record and remembers the document for later updates in the same transaction |
| Transactions.Tx.UpdateByID | modules/storage/tx.go:68-93 | Adds one update record, keeping the creation time only of a document made in this transaction, without asking whether the id exists |
| Transactions.Tx.DeleteByID | modules/storage/tx.go:95-107 | Adds one delete record |
| Transactions.Tx.GroupByTable | modules/storage/tx.go:109-118 | Groups the records by table and keeps their order within each |
| Transactions.ForTableIs | modules/storage/tx.go:109-118 | What a table gets of two runs of records is what it gets of the first and then of the second; it gets all of its own records as they are and none of another table's |
| Transactions.Tx.Commit | modules/storage/tx.go:109-192 | Over all tables, in any order: afterwards every table has the documents that its own operations, in order, make of what it had, tables without operations are untouched, and a table whose files held what it had still has such files |
| Transactions.Tx.CommitTo | modules/storage/tx.go:119-192 | For one table the commit is all of its records in order, or nothing when it has none |
| Batches.SameIff | modules/storage/tx.go:42-107 | Any list of operations comes to the same in one transaction as outside if and only if every change that is the last operation on its id finds a document that the list made and did not remove since, or one from before with the very creation time that the change gives it |
| Batches.RunInside | modules/storage/tx.go:42-192 | The list gathered in a transaction and committed makes exactly the documents of the first meaning, and so those of the second under exactly that condition |
| Batches.RunOutside | modules/storage/model.go:110-266 | The list run one operation at a time makes exactly the documents of the second meaning |
| Transactions.CommitOneUpdate | modules/storage/tx.go:68-93 | For a single update the condition reads: the document was there and had been created at that very time |
| Transactions.UpdateMakesDocument | modules/storage/tx.go:68-93 | The input: in an empty table an update in a transaction makes a document, where one outside a transaction reports that there is none |
| Glob.MatchWildcard | internal/ds/fn.go:5-38 | The greedy matcher accepts exactly the strings that the pattern means |
| Glob.GlobsIffFilled | internal/ds/fn.go:5-38 | A string is meant exactly when substrings for the stars turn the pattern into it |
| Glob.LeftmostIsEnough | internal/ds/fn.go:32-36 | Taking the leftmost place of the next literal loses no match, for any number of stars |
| Glob.LastLiteral | internal/ds/fn.go:20-25 | The literal behind the last star has to stand at the very end |
| Paths.Enclose | internal/str/str.go:56-88 | The builder loop writes the enclosed form |
| Paths.EnclosedForm | internal/str/str.go:56-88 | The enclosed form is empty or a path between separators without blanks, doubled separators or doubled stars, and enclosing it again changes nothing |
| Paths.EnclosedContent | internal/str/str.go:56-88 | The segments of the enclosed form are the pieces of the input without blanks, empty ones left out and runs of stars made one; without any content it is empty |
| Paths.PiecesAre | internal/str/str.go:56-88 | The pieces have no separator, and with separators between them they are the input |
| Paths.StripIs | internal/str/str.go:56-88 | Stripping keeps what is no blank, in order, and drops every blank |
| Paths.TidySegments | internal/str/str.go:42-54 | Every segment of an enclosed path is non-empty and free of separators |
| Paths.SegmentsOfRender | internal/str/str.go:42-54 | Cutting the enclosed writing of segments gives them back |
| RouteTrie.RemoveGlobChild | internal/ds/trie.go:21-28 | Takes exactly the key out of the list of globs and keeps the order of the others |
| RouteTrie.Trie.Insert | internal/ds/trie.go:50-70 | The map from segments to routes gains exactly the new entry, other entries are untouched, globs stay exactly the child keys with a star that are not the star, a new one stands behind those that were there, and no useless leaf appears |
| RouteTrie.Trie.Remove | internal/ds/trie.go:72-109 | The map loses exactly the entry if it was there, every leaf left but the root ends a route, and the globs left keep their order |
| RouteTrie.Trie.Prune | internal/ds/trie.go:98-106 | Going up the chain removes exactly nodes that end nothing and lead nowhere |
| RouteTrie.Trie.Find | internal/ds/trie.go:111-184 | The results are those of the greedy walk: the full match, the deepest star seen, and the captured segments; which edge the walk prefers is said on the routes in the rows of `Preference` |
| RouteTrie.Trie.Walk | internal/ds/trie.go:119-172 | The loop takes one edge per segment, in the order of `Preference.StepPrefers`, as long as there is one, remembering the deepest star and the captured segments |
| RouteTrie.LastCursor | internal/ds/trie.go:50-70 | A walk that runs out of separators stands at the end of the path exactly when the path is closed |
| Lookup.MatchIsSound | internal/ds/trie.go:174-184 | A non-empty full match is a stored route whose edges match the segments one by one |
| Lookup.StarIsSound | internal/ds/trie.go:121-164 | A non-empty wildcard result is a stored route ending in a star whose other edges match the first segments, and no deeper such route lies on the walk; its captures are a prefix of those returned |
| Lookup.FindIsSound | internal/ds/trie.go:111-184 | Put together: a full match and a wildcard result are stored routes that match the path, and the captured values begin with those of either |
| Lookup.MaximalIsUnique | internal/ds/trie.go:119-172 | Two walks of one path that have both gone as far as they can are equal |
| Lookup.AnswersAreUnique | internal/ds/trie.go:111-184 | What a lookup returns is determined by the trie and the path |
| Lookup.OwnPathFound | internal/ds/trie.go:119-172 | A stored route is always found by its own segments, whatever else is stored, with nothing captured |
| Preference.StepPrefers | internal/ds/trie.go:119-160 | Every step takes the segment's own name if a stored route goes on with it, else the parameter sign if one goes on with that, else the star, else the first glob that matches |
| Preference.EndPrefers | internal/ds/trie.go:119-172 | A walk ends before its path does only where no stored route goes on with the segment, the sign or the star and no glob there matches |
| Preference.ResultsAre | internal/ds/trie.go:111-184 | What a lookup makes of its walk: the route at its end if the path ends there too, and of the routes that leave the walk with a last star the one that leaves it last; nothing where there is none |
| Preference.LastEdge | internal/ds/trie.go:111-184 | For the last segment, where no route has its name: a lookup returns the parameter's route with the segment as its value; without that the star's; without both that of the first glob that matches |
| Preference.FindLast | internal/ds/trie.go:111-184 | The same of the lookup itself |
| Preference.FirstSeenIs | internal/ds/trie.go:50-70 | Globs listed as routes first bring them: each once, and one in front of another only if a route brought it no later |
| Preference.InsertAll | internal/ds/trie.go:50-70 | After storing any routes one by one the globs at every node stand so |
| Params.ParseToParamKey | routing/fn.go:83-105 | The loop over the matches writes a sign for each and numbers the names in order |
| Params.FirstMatch | routing/fn.go:83-105 | Up to the first match the route is copied unchanged |
| Params.MatchIs | routing/fn.go:83-105 | A match is a brace, the first closing brace behind it, and no line end between them |
| Params.FoundAt | routing/fn.go:83-105 | Every brace that starts a match is found or lies inside a match that is |
| Params.FoundApart | routing/fn.go:83-105 | What is found are matches, each behind the end of the one before |
| Params.RouteParsed | routing/fn.go:83-105 | A route written part by part, with names that fill a part or stand inside it, is stored under its own segments with a sign for each name |
| Params.Within | routing/fn.go:83-105 | A text whose braces close is read inside a longer one as on its own |
| Params.NumberedExactly | routing/fn.go:83-105 | Each name holds exactly the positions at which it stands |
| Params.PositionsInOrder | routing/fn.go:83-105 | And in increasing order |
| Captures.ParamsLineUp | ctx/http_param.go:7-20 | Indices are in range and under each name stand exactly the segments its parts took: always if the parts are fair (no name inside a longer part, none on a sign, no literal sign in front of a name on anything but a sign), never if a name stands inside a longer part or took a sign, and on paths with differing segments if and only if they are fair |
| Captures.ShapeIff | ctx/http_param.go:7-20 | Names and values line up on every path with signs at the same places if and only if the parts are fair there |
| Captures.InStepIff | ctx/http_param.go:7-20 | The values under all names are right if and only if the wanted ones, in order, stand first among those captured |
| Captures.PlacesFirst | internal/ds/trie.go:119-160 | The places of the names are the first to be captured if and only if names take no sign and literal signs in front of them take signs only |
| Captures.WildcardParamsLineUp | ctx/http_param.go:7-20 | The same for a route that ends in a star, whose captures are a prefix of those returned |
| Router.Push | routing/router.go:160-172 | Filing a route under the key of its own parsing keeps every stored route under its own key, and the positions returned are those of its names |
| Router.Match | routing/router.go:177-180 | What a lookup in a trie so filled returns, full match or star, is a route written in parts that match the path, whose names line up with the values as above |
| Router.AnswersFit | routing/router.go:177-191 | The same of every answer of the trie |
| Router.OwnKeyCapturesNothing | internal/ds/trie.go:119-172 | The input: a route with parameters looked up by its own key is found with nothing captured, so all indexes of its names are out of range |
| Router.LiteralSignShifts | internal/ds/trie.go:119-160 | The input: a part that is the sign in front of a name, on any two other segments: the route is found, both segments are captured, and the name has position 0, where the first stands |
| Lookup.LeadsToRoute | internal/ds/trie.go:72-109 | In a trie without useless leaves every node but the root leads to a stored route |
| Dispatch.MergedMain | routing/router.go:118-158 | Adding puts the handler behind all others as the last and main one, takes the one before out of their middle, and starts an empty item with the global handlers; the other callers put theirs behind, on an empty item after the global ones where the caller is `For`, and leave the main one in its place |
| Dispatch.ItemAfter | routing/router.go:165-170 | With no method and version twice, writing an item makes it the one for its method and version and leaves the others |
| Dispatch.FindItem | routing/router.go:60-67 | The scan finds the item of a method and version, if there is one |
| Dispatch.Routes.Push | routing/router.go:86-175 | The item of the route, method and version takes the handlers as in the row of `Dispatch.MergedMain`; no other item changes; the trie gains the route; every item keeps the positions of its route's names |
| Dispatch.Routes.Add | routing/router.go:246-250 | Afterwards the item of the route, method and version has the handlers it had, less its main one, or the global ones if it had none, and then the new one as main; nothing else has changed |
| Dispatch.Routes.Match | routing/router.go:177-191 | Returns the item of the full match for the method and version if there is one, else that of the star, and the captured values; its positions are those of a route that matches the path and lines up with the values as above |
| Router.Param | ctx/http_param.go:7-20 | A handler gets exactly the names that have positions, each with the captured values at them in order |
| Patterns.NewPattern | pattern/pattern.go:21-59 | The flag loops give every raw pattern the kind its wildcards decide |
| Patterns.SuffixIff | pattern/pattern.go:40-57 | A pattern is a suffix pattern if and only if it is a prefix without a star among its segments, a dot and a star |
| Patterns.MatchSegments | pattern/pattern.go:98-119 | The two-index walk decides the segment-level meaning |
| Patterns.Match | pattern/pattern.go:61-76 | All four kinds decide the one segment-level meaning, except that a suffix pattern refuses its prefix followed by only a dot |
| Patterns.BarePrefixIsMeant | pattern/pattern.go:67-71 | The exception is real: the meaning accepts that topic |
| Patterns.SomeBarePrefix | pattern/pattern.go:67-71 | Every suffix pattern has such a topic: that of a.* is a with a dot |
| Patterns.ExactMeaning | pattern/pattern.go:65-66 | A pattern without wildcards means its own text only |
| Patterns.OneSegment | pattern/pattern.go:98-119 | A pattern of one segment means every topic if it is the star, else its own text |
| Patterns.FirstSegment | pattern/pattern.go:98-119 | A pattern of more segments means a topic if and only if that is a segment, any for a star or else the same, a dot, and what the rest of the pattern means; with the row above this decides every pattern |
| Patterns.SuffixMeaning | pattern/pattern.go:67-71 | A suffix pattern means the topics that start with its prefix and a dot |
| Patterns.SplitAtDot | pattern/pattern.go:21-59 | Splitting at a dot splits into the pieces of both sides |
| Patterns.JoinOfSplit | pattern/pattern.go:53 | Joining what was split gives the text back |
| WSEvents.WSEvent.Index | wsevent/ws_event.go:31-41 | The index stays that of the patterns in the order they were first added |
| WSEvents.WSEvent.Add | wsevent/ws_event.go:43-48 | Replaces or adds the item and indexes the pattern the first time only |
| WSEvents.WSEvent.AddMiddlewares | wsevent/ws_event.go:50-57 | Appends to the middlewares and keeps the handler |
| WSEvents.WSEvent.AddInjectableHandler | wsevent/ws_event.go:59-79 | Sets the handler and keeps the middlewares; without a function nothing changes |
| WSEvents.WSEvent.Match | wsevent/ws_event.go:81-112 | Fails exactly when no handled pattern means the topic, and otherwise returns the best one: the topic itself, then the longest prefix, then the earliest complex pattern, then the global one |
| WSEvents.BestIsUnique | wsevent/ws_event.go:81-112 | There is at most one best pattern |
| WSEvents.BestMeans | wsevent/ws_event.go:81-112 | The best pattern is the topic's own if that has a handler, else the longest suffix pattern that means it, else the complex one registered first, else the global one |
| WSEvents.WSEvent.LongestPrefix | wsevent/ws_event.go:86-95 | The scan from the last dot finds the longest handled suffix pattern |
| WSEvents.WSEvent.EarliestComplex | wsevent/ws_event.go:97-103 | The list scan finds the complex pattern that was registered first |
| WSEvents.PrefixIndexed | wsevent/ws_event.go:31-41 | The prefix index holds exactly the suffix patterns that were added |
| Broker.MemoryBroker.Subscribe | memorybroker/memory_broker.go:61-109 | Adds exactly one live subscription, in the bucket of its pattern, or reports the right error and changes nothing |
| Broker.MemoryBroker.Unsubscribe | memorybroker/memory_broker.go:111-134 | Takes exactly that subscription out, or reports the right error and changes nothing |
| Broker.MemoryBroker.RemoveFromBucket | memorybroker/memory_broker.go:212-235 | The buckets are afterwards those of the remaining subscriptions, with no empty one left |
| Broker.MemoryBroker.PublishInternal | memorybroker/memory_broker.go:160-210 | Collects the handler of each live subscription exactly once if its pattern means the topic, and no other |
| Broker.MemoryBroker.CountPrefixes | memorybroker/fn.go:16-22 | The walk over the prefixes counts exactly the suffix subscriptions that match |
| Broker.MemoryBroker.GatherPrefixes | memorybroker/fn.go:16-22 | And collects them |
| Broker.MemoryBroker.Publish | memorybroker/memory_broker.go:30-39 | Refuses an empty topic and a closed broker |
| Broker.MemoryBroker.Close | memorybroker/memory_broker.go:136-153 | Afterwards the broker is closed and all four maps are empty |
| Broker.FiledThenPulled | memorybroker/memory_broker.go:86-105 | Subscribing and unsubscribing restores the buckets key for key |
| Broker.NoEmptyBucket | memorybroker/memory_broker.go:212-235 | The buckets of any set of subscriptions are non-empty |
| Broker.GroupedAfterAdding | memorybroker/memory_broker.go:86-105 | Filing one more subscription gives the buckets of the larger set |
| Broker.GroupedAfterRemoving | memorybroker/memory_broker.go:212-235 | Taking one out gives the buckets of the smaller set |
| Broker.FourParts | memorybroker/memory_broker.go:160-210 | What matches a topic is the disjoint union of the four kinds' contributions |
| Shutdown.InvAlways | memorybroker/memory_broker.go:41-153 | In every run the wait group counts the goroutines in flight and at most one Close is the winner |
| Shutdown.ClosedForGood | memorybroker/memory_broker.go:81-106 | Once the flag is up no subscription is inserted and no publication registers, whatever threads are in the middle of |
| Shutdown.ClosedIsQuiet | memorybroker/memory_broker.go:136-153 | From the return of the winning Close on, no asynchronous publication is in flight and all four maps are empty for ever |
| Shutdown.LeftInFlight | memorybroker/memory_broker.go:41-153 | Once the flag is up, what is in flight is what was in flight then less what has finished since, asynchronous and direct publications alike |
| Shutdown.QuietIff | memorybroker/memory_broker.go:136-142 | Whichever Close has returned, no asynchronous publication is in flight if and only if every one that was when the flag was up has finished since; when the winner has returned they have |
| Shutdown.ReturnedIsClosed | memorybroker/memory_broker.go:136-142 | A Close that has returned, as winner or not, finds the flag up |
| Shutdown.DirectOutlasts | memorybroker/memory_broker.go:30-39 | A direct publication can outlast even the winning Close |
| Shutdown.LoserReturnsEarly | memorybroker/memory_broker.go:136-142 | A Close that comes second can return with a publication still in flight |
| Connections.WSConnmgr.Unregister | core/ws_connmgr.go:77-90 | Closes the channel if the connection is still there, withdraws all it holds, and forgets it |
| Connections.WSConnmgr.SweepOne | core/ws_connmgr.go:171-186 | Does the same for one identifier of the sweeper's list |
| Connections.WSConnmgr.IsSubscribed | core/ws_connmgr.go:122-133 | Tells whether the connection lists the topic |
| Lifecycle.HeldAfter | core/ws_connmgr.go:106-154 | After any step a connection holds a subscription exactly if it held it and the step did not drop it, or the step added it; asking the broker adds it, and appending it to the list does not change that |
| Connections.WSConnmgr.Unsubscribe | core/ws_connmgr.go:135-154 | Takes out the first subscription to the topic, unless the broker refuses |
| Lifecycle.InvAlways | core/ws_connmgr.go:58-191 | In every interleaving the broker, while open, holds exactly what connections list or are about to list |
| Lifecycle.ClosedAtMostOnce | core/ws_connmgr.go:58-90 | A registered connection's done channel is open, none is ever closed twice, and a finished connection's was closed once |
| Lifecycle.OnePerTopic | core/read_loop.go:66-98 | A connection holds at most one subscription to a topic, in its list and in the broker |
| Lifecycle.NothingLeft | core/ws.go:136-143 | From the end of a connection's goroutine on it is out of the registry, and none of its subscriptions is in the broker as long as that is open |
| Lifecycle.LeftAfterWithdrawal | core/ws_connmgr.go:77-90 | After an unregistration the broker has an entry of the connection exactly if, with the flag up, it had one before, and otherwise if the connection listed more than was withdrawn or is about to list one |
| Lifecycle.LeftIff | core/ws.go:136-143 | From the end of a connection on the broker has an entry of it if and only if it had one at that end and the maps have not been cleared since |
| Lifecycle.LeftOfConnection | core/ws.go:136-143 | In any run the broker has an entry of a connection that has ended if and only if its unregistration left one, because the flag was up or went up before all were withdrawn, and the maps have not been cleared since |
| Lifecycle.LeftWhenTheBrokerCloses | core/ws_connmgr.go:85-87 | A connection that ends while the broker's flag is up can leave a subscription there until the maps are cleared |
| Lifecycle.BrokerKept | core/ws_connmgr.go:109-191 | Every single step keeps broker and lists in agreement |
| Lifecycle.ListKept | core/read_loop.go:66-107 | Every single step keeps the topics of a list distinct, and the one being added new |
| Cache.Evict | memorycache/memory_cache.go:42-52 | Of a batch of entries, as many as there are or the limit asks for, exactly the expired ones are dropped, and all others are kept as they are |
| Cache.Sweep | memorycache/memory_cache.go:95-105 | The sweeper drops exactly the expired entries |
| Cache.MemoryCache.Get | memorycache/memory_cache.go:111-126 | Answers as a map that never drops anything would |
| Cache.MemoryCache.Set | memorycache/memory_cache.go:128-146 | Writes the entry and leaves all other answers unchanged, whatever the batch drops |
| Cache.WrittenThenRead | memorycache/memory_cache.go:20-36 | In the map that never drops anything, what is written is read until its time is over, for ever with a time of 0 or less, and other keys read as before |
| Cache.SetThenGet | memorycache/memory_cache.go:111-215 | The same of Set followed by Get, and TTL tells the time left |
| Cache.MemoryCache.SetNX | memorycache/memory_cache.go:148-170 | Writes exactly when the map that never drops anything has no unexpired entry |
| Cache.MemoryCache.Delete | memorycache/memory_cache.go:172-181 | Takes the entry out |
| Cache.MemoryCache.SweepShard | memorycache/memory_cache.go:95-105 | Leaves every later answer unchanged |
| Cache.MemoryCache.TTL | memorycache/memory_cache.go:198-215 | Reports the time left of an entry that can still be read |
| FixedWindow.Throttler.FixedWindow | guards/throttler/throttler.go:85-109 | Counts one more in the slot of the key and window, admits while the count is within the limit, and reports the next multiple of the window's length as its end |
| FixedWindow.WindowFits | guards/throttler/throttler.go:86 | A window is as many whole seconds as fit into the time to live, and one at least |
| FixedWindow.CacheKeyInjective | guards/throttler/throttler.go:88 | No two keys and no two windows share a slot |
| FixedWindow.CountsOnIff | guards/throttler/throttler.go:91-97 | A request counts on from the one before it in its window if and only if it is the first or its lookup comes before the stored deadline |
| FixedWindow.WindowAdmits | guards/throttler/throttler.go:85-109 | In every run whose lookups come before the deadline of what they should find, each key's window admits exactly the smaller of its requests and the limit |
| FixedWindow.OwnWindowsOrderly | guards/throttler/throttler.go:85-109 | Requests whose lookups fall in their own windows are such a run |
| FixedWindow.TwiceTheLimit | guards/throttler/throttler.go:85-109 | No interval as long as the window sees more than twice the limit admitted |
| FixedWindow.TwiceInTTL | guards/throttler/throttler.go:85-109 | For a time to live of whole seconds no interval as long as that sees more than twice the limit admitted |
| FixedWindow.WindowOfTTL | guards/throttler/throttler.go:85-109 | And from one multiple of it to the next exactly the smaller of the requests and the limit are admitted |
| FixedWindow.LateLookupForgets | guards/throttler/throttler.go:91-94 | A run of two requests in one window, the second looking up too late, admits two where the limit is one |
| FixedWindow.BigReadsBack | guards/throttler/throttler.go:93-97 | A stored count reads back |
| FixedWindow.PutBigAt | guards/throttler/throttler.go:97-98 | A count is stored with its most significant byte first |
| TokenBucket.Throttler.TokenBucket | guards/throttler/throttler.go:149-189 | Takes a token if there is one after the refill, stores the rest, and reports when to come back; `TokenBucket.AdmitsIff` says when there is one |
| TokenBucket.TokensInRange | guards/throttler/throttler.go:156-168 | Tokens never fall below none nor rise above the limit |
| TokenBucket.FoundIff | guards/throttler/throttler.go:156-163 | A request finds in the cache what a bucket that is never dropped would give it if and only if its lookup comes before the stored deadline or the bucket has filled up |
| TokenBucket.ExpiryUnseen | guards/throttler/throttler.go:156-173 | In a run whose lookups are in time the expiry of the cache entry never changes a decision |
| TokenBucket.SoonOrderly | guards/throttler/throttler.go:156-173 | Requests whose lookups come within one refill time of their clock readings are such a run |
| TokenBucket.LateLookupForgets | guards/throttler/throttler.go:156-173 | For every window: a run of two requests, the second looking up too late, admits two where one and a half is the bound |
| TokenBucket.CacheHasIdeal | guards/throttler/throttler.go:156-173 | The cache always agrees with a bucket that is never dropped |
| TokenBucket.BucketBound | guards/throttler/throttler.go:149-173 | In any stretch of any run whose lookups are in time at most the limit and what the time in between earns is admitted |
| TokenBucket.AdmitsIff | guards/throttler/throttler.go:149-173 | The decision without the bucket, both ways: a request is admitted if and only if, from every earlier request of its key on, those admitted and itself keep within the limit and what the time between earns |
| TokenBucket.WaitIsTight | guards/throttler/throttler.go:176-178 | A request finds a token if and only if it comes after the end of the wait in nanoseconds, or at its end when the wait is exact |
| TokenBucket.AtReset | guards/throttler/throttler.go:176-181 | A request at the start of the reported second finds a token if and only if the token comes at that very moment; before it none does, and at the start of any later second every one does |
| Percentages.SumDurations | accesslog/access_log.go:85-91 | The loop adds up |
| Percentages.StableSort | accesslog/access_log.go:141-144 | Positions are ordered by remainder, equal ones as they stood |
| Percentages.DistributePercentages | accesslog/access_log.go:118-162 | Shares rounded towards zero, then one more or one less for exactly the entries that are ahead |
| Percentages.TopIsUnique | accesslog/access_log.go:141-161 | Which entries are corrected is determined by the remainders and the original order |
| Percentages.TruncatedIs | accesslog/access_log.go:128-129 | What the conversion to a whole number drops is less than one and on the side away from zero |
| Percentages.RaisedFirst | accesslog/access_log.go:145-153 | On the result: of an entry that was raised and one that was not, the first has the larger remainder, or the same one and stands earlier |
| Percentages.LoweredFirst | accesslog/access_log.go:155-161 | The mirror image where shares are lowered |
| Percentages.Shortfall | accesslog/access_log.go:133 | For durations and their sum the shortfall is not negative and below the number of entries |
| Percentages.AddsUpIff | accesslog/access_log.go:118-162 | Whatever the entries, the shares add up to 100 exactly when the correction has enough entries |
| Percentages.WholeShares | accesslog/access_log.go:118-153 | For durations and their sum: exactly 100, each share its floor or one more, and one more only where something was rounded away |

## Left out

- Operating-system failures, partial writes, `Sync`, rename and directory handling in the store.
- Store hooks, watchers, `Flush`, `Close`, the registry of tables and rollback through the store's entry point; rolled-back and unfinished transactions are covered in the log and its replay.
- Atomicity of a transaction across tables: the source commits table by table, and so does Transactions.Tx.Commit.
- Transactions.Tx.Commit: the engines of its tables are open, where the source opens a missing one on the way; fields fit.
- Transactions.Tx.CommitTo: fields fit.
- Store.Model.Create: fields fit their length words; Codec.RoundTrip says exactly what an over-long one does. What becomes of the log behind torn bytes that later bytes may complete is not said; Recovery.WriteBehind says that the record itself is not found.
- Store.Model.UpdateByID: the same.
- Store.Model.DeleteByID: the table's name fits its length word.
- Store.Model.CommitTable: fields fit.
- Engine.TableEngine.LogPlain: fields fit.
- Engine.TableEngine.LogBlock: fields fit.
- Batches.RunInside: fields fit.
- Batches.RunOutside: fields fit.
- Engine.TableEngine.Compact: reads the files, and so requires that they hold a log.
- Readers that run beside a writer of the same table; each operation is taken as a whole, as its lock makes it.
- JSON values other than strings, and the printing of numbers for the index.
- Engine.TableEngine.Rewrite: builds the new files with an engine of its own, where the source repeats the rotation inline.
- Tokens.Script.Tokenize: takes the lower-cased text with one separator behind it, which stands for the check after the loop; which characters are letters or digits is a parameter.
- Store.Model.Search: states the naive conjunction only while some search field is declared, because the source keeps old terms otherwise; Store.Model.SearchFaithfulIff is the exact condition.
- Params.RouteParsed: a brace that opens is closed in its own part, and no separator stands between braces.
- Captures.ParamsLineUp: for such routes.
- Captures.WildcardParamsLineUp: for such routes.
- Router.Push: for such routes.
- Dispatch.Routes.Push: for such routes, and not for the empty one.
- Dispatch.Routes.Match: takes the path after it is cleaned and enclosed.
- Router.Param: all indexes in range, where the source panics on one that is not.
- Strings are sequences of characters where the source works on bytes; separators, braces and stars are one byte each.
- `Use`, `For` and `Group` as loops over pushes, request handling, and the trie's printing.
- Broker.MemoryBroker.Close: taken with no publication in flight; the waiting is in Shutdown.ClosedIsQuiet.
- Calling the collected handlers, whose panics the source swallows, and the message passed to them.
- Sending, pinging and reading on the connection itself, and the replies of the read loop; the sweeper may pick any connection at any time.
- Cache.MemoryCache.Get: clock readings never go back from one operation to the next; copying of values and the listing of all keys are not modelled.
- FixedWindow.WindowAdmits: for requests one after another whose lookup comes before the stored deadline, which FixedWindow.CountsOnIff shows to be exact; the source reads and writes the count in two steps, so concurrent requests can share one.
- FixedWindow.TwiceTheLimit: under the same conditions.
- TokenBucket.BucketBound: over exact reals, for requests one after another whose lookup is in time, which TokenBucket.FoundIff shows to be exact.
- TokenBucket.ExpiryUnseen: under the same conditions.
- `slidingWindow`, the third throttling policy, which looks the window before up under a prefix that nothing writes.
- Throttler response headers and the choice of the key.
- Percentages.DistributePercentages: over exact fractions instead of floating point; the grouping and formatting of the log line are not modelled.
- Struct binding, devtool, logging, CORS, CSRF, the HTTP client, configuration and the sample applications.
