# The storage and publication core of the local reference Relay, in Dafny

The Relay keeps *candidates* - JSON objects under content ids - in a SQLite store that can be searched,
and the same objects as *blobs* in a directory with one write-once file for each id. Publishing writes the
blob and then the candidate, exporting reads the candidates and then the blobs, restoring writes the blobs
and then replaces the candidates. None of this is one transaction. This project models that core and proves
what holds of it in every run.

- **Text and JSON** (`Text`, `Utf8`, `Sorting`, `Numeral`, `Json`, `JsonParser`, `KeyOrder`, `JsonGraph`,
  `JsonClone`, `Base64Url`, `ObjectId`): strings are sequences of UTF-16 code units; `compareText` orders
  them by code point; `stableJson` prints a JSON value; a full JSON reader is its inverse; its key order is
  compared with that of RFC 8785; `isJsonValue` walks an object graph with sharing and cycles.
- **Normal forms** (`Collecting`, `Scopes`, `Validation`, `ExportTime`, `Archive`): candidates, coverage,
  store exports and archives, with the loops that gather them and the functions those loops compute; export
  times against the calendar arithmetic of ECMA-262.
- **The SQLite store** (`Store`, `StoreLaws`, `SqliteStore`, `MemoryStore`, `Refinement`, `ReadRuns`,
  `CoverageRuns`, `CandidateStore`, `SqliteCandidateStore`): the database as a value and what each
  transaction makes of it; the same operations as methods of a class that changes its tables row by row and
  rolls back; the memory store as the specification of the reads; coverage as a cache-validity protocol over
  interleaved steps; export and restore.
- **Paging** (`Cursor`, `Paging`, `PageWalk`): cursor tokens, the three discovery routes, and a client that
  follows `nextCursor` while the store grows or stands still.
- **The protocol over two stores** (`BlobStore`, `RelayRuns`, `RelaySafety`, `RelayOutcomes`, `Durability`,
  `Relay`): blob files as octets in a directory next to temporary files; a step machine of any number of
  publishers, restorers and exporters, with partial writes, I/O errors and crashes between any two steps;
  the same machine with losses of power; and `LocalReferenceRelay` as a class.

What stands for the outside world: SHA-256 (`Archive.SHA256`), HMAC (`Cursor.HMAC_SHA256`) and the reading
and printing of JSON numbers (`Numeral.READ_NUMBER`) are uninterpreted functions; the clock, random file
names, the decisions of capability verifier and publication policy, and the octets each write gets through
are parameters. SQLite is taken to run its transactions atomically, to keep primary keys unique and to
compare text by the octets of its UTF-8 form.

Three places where the code does less than one might expect from it, each with an input and the exact condition:

- Text columns hold UTF-8, so a lone surrogate in an indexed field is stored as U+FFFD. Such an object is
  accepted, and from then on its read fails the index check (`CandidateStore.LoneSurrogateAlias`, by a
  publication into a new store). `Refinement.FindRefines` says when discovery reads agree with the memory
  store: always for releases; for communes unless the context names a stored object with ill-formed indexed
  text; for bindings unless an alias of the context becomes the alias asked for only as UTF-8, or is the one
  asked for and ill-formed.
  `Refinement.GetObjectRefines` and `CandidateStore.ExportExactly` give the conditions for `getObject` and
  for exports.
- Object keys are sorted by code point, not by UTF-16 code unit as section 3.2.3 of RFC 8785 asks
  (`Text.UnitOrderDiffers` is a pair of keys). `KeyOrder.UnitOrderExactly` says for any two texts, lone
  surrogates included, when the two orders agree, and `KeyOrder.KeyOrderExactly` for which objects the
  printed key order is that of the RFC.
- relay-v1/packages/relay-local/README.md:10-11 says the directory is synced before a candidate is published.
  `putIfAbsent` returns for a blob that is already there without syncing
  (relay-v1/packages/relay-local/src/filesystem-blob-store.js:102-109), which may be one that another process
  has linked and not synced. `Durability.LostBlob` is a run in which the candidate then loses its blob with
  the power; `Durability.BlobSurvivesExactly` and `Durability.EarlyReturnExactly` say when that can happen,
  and `Durability.CandidatesSurvive` that nothing else in the protocol makes it happen.

## Model

| member | source | states |
|---|---|---|
| `Text.CompareText` | src/store-utils.js:11-22 | the loop with two cursors over code units returns the lexicographic order of the decoded code points |
| `Text.TextOrderTotal` | src/store-utils.js:11-22 | the order is zero exactly for identical texts, lone surrogates included, and changes sign when its arguments are swapped |
| `Text.TextOrderTransitive` | src/store-utils.js:11-22 | its strict part is transitive, so sorting by it is well-defined |
| `Text.UnitOrderWithoutSurrogates` | src/store-utils.js:11-22 | without surrogates the order is that of UTF-16 code units |
| `Text.UnitOrderDiffers` | src/store-utils.js:77-80 | a pair of well-formed keys on which the order differs from that of code units; `KeyOrder.UnitOrderExactly` has all such pairs |
| `KeyOrder.UnitOrderExactly` | src/store-utils.js:11-22 | for any two texts, lone surrogates included, the order is that of UTF-16 code units exactly when the texts do not cross: where they first differ, a surrogate pair meets neither a single code unit above its lead surrogate nor that surrogate alone with a code point from 0xE000 to 0xFFFF after it |
| `KeyOrder.UnitOrderWellFormed` | src/store-utils.js:11-22 | for well-formed texts: exactly unless the first differing code points are one above 0xFFFF and one from 0xE000 to 0xFFFF |
| `KeyOrder.KeyOrderExactly` | src/store-utils.js:77-80 | the keys that the canonical text of an object lists are in the order of RFC 8785 exactly when no two of them cross |
| `Utf8.EncodeDecode` | relay-v1/packages/relay-local/src/filesystem-blob-store.js:30-39 | text written as UTF-8 reads back with each lone surrogate replaced by U+FFFD and nothing else changed |
| `Utf8.SurvivesUtf8` | relay-v1/packages/relay-local/src/filesystem-blob-store.js:30-39 | it reads back unchanged exactly when it holds no lone surrogate |
| `Utf8.DecodeEncode` | relay-v1/packages/relay-local/src/filesystem-blob-store.js:78-96 | octets read as well-formed text; where it holds no U+FFFD they are its own UTF-8 form, so no overlong form or surrogate is read |
| `Utf8.Utf8Order` | src/sqlite-store.js:456-459 | on well-formed text the octet order of COLLATE BINARY is the order of compareText |
| `Sorting.SortedTexts` | src/store-utils.js:77-78 | sorting a set of keys lists each of them once, in strictly increasing order |
| `Sorting.SortedUnique` | src/store-utils.js:77-78 | a sorted listing is determined by its elements |
| `Json.PrintWellFormed` | src/store-utils.js:69-81 | canonical text never holds a lone surrogate, so it survives files and columns |
| `Json.PrintJoinsItems` | src/store-utils.js:76 | an array's text is the canonical texts of its items joined by commas |
| `Json.PrintJoinsMembers` | src/store-utils.js:77-80 | an object's text is its keys, in the order of compareText, with the canonical texts of their members, joined by commas |
| `JsonParser.EscapesRoundTrip` | src/store-utils.js:74-75 | every string, lone surrogates included, reads back from its quoted form (section 7 of RFC 8259) |
| `JsonParser.ShortestEscapes` | src/store-utils.js:74-75 | of all well-formed texts a string reads from, its canonical text is the shortest |
| `JsonParser.EscapesLowerCase` | src/store-utils.js:74-75 | escapes hold no capital letter |
| `JsonParser.ValueRoundTrip` | src/store-utils.js:74-81 | a printed value reads back from the head of any text that does not continue a number, and leaves the rest |
| `JsonParser.PrintParse` | src/store-utils.js:69-81 | parsing canonical text gives the value back |
| `JsonParser.PrintListsSorted` | src/store-utils.js:77-80 | read off the text by a reader that keeps their order, an object's keys are listed once each, in strictly increasing order of compareText, wherever the object stands |
| `JsonParser.PrintInjective` | src/store-utils.js:69-81 | two values print the same exactly when they are equal as JSON, whatever the order of their keys |
| `JsonParser.CanonicalIsPrinted` | src/sqlite-store.js:344-351 | the check that stored text prints as itself accepts exactly the printer's image |
| `JsonGraph.AcceptsExactly` | src/store-utils.js:24-63 | the walk accepts exactly the values from which every path is acyclic and reaches legal nodes and leaves only |
| `JsonGraph.Walker.IsJsonValue` | src/store-utils.js:24-63 | the walk with its mutable path set terminates on every finite graph, decides acceptance and leaves the set as it found it |
| `JsonGraph.Walker.Visit` | src/store-utils.js:32-57 | the loops over slots and members accept exactly a legal node all of whose children are accepted |
| `JsonGraph.DenoteAnyPath` | src/store-utils.js:74-81 | the printer's recursion is well-founded on accepted values, and an object means the same on every path to it |
| `JsonGraph.SharedAndCyclic` | src/store-utils.js:28-31 | sharing is accepted and printed twice, a cycle is refused |
| `JsonClone.ReadsBack` | src/store-utils.js:83-86 | text stringified in insertion order reads back as the value the graph stands for |
| `JsonClone.CloneIsFaithful` | src/store-utils.js:83-86 | a clone exists exactly for JSON values and has the canonical text of the original |
| `Base64Url.EncodeDecode` | src/store-utils.js:102-103 | bytes of any length read back from base64url |
| `Base64Url.DecodeEncode` | src/store-utils.js:102-103 | letters are the encoding of what they decode to exactly when their unused trailing bits are zero (section 3.5 of RFC 4648) |
| `Base64Url.LettersRead` | src/store-utils.js:102-103 | each value has one letter, and is read from that or, for the last two, from the letter of the standard alphabet |
| `ObjectId.CanonicalIsEncoded` | src/store-utils.js:98-107 | the canonical ids are exactly the prefix followed by the encoding of some 32 bytes, which the id gives back |
| `ObjectId.CanonicalByLastLetter` | src/store-utils.js:98-107 | among texts of the pattern, acceptance is that the last letter has its two unused bits clear |
| `Collecting.CollectExactly` | relay-v1/packages/relay-contract/src/validation.js:36-49 | gathering by key succeeds exactly when every item is valid and no key has two values, and then holds the items and nothing else |
| `Scopes.ReadScopeNormal` | src/sqlite-store.js:275-297 | a normalised scope is in normal form: canonical ids, binding ids sorted without repetition |
| `Scopes.ReadScopeJson` | src/sqlite-store.js:275-297 | a scope is in normal form exactly when normalising it again changes nothing |
| `Scopes.ReadScopeExactly` | src/sqlite-store.js:275-297 | what each method accepts, member by member: a release scope needs a list of canonical ids and nothing else, and comes out with exactly these, sorted |
| `Scopes.ReleaseScopeOfSet` | src/sqlite-store.js:282-289 | order and repetition of binding ids make no difference |
| `Scopes.ScopeTextInjective` | src/sqlite-store.js:367-371 | two scopes have one stored text exactly when they are the same |
| `Scopes.CoverageKeyInjective` | relay-v1/packages/relay-contract/src/validation.js:88-91 | method, NUL and scope text identify the scope |
| `Scopes.CoverageKeyOrder` | relay-v1/packages/relay-contract/src/validation.js:93-96 | ordering by method and then by scope text is ordering by that key |
| `Validation.NormalizeCandidates` | relay-v1/packages/relay-contract/src/validation.js:36-49 | the loop over a growing Map, comparing representations, computes the normal form or fails |
| `Validation.ReadEntryExactly` | relay-v1/packages/relay-contract/src/validation.js:22-34 | a candidate is read exactly with a canonical id and an object; one without its object is refused |
| `Validation.CandidatesNormal` | relay-v1/packages/relay-contract/src/validation.js:36-49 | its result has canonical ids in strictly increasing order |
| `Validation.CandidatesIdempotent` | relay-v1/packages/relay-contract/src/validation.js:36-49 | a list in normal form is normalised to itself |
| `Validation.CandidatesOfSet` | relay-v1/packages/relay-contract/src/validation.js:36-49 | lists that read as the same candidates have one normal form: order, repetition and ignored members make no difference |
| `Validation.SameNormalForm` | relay-v1/packages/relay-contract/src/validation.js:36-49 | and accepted lists with one normal form read as the same candidates |
| `Validation.CandidatesAccepted` | relay-v1/packages/relay-contract/src/validation.js:36-49 | it succeeds exactly when every candidate is well-formed and no id comes with two representations |
| `Validation.CandidatesHeld` | relay-v1/packages/relay-contract/src/validation.js:36-49 | the normal form holds exactly the candidates read |
| `Validation.NormalizeCoverage` | relay-v1/packages/relay-contract/src/validation.js:83-97 | the loop, comparing flags under one key, computes the normal form or fails |
| `Validation.ReadCoverageExactly` | relay-v1/packages/relay-contract/src/validation.js:51-81 | a coverage entry is read exactly with the name of a method, a scope of that method and a flag |
| `Validation.CoverageNormal` | relay-v1/packages/relay-contract/src/validation.js:83-97 | its result has normal scopes in strictly increasing order of their keys |
| `Validation.CoverageAccepted` | relay-v1/packages/relay-contract/src/validation.js:83-97 | it succeeds exactly when every entry is well-formed and no scope is declared both complete and incomplete |
| `Validation.CoverageHeld` | relay-v1/packages/relay-contract/src/validation.js:83-97 | its result holds exactly the declarations read |
| `Validation.CoverageIdempotent` | relay-v1/packages/relay-contract/src/validation.js:83-97 | coverage in normal form is normalised to itself |
| `Validation.CoverageOfSet` | relay-v1/packages/relay-contract/src/validation.js:83-97 | lists that read as the same declarations have one normal form: order, repetition and the listing of binding ids make no difference |
| `Validation.SameReleaseDeclaration` | relay-v1/packages/relay-contract/src/validation.js:51-81 | a release declaration reads the same whatever the order and repetition of its binding ids |
| `Validation.ExportNormal` | relay-v1/packages/relay-contract/src/validation.js:99-117 | a normalised store export is in normal form |
| `Validation.NormalizeExactly` | relay-v1/packages/relay-contract/src/validation.js:99-117 | a store export is accepted exactly with this version, a source, a snapshot that is a string or null, a safe revision that is not negative, and lists that normalise; it is refused otherwise |
| `Validation.ExportIdempotent` | relay-v1/packages/relay-contract/src/validation.js:99-117 | a store export in normal form is normalised to itself |
| `Archive.BlobsExactly` | relay-v1/packages/relay-contract/src/archive.js:16-27 | equal counts and a match for each blob suffice: accepted exactly when the de-duplicated blobs are the candidates, id by id and representation by representation |
| `ExportTime.ExportTimeExactly` | relay-v1/packages/relay-contract/src/archive.js:29-41 | an export time is exactly a text that some time value of the years 0 to 9999 is printed as, by the day arithmetic of section 21.4.1 of ECMA-262 |
| `Archive.CreateNormal` | relay-v1/packages/relay-contract/src/archive.js:43-54 | an archive is made exactly from a well-formed snapshot with its candidates as blobs and a real time, and is in normal form |
| `Archive.CreateOfSet` | relay-v1/packages/relay-contract/src/archive.js:43-54 | snapshots and blobs that read as the same entries, declarations and blobs give the same archive and digest, whatever their order, repetition and spelling |
| `Archive.VerifyOwn` | relay-v1/packages/relay-contract/src/archive.js:56-68 | every archive in normal form, so every created one, verifies and comes back unchanged |
| `Archive.VerifiedIsNormal` | relay-v1/packages/relay-contract/src/archive.js:56-68 | what verifies is in normal form, so a second round changes nothing |
| `Archive.VerifyExactly` | relay-v1/packages/relay-contract/src/archive.js:56-68 | a value verifies exactly if it has the five members and no others, this version, the parts of an archive in normal form, and the digest of that archive's own content; it then verifies to that archive |
| `Archive.VerifyDigest` | relay-v1/packages/relay-contract/src/archive.js:65-66 | an archive in normal form under any other digest than its own is refused |
| `Archive.ForeignDigest` | relay-v1/packages/relay-contract/src/archive.js:65-66 | the content of one archive under the digest of another verifies exactly when SHA-256 does not tell the two texts apart; without such a collision the archives are equal |
| `Archive.VerifyRefuses` | relay-v1/packages/relay-contract/src/archive.js:56-66 | a value that is no object, has a member missing or one too many, another version, or a time or digest that is no string is refused |
| `Store.ParseRowOf` | src/sqlite-store.js:337-365 | the row written for an object reads back as it exactly when its indexed fields survive UTF-8, and is an integrity error otherwise |
| `Store.ParseStoredExactly` | src/sqlite-store.js:337-365 | any row is read exactly if its id is canonical, its text is the canonical text of an object and its indexes are the ones derived from it; other rows are an integrity error |
| `Store.ScopeFromText` | src/sqlite-store.js:383-402 | the stored text of a normal scope reads back as that scope |
| `Store.ScopeFromExactly` | src/sqlite-store.js:383-402 | any stored scope is read exactly if it is the canonical text of a normal scope of its method |
| `Store.ParseCoverageRowExactly` | src/sqlite-store.js:383-411 | any coverage row is read exactly if its scope is and its revision is not above the store's; other rows are an integrity error |
| `Store.ReadCompleteExactly` | src/sqlite-store.js:367-381 | complete exactly with a row of the scope that says so at the store's revision; a row of a later revision is an integrity error |
| `Store.SelectedElements` | src/sqlite-store.js:767-773 | a query lists exactly the stored ids its WHERE clause admits, sorted and once each |
| `StoreLaws.InsertedIsPutAll` | src/sqlite-store.js:605-607 | inserting entries in a transaction stores what puts into a memory store would, and conflicts where a put would |
| `StoreLaws.PutAllExactly` | src/memory-store.js:54-70 | a batch of distinct ids is stored exactly when none disagrees with a stored object, and then adds itself and nothing else |
| `StoreLaws.AppendEffect` | src/sqlite-store.js:617-638 | an append succeeds exactly without disagreement in a readable store; it adds its entries, and only if something was new drops coverage and moves the revision by one; a failed append changes nothing |
| `StoreLaws.ImportEffect` | src/sqlite-store.js:593-615 | an import succeeds exactly when nothing it keeps disagrees; its coverage is the only one afterwards, at a revision of its own; a failed import changes nothing |
| `StoreLaws.WriteCoverageValid` | src/sqlite-store.js:647-655 | writing a coverage row with a revision read earlier keeps the tables valid and the objects unchanged |
| `SqliteStore.SQLiteStore.NormalizeEntries` | src/sqlite-store.js:260-273 | the loop computes the normal form and tells malformed entries from conflicting ones |
| `SqliteStore.SQLiteStore.InsertEntry` | src/sqlite-store.js:552-575 | a row is inserted under a new id, an equal one left alone, a different one reported |
| `SqliteStore.SQLiteStore.InsertAll` | src/sqlite-store.js:623-628 | the insertion loop makes the table the specification gives and counts the new rows |
| `SqliteStore.SQLiteStore.AppendEntries` | src/sqlite-store.js:617-638 | result and tables after commit or rollback are those of the specified append; a read-only store refuses |
| `SqliteStore.SQLiteStore.InsertCoverage` | src/sqlite-store.js:585-591 | plain inserts of normalised coverage never violate the primary key and make the specified table |
| `SqliteStore.SQLiteStore.ImportSnapshot` | src/sqlite-store.js:593-615 | result and tables after commit or rollback are those of the specified import; a read-only store refuses |
| `SqliteStore.SQLiteStore.SetCoverage` | src/sqlite-store.js:640-657 | one coverage row is replaced, stamped with the revision read before; malformed input and a read-only store change nothing |
| `SqliteStore.SQLiteStore.FindAliasReleases` | src/sqlite-store.js:778-798 | with the request normalised, the lookup in chunks gives the specified envelope or error |
| `SqliteStore.SQLiteStore.FindChunks` | src/sqlite-store.js:783-796 | the loop over chunks of 900 ids, parsing rows as it goes, is the specified lookup |
| `SqliteStore.SQLiteStore.ExportSnapshot` | src/sqlite-store.js:691-716 | the loops over rows and declarations give the specified export or its error |
| `MemoryStore.MemoryStore.PutEntry` | src/memory-store.js:54-70 | an entry is stored once; another representation under its id is a conflict and changes nothing |
| `MemoryStore.MatchesExactly` | src/memory-store.js:84-120 | the three filters, member by member of an object's payload |
| `MemoryStore.MemoryStore.Find` | src/memory-store.js:84-132 | the filter loop finds exactly the records that match, in strictly increasing id order, with the completeness of the method |
| `Refinement.ParseRowsExactly` | src/sqlite-store.js:337-365 | rows parse exactly when all of them are indexable, and then to the stored objects in order |
| `Refinement.IndexableExactly` | src/sqlite-store.js:225-247 | an object is indexable exactly when the type in its payload is well-formed and so is what that type is looked up by; other types, other members and objects without a payload do not matter |
| `Refinement.SortListed` | src/sqlite-store.js:412-423 | the envelope's re-sort turns any listing without repetition into the sorted one |
| `Refinement.ChunksExactly` | src/sqlite-store.js:783-796 | looking ids up 900 at a time loses nothing and finds nothing twice |
| `Refinement.FindRefines` | src/sqlite-store.js:761-821 | a discovery read gives the memory store's objects in its order: for releases always, for communes exactly unless the context's own object has ill-formed indexed text, for bindings exactly unless an alias of the context turns into the one asked for only as UTF-8, or is the one asked for and ill-formed |
| `Refinement.WellFormedIsFaithful` | src/sqlite-store.js:225-247 | so a binding lookup agrees where the alias asked for and those of the context are well-formed |
| `Refinement.GetObjectRefines` | src/sqlite-store.js:752-759 | getObject refuses an id that is not canonical, finds nothing under one that is not stored, and gives the stored object exactly when it is indexable |
| `ReadRuns.SameObjects` | src/sqlite-store.js:593-638 | after any run of imports, appends and coverage writes the store holds what a memory store holds after the same all-or-nothing puts |
| `ReadRuns.ReadsRefineMemory` | src/sqlite-store.js:752-821 | after any run getObject and the three discovery reads answer as that memory store does: releases always, the others exactly under the condition of `Refinement.FindRefines` |
| `CoverageRuns.StepKeeps` | src/sqlite-store.js:593-657 | every event keeps the tables valid; while the revision stays, so do the objects |
| `CoverageRuns.RunKeeps` | src/sqlite-store.js:593-657 | in every reachable state no coverage row carries a revision above the data revision, and columns are those derived from the stored objects |
| `CoverageRuns.CoverageSound` | src/sqlite-store.js:367-381 | with setCoverage in two steps between other writers: a scope reported complete was declared complete at the current revision, and since the declaration read it, or its import committed, the objects have not changed |
| `CoverageRuns.CompleteExactly` | src/sqlite-store.js:367-381 | a scope is reported complete exactly when the last write of its row since the table was last replaced or emptied declares it complete at the current revision |
| `CandidateStore.PublishIsAppend` | relay-v1/packages/relay-local/src/sqlite-candidate-store.js:45-49 | publishing is the append of the normalised candidates, which the store takes as they are |
| `CandidateStore.ParseCoverageExactly` | src/sqlite-store.js:699-704 | every stored row parses, and the export keeps in order exactly the declarations of the current revision |
| `CandidateStore.ExportExactly` | src/sqlite-store.js:691-716 | an export succeeds exactly when every object is indexable; it holds every object and every current declaration in normal form, and passes the Relay's normalisation unchanged |
| `CandidateStore.RestoreIsImport` | relay-v1/packages/relay-local/src/sqlite-candidate-store.js:55-67 | restoring a normal snapshot imports its entries and coverage as they are |
| `CandidateStore.SameTablesSameReads` | src/sqlite-store.js:440-546 | every object read, discovery read and page depends only on rows, metadata and current declarations |
| `CandidateStore.RestorePreserves` | relay-v1/packages/relay-local/src/sqlite-candidate-store.js:51-67 | export and replace-restore into any readable store preserves every object read, listing, page and complete answer, source and snapshot; only the revision is the target's, and the result is readable unless that was the largest safe integer |
| `CandidateStore.LoneSurrogateAlias` | src/sqlite-store.js:353-364 | published into a new store, a binding with a lone surrogate in its alias is accepted; getObject, the lookup of its alias and every export then fail, although a memory store has it |
| `SqliteCandidateStore.SQLiteCandidateStore.PublishImmutable` | relay-v1/packages/relay-local/src/sqlite-candidate-store.js:45-49 | normalising and then appending through the admin object has the specified result and effect; a read-only store refuses |
| `SqliteCandidateStore.SQLiteCandidateStore.ExportSnapshot` | relay-v1/packages/relay-local/src/sqlite-candidate-store.js:51-53 | over valid tables it succeeds exactly when the metadata are readable and all objects indexable, and then holds every object and every current declaration in normal form |
| `SqliteCandidateStore.SQLiteCandidateStore.RestoreSnapshot` | relay-v1/packages/relay-local/src/sqlite-candidate-store.js:55-67 | validating changes nothing, replacing has the specified result and effect, any other mode and a read-only store are refused |
| `Cursor.TokenParts` | relay-v1/apps/public-relay/src/cursor-codec.js:50-56 | a token splits at its dots into prefix, payload and signature |
| `Cursor.PayloadReadsBack` | relay-v1/apps/public-relay/src/cursor-codec.js:43-48 | the payload's fields read back with their types |
| `Cursor.EncodedPayloadReadsBack` | relay-v1/apps/public-relay/src/cursor-codec.js:43-67 | the payload survives canonical printing, UTF-8 and base64url |
| `Cursor.CursorRoundTrip` | relay-v1/apps/public-relay/src/cursor-codec.js:39-87 | a created cursor is accepted, for any route, query and times, exactly for its own route and the same query until its lifetime, in milliseconds, is over, and gives back its last id |
| `Cursor.AcceptedIsSigned` | relay-v1/apps/public-relay/src/cursor-codec.js:53-87 | any token is accepted exactly if it has three parts, the prefix, a payload of version 1 that reads member by member, the signature of that payload's own text, this route and query, and an expiry to come |
| `Cursor.LimitInRange` | relay-v1/apps/public-relay/src/cursor-codec.js:16-23 | an accepted limit is between 1 and the maximum |
| `Cursor.LimitExactly` | relay-v1/apps/public-relay/src/cursor-codec.js:16-23 | an absent or empty limit is the default; any other is accepted exactly if it is the plain decimal text of a safe number from 1 to the maximum |
| `Paging.QueryOfPermutation` | relay-v1/apps/public-relay/src/server.js:219-223 | the query of a release listing is the same for any order of its binding parameters |
| `Paging.ScopeExactly` | relay-v1/apps/public-relay/src/server.js:203-250 | a request is looked up with exactly its own parameters: its context and alias, the sorted set of its bindings, or its context, where they are there and the ids are canonical |
| `Paging.SelectedInOctetOrder` | src/sqlite-store.js:449-459 | ORDER BY and the cursor clause, by octets, agree with compareText on stored ids and positions |
| `Paging.FindPageExactly` | src/sqlite-store.js:425-546 | a page is refused exactly for a bad limit, position or number of bindings, or an unreadable row; it holds the next objects in order, and hasMore says whether any are left |
| `Paging.PositionReadsBack` | relay-v1/apps/public-relay/src/server.js:206-208 | presented with a request of the same route, context, alias or multiset of bindings, a cursor stands for its position until its lifetime is over; with any other request it is refused |
| `Paging.ServeExactly` | relay-v1/apps/public-relay/src/server.js:203-250 | a request is answered exactly for an acceptable limit, cursor and position over readable objects of the scope its parameters name, with that page, the source, snapshot and coverage of the store, and a cursor at its last object |
| `PageWalk.AppendGrows` | src/sqlite-store.js:617-638 | every append is growth: no stored object changes or goes |
| `PageWalk.WalkDelivers` | relay-v1/apps/public-relay/src/server.js:203-250 | while the store only grows, a walk for a request's own context, alias or bindings delivers strictly increasing ids, only stored and matching objects, and when finished every matching object that was there when it began |
| `PageWalk.WalkIsFind` | relay-v1/apps/public-relay/src/server.js:203-250 | on an unchanging store a finished walk, with any limits, has delivered page after page exactly the full result |
| `PageWalk.WalkEnds` | relay-v1/apps/public-relay/src/server.js:203-250 | a walk has at most one request more than there are objects to list |
| `PageWalk.WalkPages` | relay-v1/apps/public-relay/src/server.js:203-250 | with one limit throughout, a finished walk over n objects has made n / limit requests, rounded up, and one where there are none |
| `PageWalk.WalkStarts` | relay-v1/apps/public-relay/src/server.js:203-250 | where the full result can be read, the first request is answered exactly when it names at most 900 bindings |
| `PageWalk.WalkGoesOn` | relay-v1/apps/public-relay/src/cursor-codec.js:90-105 | until then its next request is answered exactly while the lifetime of its cursor lasts |
| `BlobStore.ReadStored` | relay-v1/packages/relay-local/src/filesystem-blob-store.js:78-96 | a file with the octets of an object's canonical text reads as that object |
| `BlobStore.ReadBlobExactly` | relay-v1/packages/relay-local/src/filesystem-blob-store.js:78-96 | a blob is absent exactly without its file and an object exactly if the file decodes to its canonical text; any other file is an integrity error |
| `BlobStore.WholeIsStored` | relay-v1/packages/relay-local/src/filesystem-blob-store.js:78-96 | a whole file holds the object it reads as |
| `BlobStore.PutSucceeds` | relay-v1/packages/relay-local/src/filesystem-blob-store.js:102-131 | a put succeeds exactly when the file of its id holds its representation in the end |
| `BlobStore.FileSystemBlobStore.PutIfAbsent` | relay-v1/packages/relay-local/src/filesystem-blob-store.js:98-140 | with others linking blobs in between, the first representation linked stays, the result compares with it, and no temporary file remains |
| `BlobStore.FileSystemBlobStore.LinkNew` | relay-v1/packages/relay-local/src/filesystem-blob-store.js:110-139 | write, link, compare when the name is taken, unlink: the directory gains at most this blob |
| `BlobStore.FileSystemBlobStore.RestoreBlobs` | relay-v1/packages/relay-local/src/filesystem-blob-store.js:174-178 | any list is normalised first; restoring succeeds exactly when every put has its representation in place at the end, and changes no blob that was there |
| `BlobStore.AllPutStored` | relay-v1/packages/relay-local/src/filesystem-blob-store.js:174-178 | over whole files that is exactly that all the blobs are stored |
| `BlobStore.FileSystemBlobStore.ExportBlobs` | relay-v1/packages/relay-local/src/filesystem-blob-store.js:146-172 | an id that is not canonical is refused; the loop reads each id once and in order, up to the first blob that is missing or unreadable |
| `BlobStore.ExportStored` | relay-v1/packages/relay-local/src/filesystem-blob-store.js:146-172 | stored entries are exported as they are |
| `RelayRuns.PutStepOk` | relay-v1/packages/relay-local/src/filesystem-blob-store.js:98-140 | each step of a put, the sync of the directory included, leaves blobs whole and unchanged, touches no other process's file, and ends in success only with its representation stored |
| `RelayRuns.AppendStepOk` | relay-v1/packages/relay-local/src/local-reference-relay.js:57-58 | with its blob stored, a candidate's append succeeds exactly in a readable store and keeps every candidate backed |
| `RelayRuns.ImportStepOk` | relay-v1/packages/relay-local/src/local-reference-relay.js:78-79 | with its blobs stored, a replacing import succeeds exactly in a readable store and keeps every candidate backed |
| `RelayRuns.ReadStepExactly` | relay-v1/packages/relay-local/src/local-reference-relay.js:62-66 | each read of an export finds its blob, and the archive made at the end is of the snapshot |
| `RelayRuns.StepKeeps` | relay-v1/packages/relay-local/src/local-reference-relay.js:53-81 | every step of every process, error and crash keeps the invariant of both stores |
| `RelayRuns.RunKeeps` | relay-v1/packages/relay-local/src/local-reference-relay.js:53-81 | it holds in every reachable state, and no blob that was ever visible changes or goes |
| `RelaySafety.CandidatesHaveBlobs` | relay-v1/packages/relay-local/src/local-reference-relay.js:53-81 | in every reachable state every candidate has a stored blob with the same representation |
| `RelaySafety.OrphanBlob` | relay-v1/packages/relay-local/src/local-reference-relay.js:57-58 | a crash after the link leaves a blob without a candidate |
| `RelaySafety.OneRepresentationOnly` | relay-v1/packages/relay-local/src/local-reference-relay.js:53-81 | over a whole run, destructive restores included, an id is never shown with two representations |
| `RelaySafety.PutsOfOneId` | relay-v1/packages/relay-local/src/filesystem-blob-store.js:98-140 | over any run, the object of every put that has succeeded, whatever its process has done since, is the one seen as the blob of its id at any time |
| `RelaySafety.ConflictingPutFails` | relay-v1/packages/relay-local/src/filesystem-blob-store.js:98-140 | while another object is the blob of its id, a put finds the conflict at every step that looks at the name, and never gets to its sync |
| `RelaySafety.UndisturbedLink` | relay-v1/packages/relay-local/src/filesystem-blob-store.js:110-117 | left alone, a put of an absent blob writes and links it |
| `RelaySafety.AppendNeverConflicts` | relay-v1/packages/relay-local/src/local-reference-relay.js:57-58 | after its put a publication never meets a conflict: the append succeeds in every readable store, adds the candidate and nothing else, counts it exactly if it was new and moves the revision with it |
| `RelaySafety.ExportIsASnapshot` | relay-v1/packages/relay-local/src/local-reference-relay.js:62-66 | every exported archive is what the candidate store held at one instant between the start and the end of that export, and verifies |
| `RelaySafety.ExportNeverMisses` | relay-v1/packages/relay-local/src/local-reference-relay.js:62-66 | whatever was published or restored since its snapshot, a running export goes on to its archive or rejects its export time |
| `RelayOutcomes.FinishedExactly` | relay-v1/packages/relay-local/src/local-reference-relay.js:53-81 | the step in which a process finishes does what it reports: a publication adds and counts its candidate, a replacing restore makes the archive's blobs the candidates, and a check, an export or a refusal leaves the candidates as they are |
| `RelayOutcomes.PublishBegins` | relay-v1/packages/relay-local/src/local-reference-relay.js:53-57 | a publication begins with its put, or is refused for its candidate or by the policy before anything is written |
| `RelayOutcomes.RestoreBegins` | relay-v1/packages/relay-local/src/local-reference-relay.js:68-78 | a value that presents an archive is only checked in mode validate and restored from its first blob on in mode replace; any other mode or value is refused |
| `RelayOutcomes.UndisturbedPublication` | relay-v1/packages/relay-local/src/local-reference-relay.js:57-58 | left alone, the publication of an object without a blob succeeds: the directory gains the blob and nothing else, its link is on disk, and the store gains the candidate and nothing else |
| `RelayOutcomes.StepTidy` | relay-v1/packages/relay-local/src/filesystem-blob-store.js:132-138 | every step and failure but a crash or a failed unlink of a put keeps every file a blob or the temporary file of a put under way |
| `RelayOutcomes.OnlyBlobsRemain` | relay-v1/packages/relay-local/src/filesystem-blob-store.js:132-138 | so in runs without these only blobs remain when no put is under way |
| `Durability.BlobSurvivesExactly` | relay-v1/packages/relay-local/src/filesystem-blob-store.js:116-117 | a candidate's blob survives every loss of power exactly when its link has been synced |
| `Durability.SoundAfterLoss` | relay-v1/packages/relay-local/src/local-reference-relay.js:53-81 | after a loss of power the invariant holds exactly when no candidate's link was lost |
| `Durability.StepDurable` | relay-v1/packages/relay-local/src/filesystem-blob-store.js:98-140 | every step keeps the links of candidates and of finished puts on disk, except an early return for a blob whose link is not |
| `Durability.CandidatesSurvive` | relay-v1/packages/relay-local/src/local-reference-relay.js:53-81 | in runs without such a return every candidate has its blob, after any number of losses of power |
| `Durability.EarlyReturnExactly` | relay-v1/packages/relay-local/src/filesystem-blob-store.js:102-109 | after an early return and its append, the stores survive every loss of power exactly when the link relied on was on disk |
| `Durability.LostBlob` | relay-v1/packages/relay-local/src/filesystem-blob-store.js:102-109 | a run in which a second publication succeeds on a link that is not synced, and a loss of power leaves its candidate without a blob |
| `Relay.LocalReferenceRelay.Publish` | relay-v1/packages/relay-local/src/local-reference-relay.js:53-60 | publishing keeps candidates backed, succeeds exactly when the blob is stored and the store writable and readable, adds just the candidate with a receipt that counts it exactly if it was new, and on failure leaves the candidates alone |
| `Relay.LocalReferenceRelay.ExportArchive` | relay-v1/packages/relay-local/src/local-reference-relay.js:62-66 | a missing or unreadable blob is the export's error; with candidates backed the archive is the snapshot's |
| `Relay.LocalReferenceRelay.RestoreArchive` | relay-v1/packages/relay-local/src/local-reference-relay.js:68-81 | a value that presents no archive is refused and leaves both stores alone; validation changes nothing; replacing succeeds exactly with all blobs stored in writable, readable stores, makes the archive's entries the candidates and reports the new revision and the counts, and on failure leaves the candidates alone |

## Left out

- Numbers: which double a lexeme denotes and how a double is printed; a number is its printed numeral, and reading is only assumed to be stable on printed numerals and exact on safe integers.
- JavaScript mechanics beyond a legal-node flag: getters, proxies, `toJSON` on a prototype, and how an object's insertion order comes about.
- Request fields that are not JSON: `undefined`, functions and the like in entries and options; a missing `replace`, `source` or `snapshot` of an import is an option of the request.
- Ill-formed octets: the number of U+FFFD that a decoder makes of them; no stored or signed text holds any.
- base64url input with padding: the reader here passes over every character outside the alphabet.
- `new Date(text)` on texts outside the pattern of export times, which is tested first; within it, a text is accepted if some time value is printed as it.
- Envelope versions, provenance and warnings: constants and copies of fields the envelope here has.
- `CursorCodec` with a clock outside the ECMAScript range, secrets under 32 bytes and signature comparison in constant time.
- Interleaved statements of the plain discovery reads: each is taken at one instant, as a single connection gives it; page reads and exports are transactions.
- The SQLite engine: opening, migration, WAL, busy time-outs, backup and `verifyIntegrity`; an error of the database in the protocol machine leaves it unchanged.
- Loss of power beyond directory entries: blob content is synced before its link and the database commits durably, and a temporary file whose removal was not synced does not come back.
- File modes, and Windows, where directories are not synced.
- `exportBlobs` without ids and the blob store's own integrity check, which list the directory.
- Blob puts of the class `FileSystemBlobStore` run to their end; partial writes, I/O errors and crashes are in the step machine.
- Issue, expiry and revocation of capabilities, and the publication policy: an arbitrary refusal before the blob write.
- The HTTP server apart from the three discovery routes: headers, status codes, size limits, request bodies.
- `resolveAlias` and the adapter around it: it rests on an external library.
