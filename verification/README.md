# Verified models of swift-tor's containers, codecs and control protocol

This project models, in Dafny, four cores of swift-tor and the Tor library it embeds, and proves what
they promise. `dafny verify dfyconfig.toml` checks everything.

**The hash table of `ht.h`.** `Links` holds nodes that carry their own link and cached hash, and the edits
made through the address of a link (the head of a bucket or the link field of a predecessor). `Chains` is the
abstract shape, one sequence of nodes per bucket. `Rehash` has both ways a growing table moves its nodes; in
the second one, after a reallocation, a moved node may land in a bucket that is still to be swept. `Growth`
is the arithmetic of the prime sizes. `HashTable.Table` is the head with all its operations, `HashIteration`
the loops that may remove what they visit, `HashCheck` the table's own self-check, and `HashRuns` whole runs
of operations against a finite map.

**The queues of `tor_queue.h`.** `TailQueue.Cell` is a head or an entry alike, since both are a forward link
and the address of a link; this is what the LAST and PREV macros rely on. `CircleQueue` is the circular kind.

**The Trunnel codecs.** `Wire` and `Buffer` hold what they share: big-endian integers, the three verdicts of
a parser (consumed and object, truncated, invalid), counted lists, bounded writing and back-patching. On top
are `LinkSpecifier`, `CellBodies` (create2, link specifier list, extend2), `CertExtension`, `Ed25519Cert`,
`CertsCell`, `TrnExtension`, `Netinfo`, `Sendme`, `PwBox`, `Socks5` and `Socks4`. In each, `Parse` and
`Bytes` are the format as two functions; `Encode` and `ParseInto` are the code, with its cursor, narrowed
remainder and patched length fields, proved to compute them; and the lemmas say that the two are inverse,
that a verdict never changes when bytes are appended, that every strict prefix of an encoding is "truncated",
and what is lost where a format skips data. `Layout` says without either function where each field is, by byte
position and weight, in what is written and in what is accepted, and further lemmas which inputs are refused. A
buffer is never written outside the room given for it.

**The control protocol.** `ControlSocket` frames lines over `recv` and assembles replies, `ControlReply`
parses them and renders them, `ControlAttributes` scans `KEY=value` and `KEY="escaped value"` pairs. Strings
are sequences of ASCII characters. `SipHash` is the keyed hash of `csiphash.c`, streamed and as one fold.

What the callers of `ht.h` owe is stated as `requires`: the comparison is an equivalence that implies equal
hashes, keys of stored nodes do not change, a node given to INSERT or REPLACE is not stored already, one given
to INSERT has no equal in the table, and one given to REPLACE has a null link unless it displaces another (the
append path never sets it). A growth that fails for want of memory is ignored by the code, and the results hold
through it, except that the table may then exceed its load limit; only the very first growth has to succeed,
since an empty head has no bucket to use. The load factor 0.6 is `3 * len / 5`: no listed prime is a multiple of
5, so truncation after multiplying gives the same number.

Two places where the code differs from what is written about it:

* `parseAttributes` is documented to drop keys that contain whitespace. Only a space ends a key: a key is dropped
  exactly when it contains a space (`ControlAttributes.KeyKeptExactly`), and one with a tab in it is kept
  (`ControlAttributes.TabInKey`). A pair `KEY=` with nothing after it is stored with an empty value, except at the
  end of the line, where it is dropped (`ControlAttributes.EmptyValueAtTheEnd`).
* The search loop of HT_GROW lets its index reach the length of the prime table, and then reads one entry past
  it, exactly when the size asked for is at least the last load limit (`Growth.LooksPastTheEndExactly`; for
  example 241591913 on an empty head, `Growth.LooksPastTheEnd`). Nothing outside ht.h calls HT_GROW, and while
  its growths succeed a table never asks for that (`HashTable.Table.ValidCanAdd`), so it takes a direct call, or
  growths that keep failing until that many elements are stored.

A reader that times out in the middle of a reply has already taken lines off the stream; they are lost, and
the next call starts inside that reply. The contract of `ControlSocket.Socket.ReadReply` says so.

## Model

| member | source | states |
|---|---|---|
| `Rehash.RehashInPlace` | Sources/libtor/src/ext/ht.h:475-495 | the sweep over a reallocated table ends with every node in the bucket whose number is its hash modulo the length, and in no other; the relinked nodes are exactly those whose bucket changes, each relinked once, although moved nodes may be met again |
| `Rehash.SweepBucket` | Sources/libtor/src/ext/ht.h:481-493 | the inner loop over one old bucket terminates and keeps the sweep invariant |
| `Rehash.SweepDone` | Sources/libtor/src/ext/ht.h:481-495 | a finished sweep has placed every node by hash and moved exactly the misplaced ones |
| `Rehash.RehashFresh` | Sources/libtor/src/ext/ht.h:457-474 | moving every node to a fresh table relinks each once and leaves each in the bucket its hash gives modulo the length |
| `Rehash.Rehash` | Sources/libtor/src/ext/ht.h:457-495 | either branch gives the same placement; the number of relinked nodes is that of all nodes, or of those whose bucket changes |
| `Rehash.SameBuckets` | Sources/libtor/src/ext/ht.h:457-495 | bucket by bucket the two branches hold the same set of nodes |
| `Links.Unlink` | Sources/libtor/src/ext/ht.h:325-326 | rewriting the one link to a node leaves the other chains and the rest of its own linked |
| `Links.UnlinkOverwritten` | Sources/libtor/src/ext/ht.h:346-351 | the same when the node itself was overwritten first, its successor having been read before |
| `Links.Push` | Sources/libtor/src/ext/ht.h:287-290 | pushing onto the front of a bucket keeps all chains linked |
| `Links.Displace` | Sources/libtor/src/ext/ht.h:304-309 | an element takes over the place and successor of another, whose link becomes null |
| `Links.Append` | Sources/libtor/src/ext/ht.h:304-305 | writing the final null link of a bucket appends |
| `Links.FindSlot` | Sources/libtor/src/ext/ht.h:259-265 | the loop finds the link to the first equal element of the bucket, or its final null link when there is none |
| `Links.BucketNumIs` | Sources/libtor/src/ext/ht.h:217 | a hash is a whole number of turns around the table and then the number of its bucket |
| `Links.LinkedHashed` | Sources/libtor/src/ext/ht.h:216-217 | where nodes are linked by bucket number, bucket `b` holds exactly the nodes whose hash leaves the remainder `b` |
| `Growth.PrimesAreGood` | Sources/libtor/src/ext/ht.h:425-437 | the listed primes rise with their load limits, fit 32 bits, and reaching each size moves at most 3 nodes for each one of the limit before it |
| `Growth.LoadLimitIs` | Sources/libtor/src/ext/ht.h:454 | the load limit is three fifths of the length, rounded down |
| `Growth.OneStep` | Sources/libtor/src/ext/ht.h:447-456 | growing for one element more than the limit stops at the very next prime |
| `Growth.LooksPastTheEndExactly` | Sources/libtor/src/ext/ht.h:452-456 | the search loop reads past the prime table if and only if the size is not below the last load limit |
| `Growth.LooksPastTheEnd` | Sources/libtor/src/ext/ht.h:452-456 | an input for which it does |
| `Growth.PaidAdd` | Sources/libtor/src/ext/ht.h:280-314 | an added element, with or without a growth at the limit, keeps the account of moves |
| `Growth.PaidBound` | Sources/libtor/src/ext/ht.h:442-500 | when no growth fails, moves are at most 3 times, and at most 56 more than twice, the elements added |
| `Growth.CoveredGrow` | Sources/libtor/src/ext/ht.h:442-500 | a growth that comes late, after others failed, keeps the wider account |
| `Growth.CoveredBound` | Sources/libtor/src/ext/ht.h:442-500 | even when growths fail and come late, moves are at most 4 times the elements added |
| `HashTable.Lookup` | Sources/libtor/src/ext/ht.h:267-278 | the finite map a table stands for: the stored element equal to a key, or null exactly when there is none |
| `HashTable.Table.constructor` | Sources/libtor/src/ext/ht.h:115-116 | an initialized head is a valid empty table over the listed primes |
| `HashTable.Table.NextSize` | Sources/libtor/src/ext/ht.h:451-456 | the search loop finds the first larger size whose limit exceeds the request, and leaves the prime table exactly when the request is not below the last limit |
| `HashTable.Table.Grow` | Sources/libtor/src/ext/ht.h:441-500 | growth keeps the stored elements and their links sound, changes nothing when not due or when both allocations fail, and otherwise makes room, relinking as many elements as the branch taken must; the result code says which, and going beyond the sizes is told exactly |
| `HashTable.Table.FindP` | Sources/libtor/src/ext/ht.h:253-266 | the link found leads to the map's answer; it is null exactly before the first growth |
| `HashTable.Table.Find` | Sources/libtor/src/ext/ht.h:269-277 | FIND returns the map's answer and only refreshes the probe's hash |
| `HashTable.Table.MakeRoom` | Sources/libtor/src/ext/ht.h:284-285 | a growth happens exactly when due and the memory is there; it stays inside the primes and relinks the elements its branch must, at most all of them |
| `HashTable.Table.OneSizeUp` | Sources/libtor/src/ext/ht.h:284-285 | a growth of a valid table advances exactly one prime |
| `HashTable.Table.PlacedByHash` | Sources/libtor/src/ext/ht.h:216-217 | in every state the operations reach, bucket `b` holds exactly the stored elements whose hash leaves the remainder `b` |
| `HashTable.Table.ValidCanAdd` | Sources/libtor/src/ext/ht.h:284-285 | a valid table never asks for a size beyond the primes |
| `HashTable.Table.Insert` | Sources/libtor/src/ext/ht.h:280-291 | INSERT adds exactly its element, even when a growth fails; otherwise it keeps the load limit and grows at most one size; both accounts are kept |
| `HashTable.Table.Replace` | Sources/libtor/src/ext/ht.h:295-315 | REPLACE returns exactly the displaced equal element, with a null link, or null, and stores the new one |
| `HashTable.Table.Remove` | Sources/libtor/src/ext/ht.h:317-330 | REMOVE returns and removes exactly the equal element, with a null link, or changes nothing |
| `HashTable.Table.Clear` | Sources/libtor/src/ext/ht.h:503-510 | CLEAR leaves a valid empty table |
| `HashTable.Table.Init` | Sources/libtor/src/ext/ht.h:244-250 | INIT sets every field of the head |
| `HashTable.Table.MovedBound` | Sources/libtor/src/ext/ht.h:441-500 | all growths together relinked at most 3 nodes per node added, or 4 where growths failed |
| `HashIteration.Start` | Sources/libtor/src/ext/ht.h:361-374 | START finds the first element in bucket order, with everything ahead of it |
| `HashIteration.Next` | Sources/libtor/src/ext/ht.h:381-402 | NEXT passes exactly the current element |
| `HashIteration.NextRmv` | Sources/libtor/src/ext/ht.h:403-420 | NEXT_RMV removes exactly the current element and stands at what was ahead of it |
| `HashIteration.VisitAll` | Sources/libtor/src/ext/ht.h:361-420 | a loop that picks NEXT or NEXT_RMV at each element meets every element once, in ascending order of hash modulo the length, and leaves exactly the kept ones |
| `HashIteration.ForeachFn` | Sources/libtor/src/ext/ht.h:335-357 | the callback sees every element once, in order, with its data threaded through; exactly those it rejects leave, whatever it writes into them |
| `HashIteration.VisitOrder` | Sources/libtor/src/ext/ht.h:361-402 | bucket order lists each stored element exactly once |
| `HashIteration.VisitAscends` | Sources/libtor/src/ext/ht.h:361-402 | bucket order is ascending in the hash modulo the length |
| `HashIteration.FoldMore` | Sources/libtor/src/ext/ht.h:335-357 | an element more means one more call of the callback, with the data of those before it, and is removed exactly if that call asks for it |
| `HashCheck.RepIsBad` | Sources/libtor/src/ext/ht.h:513-546 | the self-check returns 0 exactly on consistent heads, and otherwise the code of the first thing wrong, 1000 or 10000 plus the bucket of the first bad node included |
| `HashCheck.OperationsPassCheck` | Sources/libtor/src/ext/ht.h:513-546 | after any operations the check passes if and only if the count is within the load limit, hence always below the last prime while no growth fails |
| `HashCheck.CheckIsSound` | Sources/libtor/src/ext/ht.h:535-545 | whatever passes the check is linked by hash, cached hashes and count included |
| `HashCheck.ChainNoRepeats` | Sources/libtor/src/ext/ht.h:535-541 | a chain that ends in null never returns to a node, so the check's walk ends |
| `HashRuns.Step` | Sources/libtor/src/ext/ht.h:253-330 | each operation answers and changes the stored set as the finite map says |
| `HashRuns.Run` | Sources/libtor/src/ext/ht.h:253-330 | any legal run, whichever later growths fail, returns the map's answers and stays sound, moving at most 4 nodes per node added, of which there is at most one for each operation; with no failure it ends valid and moves at most 3 |
| `HashRuns.LookupNext` | Sources/libtor/src/ext/ht.h:253-330 | INSERT and REPLACE bind the class of their key, REMOVE unbinds it, and no other class changes |
| `TailQueue.Queue.InsertHead` | Sources/libtor/src/ext/tor_queue.h:388-396 | keeps the ring of links and prepends |
| `TailQueue.Queue.InsertTail` | Sources/libtor/src/ext/tor_queue.h:398-403 | keeps the ring of links and appends |
| `TailQueue.Queue.InsertAfter` | Sources/libtor/src/ext/tor_queue.h:405-413 | keeps the ring of links and inserts after the given entry |
| `TailQueue.Queue.InsertBefore` | Sources/libtor/src/ext/tor_queue.h:415-420 | keeps the ring of links and inserts before the given entry, without reading the head |
| `TailQueue.Queue.Remove` | Sources/libtor/src/ext/tor_queue.h:422-431 | keeps the ring of links and removes exactly the entry |
| `TailQueue.Queue.Replace` | Sources/libtor/src/ext/tor_queue.h:433-443 | keeps the ring of links and puts one entry in another's place |
| `TailQueue.Queue.constructor` | Sources/libtor/src/ext/tor_queue.h:383-386 | an initialized head is an empty queue |
| `TailQueue.Queue.Last` | Sources/libtor/src/ext/tor_queue.h:348-349 | reading an entry as a head gives the true last entry, or null |
| `TailQueue.Queue.Prev` | Sources/libtor/src/ext/tor_queue.h:351-352 | reading an entry as a head gives the true predecessor, or null at the first |
| `TailQueue.RingSpliced` | Sources/libtor/src/ext/tor_queue.h:388-420 | the four links every insertion sets restore the invariant |
| `TailQueue.RingCut` | Sources/libtor/src/ext/tor_queue.h:422-431 | the two links REMOVE sets restore the invariant |
| `TailQueue.ForeachSafe` | Sources/libtor/src/ext/tor_queue.h:362-366 | a body that removes the current entry still visits all entries in order, and exactly the others stay |
| `TailQueue.ForeachReverseSafe` | Sources/libtor/src/ext/tor_queue.h:374-378 | the same from last to first, entry by entry |
| `CircleQueue.Queue.InsertAfter` | Sources/libtor/src/ext/tor_queue.h:505-513 | keeps the circle, both ways, and inserts after the given entry |
| `CircleQueue.Queue.InsertBefore` | Sources/libtor/src/ext/tor_queue.h:515-523 | keeps the circle and inserts before the given entry |
| `CircleQueue.Queue.InsertHead` | Sources/libtor/src/ext/tor_queue.h:525-533 | keeps the circle and prepends, the empty queue told by its last entry |
| `CircleQueue.Queue.InsertTail` | Sources/libtor/src/ext/tor_queue.h:535-543 | keeps the circle and appends, the empty queue told by its first entry |
| `CircleQueue.Queue.Remove` | Sources/libtor/src/ext/tor_queue.h:545-558 | keeps the circle and removes exactly the entry |
| `Wire.ManyStable` | Sources/libtor/src/trunnel/ed25519_cert.c:2676-2688 | appending bytes changes neither verdict nor objects of a counted list |
| `Wire.ManyCanonical` | Sources/libtor/src/trunnel/ed25519_cert.c:2676-2688 | an accepted list re-encodes to the bytes consumed |
| `Wire.ManyRoundTrips` | Sources/libtor/src/trunnel/ed25519_cert.c:2676-2688 | parsing undoes the encoding of a list under any trailing bytes |
| `Wire.BigEndian16` | Sources/libtor/src/trunnel/ed25519_cert.c:639 | two-byte fields are the first byte times 256 plus the second, in both directions |
| `Wire.BigEndian32` | Sources/libtor/src/trunnel/ed25519_cert.c:2021 | four-byte fields are the sum of their bytes by weight, most significant first, in both directions |
| `Wire.ManyLaidOut` | Sources/libtor/src/trunnel/ed25519_cert.c:2596-2698 | in the encoding of a list the elements lie one after the other, each where its own layout says |
| `Wire.ManyFailsAt` | Sources/libtor/src/trunnel/ed25519_cert.c:2676-2688 | a list of which one element fails after good ones fails with that verdict |
| `Wire.ManyFirstFailure` | Sources/libtor/src/trunnel/ed25519_cert.c:2676-2688 | a list that fails has a first element that does, and its verdict |
| `Wire.ManyResultExactly` | Sources/libtor/src/trunnel/ed25519_cert.c:2625-2631 | writing a list succeeds exactly when every element fits its format and the total fits the buffer |
| `Wire.CountedStable` | Sources/libtor/src/trunnel/ed25519_cert.c:2661-2698 | a list behind its count byte: appending bytes changes no verdict but "truncated" |
| `Wire.CountedCanonical` | Sources/libtor/src/trunnel/ed25519_cert.c:2661-2698 | an accepted list has as many elements as its count says and re-encodes to the bytes consumed |
| `Wire.CountedRoundTrips` | Sources/libtor/src/trunnel/ed25519_cert.c:2596-2698 | parsing undoes the encoding of count and list under any trailing bytes |
| `Buffer.Emit` | Sources/libtor/src/trunnel/ed25519_cert.c:1349-1353 | one field is written exactly, or nothing is, and nothing outside the room given changes |
| `Buffer.Patch` | Sources/libtor/src/trunnel/ed25519_cert.c:1437-1444 | a back-patched length replaces exactly its own bytes |
| `LinkSpecifier.Encode` | Sources/libtor/src/trunnel/ed25519_cert.c:1328-1468 | returns the encoded length when it fits, -2 when there is no room, -1 for an arm too long for its length byte; writes the specified bytes and nothing else |
| `LinkSpecifier.ParseInto` | Sources/libtor/src/trunnel/ed25519_cert.c:1472-1564 | the narrowed cursor decides the format: an arm must fill its length exactly |
| `LinkSpecifier.BytesLaidOut` | Sources/libtor/src/trunnel/ed25519_cert.c:1328-1468 | bytes and fields of an encoding by position, in plain arithmetic: each field, its offset, its byte order and the lengths |
| `LinkSpecifier.ParsedLaidOut` | Sources/libtor/src/trunnel/ed25519_cert.c:1472-1564 | the same of whatever is accepted |
| `LinkSpecifier.VerdictsExactly` | Sources/libtor/src/trunnel/ed25519_cert.c:1472-1564 | which inputs are truncated and which invalid, from the kind and the length byte alone |
| `LinkSpecifier.OtherArmsBlank` | Sources/libtor/src/trunnel/ed25519_cert.c:1472-1564 | the arms the kind does not select are zero |
| `LinkSpecifier.ParseCanonicalAt` | Sources/libtor/src/trunnel/ed25519_cert.c:1472-1564 | an accepted specifier re-encodes to the bytes consumed, inactive arms blank |
| `LinkSpecifier.ParseUndoesBytes` | Sources/libtor/src/trunnel/ed25519_cert.c:1328-1564 | parse undoes encode, up to inactive arms and with the length field that was sent |
| `LinkSpecifier.Laws` | Sources/libtor/src/trunnel/ed25519_cert.c:1472-1564 | stable verdicts, canonical encodings and round trips |
| `LinkSpecifier.PrefixIsTruncated` | Sources/libtor/src/trunnel/ed25519_cert.c:1472-1564 | every strict prefix of an encoding is truncated |
| `CellBodies.EncodeCreate2` | Sources/libtor/src/trunnel/ed25519_cert.c:187-253 | -1 on a length mismatch, else -2 or the length, with exactly the specified bytes |
| `CellBodies.Create2RoundTrips` | Sources/libtor/src/trunnel/ed25519_cert.c:187-290 | parse undoes encode under any trailing bytes |
| `CellBodies.Create2Canonical` | Sources/libtor/src/trunnel/ed25519_cert.c:258-290 | an accepted body re-encodes to the bytes consumed |
| `CellBodies.Create2LaidOut` | Sources/libtor/src/trunnel/ed25519_cert.c:187-253 | bytes and fields of an encoding by position, in plain arithmetic: each field, its offset, its byte order and the lengths |
| `CellBodies.ParsedCreate2LaidOut` | Sources/libtor/src/trunnel/ed25519_cert.c:258-290 | the same of whatever is accepted |
| `CellBodies.Create2VerdictsExactly` | Sources/libtor/src/trunnel/ed25519_cert.c:258-290 | truncated exactly when bytes are missing, never invalid |
| `CellBodies.EncodeList` | Sources/libtor/src/trunnel/ed25519_cert.c:2596-2658 | the result is the first failure or the total, with exactly the specified bytes |
| `CellBodies.ListCanonical` | Sources/libtor/src/trunnel/ed25519_cert.c:2661-2698 | an accepted list passes the check and re-encodes to the bytes consumed |
| `CellBodies.ListLaidOut` | Sources/libtor/src/trunnel/ed25519_cert.c:2596-2658 | the count, then the specifiers one after the other, each by byte position |
| `CellBodies.ParsedListLaidOut` | Sources/libtor/src/trunnel/ed25519_cert.c:2661-2698 | the same of whatever is accepted |
| `CellBodies.ListVerdictsExactly` | Sources/libtor/src/trunnel/ed25519_cert.c:2661-2698 | a list is invalid exactly when a specifier is, after specifiers that are not |
| `CellBodies.ListUndoesBytes` | Sources/libtor/src/trunnel/ed25519_cert.c:2596-2698 | parse undoes every encoding there can be, up to inactive arms and length fields |
| `CellBodies.ListPrefixIsTruncated` | Sources/libtor/src/trunnel/ed25519_cert.c:2661-2698 | every strict prefix of an encoding is truncated |
| `CellBodies.EncodeListExactly` | Sources/libtor/src/trunnel/ed25519_cert.c:2596-2658 | encoding succeeds exactly when every arm fits its length byte and the buffer is long enough |
| `CellBodies.EncodeExtend2` | Sources/libtor/src/trunnel/ed25519_cert.c:2292-2359 | nested encoders continue where the caller stopped; nothing outside the room given changes |
| `CellBodies.ParseExtend2Into` | Sources/libtor/src/trunnel/ed25519_cert.c:2364-2408 | computes the composed format, relaying nested verdicts |
| `CellBodies.Extend2Stable` | Sources/libtor/src/trunnel/ed25519_cert.c:2364-2408 | appending bytes changes no verdict but "truncated" |
| `CellBodies.Extend2Canonical` | Sources/libtor/src/trunnel/ed25519_cert.c:2364-2408 | an accepted body passes the check and re-encodes to the bytes consumed, lengths included |
| `CellBodies.Extend2LaidOut` | Sources/libtor/src/trunnel/ed25519_cert.c:2292-2359 | the list, then the create2 body, by byte position |
| `CellBodies.ParsedExtend2LaidOut` | Sources/libtor/src/trunnel/ed25519_cert.c:2364-2408 | the same of whatever is accepted |
| `CellBodies.Extend2InvalidExactly` | Sources/libtor/src/trunnel/ed25519_cert.c:2364-2408 | only a specifier can make the body invalid |
| `CellBodies.Extend2UndoesBytes` | Sources/libtor/src/trunnel/ed25519_cert.c:2292-2408 | parse undoes every encoding there can be, up to inactive arms and length fields |
| `CellBodies.Extend2PrefixIsTruncated` | Sources/libtor/src/trunnel/ed25519_cert.c:2364-2408 | every strict prefix of an encoding is truncated |
| `CellBodies.EncodeExtend2Exactly` | Sources/libtor/src/trunnel/ed25519_cert.c:2292-2359 | encoding succeeds exactly when every arm fits its length byte and the buffer is long enough |
| `CellBodies.Extend2LenAtMost` | Sources/libtor/src/trunnel/ed25519_cert.c:2260-2284 | no encodable body is longer than 131075 bytes |
| `CertExtension.Encode` | Sources/libtor/src/trunnel/ed25519_cert.c:521-625 | as for link specifiers, behind a two-byte length |
| `CertExtension.BytesLaidOut` | Sources/libtor/src/trunnel/ed25519_cert.c:521-625 | bytes and fields of an encoding by position, in plain arithmetic: each field, its offset, its byte order and the lengths |
| `CertExtension.ParsedLaidOut` | Sources/libtor/src/trunnel/ed25519_cert.c:629-692 | the same of whatever is accepted |
| `CertExtension.VerdictsExactly` | Sources/libtor/src/trunnel/ed25519_cert.c:629-692 | which inputs are truncated and which invalid, from the type and the two length bytes alone |
| `CertExtension.OtherArmBlank` | Sources/libtor/src/trunnel/ed25519_cert.c:629-692 | the arm the type does not select is zero |
| `CertExtension.ParseCanonicalAt` | Sources/libtor/src/trunnel/ed25519_cert.c:629-692 | an accepted extension re-encodes to the bytes consumed |
| `CertExtension.ParseUndoesBytes` | Sources/libtor/src/trunnel/ed25519_cert.c:521-692 | parse undoes encode, up to the inactive arm and the length field |
| `CertExtension.Laws` | Sources/libtor/src/trunnel/ed25519_cert.c:629-692 | stable verdicts, canonical encodings and round trips |
| `Ed25519Cert.Encode` | Sources/libtor/src/trunnel/ed25519_cert.c:1893-1995 | the result and exactly the bytes of header, extensions and signature, each field at its position; the expiration is four bytes, most significant first |
| `Ed25519Cert.ParseInto` | Sources/libtor/src/trunnel/ed25519_cert.c:1999-2071 | a wrong version is reported first, list verdicts are relayed; each field of what is accepted is read from its position, the expiration as the big-endian word at 2 |
| `Ed25519Cert.BytesLaidOut` | Sources/libtor/src/trunnel/ed25519_cert.c:1893-1995 | bytes and fields of an encoding by position, in plain arithmetic: each field, its offset, its byte order and the lengths |
| `Ed25519Cert.ParsedLaidOut` | Sources/libtor/src/trunnel/ed25519_cert.c:1999-2071 | the same of whatever is accepted |
| `Ed25519Cert.InvalidExactly` | Sources/libtor/src/trunnel/ed25519_cert.c:1999-2071 | invalid is exactly a version other than 1, or an invalid extension after good ones |
| `Ed25519Cert.ParseStable` | Sources/libtor/src/trunnel/ed25519_cert.c:1999-2071 | appending bytes changes no verdict but "truncated" |
| `Ed25519Cert.ParseCanonical` | Sources/libtor/src/trunnel/ed25519_cert.c:1999-2071 | an accepted certificate passes the check and re-encodes to the bytes consumed |
| `Ed25519Cert.ParseUndoesBytes` | Sources/libtor/src/trunnel/ed25519_cert.c:1893-2071 | parse undoes every encoding there can be, up to inactive arms and length fields |
| `Ed25519Cert.PrefixIsTruncated` | Sources/libtor/src/trunnel/ed25519_cert.c:1999-2071 | every strict prefix of an encoding is truncated |
| `Ed25519Cert.EncodeExactly` | Sources/libtor/src/trunnel/ed25519_cert.c:1893-1995 | encoding succeeds exactly when every extension fits its length field and the buffer is long enough |
| `CertsCell.Encode` | Sources/libtor/src/trunnel/link_handshake.c:1945-2005 | -1 when a count disagrees, else -2 or the encoded length with exactly the specified bytes |
| `CertsCell.ParseInto` | Sources/libtor/src/trunnel/link_handshake.c:2009-2046 | the counted loop computes the format |
| `CertsCell.BytesLaidOut` | Sources/libtor/src/trunnel/link_handshake.c:1945-2005 | bytes and fields of an encoding by position, in plain arithmetic: each field, its offset, its byte order and the lengths |
| `CertsCell.ParsedLaidOut` | Sources/libtor/src/trunnel/link_handshake.c:2009-2046 | the same of whatever is accepted |
| `CertsCell.NeverInvalid` | Sources/libtor/src/trunnel/link_handshake.c:2009-2046 | what is not accepted is truncated; a certificate is so exactly when bytes of it are missing |
| `CertsCell.ParseUndoesBytes` | Sources/libtor/src/trunnel/link_handshake.c:1945-2046 | parse undoes encode under any trailing bytes |
| `CertsCell.ParseCanonical` | Sources/libtor/src/trunnel/link_handshake.c:2009-2046 | an accepted cell passes the check and re-encodes to the bytes consumed |
| `CertsCell.ParseStable` | Sources/libtor/src/trunnel/link_handshake.c:2009-2046 | appending bytes changes no verdict but "truncated" |
| `CertsCell.PrefixIsTruncated` | Sources/libtor/src/trunnel/link_handshake.c:2009-2046 | every strict prefix of an encoding is truncated |
| `TrnExtension.Encode` | Sources/libtor/src/trunnel/extension.c:478-538 | -1 when a count disagrees, else -2 or the encoded length with exactly the specified bytes |
| `TrnExtension.ParseInto` | Sources/libtor/src/trunnel/extension.c:542-579 | the counted loop computes the format |
| `TrnExtension.BytesLaidOut` | Sources/libtor/src/trunnel/extension.c:478-538 | bytes and fields of an encoding by position, in plain arithmetic: each field, its offset, its byte order and the lengths |
| `TrnExtension.ParsedLaidOut` | Sources/libtor/src/trunnel/extension.c:542-579 | the same of whatever is accepted |
| `TrnExtension.NeverInvalid` | Sources/libtor/src/trunnel/extension.c:542-579 | what is not accepted is truncated; a field is so exactly when bytes of it are missing |
| `TrnExtension.ParseUndoesBytes` | Sources/libtor/src/trunnel/extension.c:478-579 | parse undoes encode under any trailing bytes |
| `TrnExtension.ParseCanonical` | Sources/libtor/src/trunnel/extension.c:542-579 | an accepted extension passes the check and re-encodes to the bytes consumed |
| `TrnExtension.ParseStable` | Sources/libtor/src/trunnel/extension.c:542-579 | appending bytes changes no verdict but "truncated" |
| `TrnExtension.PrefixIsTruncated` | Sources/libtor/src/trunnel/extension.c:542-579 | every strict prefix of an encoding is truncated |
| `Netinfo.AddrAccounts` | Sources/libtor/src/trunnel/netinfo.c:188-346 | an accepted address encodes to what was consumed, except that an unknown kind keeps its tag and gets length 0 |
| `Netinfo.EncodeAddr` | Sources/libtor/src/trunnel/netinfo.c:188-283 | -2 or the encoded length, with the length field of the bytes really written |
| `Netinfo.ParseAddrInto` | Sources/libtor/src/trunnel/netinfo.c:287-346 | known kinds must fill their length, unknown kinds are skipped |
| `Netinfo.AddrLaidOut` | Sources/libtor/src/trunnel/netinfo.c:188-283 | bytes and fields of an encoding by position, in plain arithmetic: each field, its offset, its byte order and the lengths |
| `Netinfo.ParsedAddrLaidOut` | Sources/libtor/src/trunnel/netinfo.c:287-346 | the same of whatever is accepted |
| `Netinfo.AddrVerdictsExactly` | Sources/libtor/src/trunnel/netinfo.c:287-346 | which addresses are truncated and which invalid, from the kind and the length byte alone |
| `Netinfo.OtherArmsBlank` | Sources/libtor/src/trunnel/netinfo.c:287-346 | the arms the kind does not select are zero |
| `Netinfo.Encode` | Sources/libtor/src/trunnel/netinfo.c:581-654 | -1 on a count mismatch, else -2 or the encoded length with exactly the specified bytes |
| `Netinfo.ParseInto` | Sources/libtor/src/trunnel/netinfo.c:659-708 | computes the cell format, relaying the verdicts of addresses |
| `Netinfo.BytesLaidOut` | Sources/libtor/src/trunnel/netinfo.c:581-654 | bytes and fields of an encoding by position, in plain arithmetic: each field, its offset, its byte order and the lengths |
| `Netinfo.ParsedLaidOut` | Sources/libtor/src/trunnel/netinfo.c:659-708 | the same of whatever is accepted |
| `Netinfo.InvalidExactly` | Sources/libtor/src/trunnel/netinfo.c:659-708 | a cell is invalid exactly when an address is, after addresses that are not |
| `Netinfo.ParseAccounts` | Sources/libtor/src/trunnel/netinfo.c:581-708 | re-encoding gives the input byte for byte, each address of unknown kind reduced to its tag and 0; the two are equal exactly when there is none |
| `Netinfo.NormalForm` | Sources/libtor/src/trunnel/netinfo.c:581-708 | parsing the re-encoding gives the same cell up to the lengths, and encoding that changes nothing |
| `Netinfo.ParseUndoesBytes` | Sources/libtor/src/trunnel/netinfo.c:581-708 | parse undoes encode, up to inactive arms and length fields |
| `Netinfo.ParseStable` | Sources/libtor/src/trunnel/netinfo.c:659-708 | appending bytes changes no verdict but "truncated" |
| `Netinfo.PrefixIsTruncated` | Sources/libtor/src/trunnel/netinfo.c:659-708 | every strict prefix of an encoding is truncated |
| `Sendme.Encode` | Sources/libtor/src/trunnel/sendme_cell.c:182-271 | -1 for an unknown version, else -2 or the encoded length, with the length of the bytes really written |
| `Sendme.ParseInto` | Sources/libtor/src/trunnel/sendme_cell.c:275-332 | the version is judged first; version 0 data is skipped, version 1 must be a digest |
| `Sendme.BytesLaidOut` | Sources/libtor/src/trunnel/sendme_cell.c:182-271 | bytes and fields of an encoding by position, in plain arithmetic: each field, its offset, its byte order and the lengths |
| `Sendme.ParsedLaidOut` | Sources/libtor/src/trunnel/sendme_cell.c:275-332 | the same of whatever is accepted |
| `Sendme.VerdictsExactly` | Sources/libtor/src/trunnel/sendme_cell.c:275-332 | which inputs are truncated and which invalid, byte by byte |
| `Sendme.OtherArmBlank` | Sources/libtor/src/trunnel/sendme_cell.c:275-332 | version 0 leaves the digest zero |
| `Sendme.ParseAccounts` | Sources/libtor/src/trunnel/sendme_cell.c:182-332 | consumed bytes are the encoding plus the skipped ones, and are the encoding exactly when none were |
| `Sendme.NormalForm` | Sources/libtor/src/trunnel/sendme_cell.c:182-332 | parsing the re-encoding gives the same cell up to its length, and encoding that changes nothing |
| `Sendme.ParseUndoesBytes` | Sources/libtor/src/trunnel/sendme_cell.c:182-332 | parse undoes encode, up to the inactive arm and the length field |
| `Sendme.ParseStable` | Sources/libtor/src/trunnel/sendme_cell.c:275-332 | appending bytes changes no verdict but "truncated" |
| `Sendme.PrefixIsTruncated` | Sources/libtor/src/trunnel/sendme_cell.c:275-332 | every strict prefix of an encoding is truncated |
| `PwBox.Encode` | Sources/libtor/src/trunnel/pwbox.c:357-470 | -1 only from the check made first: after `avail` shrinks, both later exits to the failed check are dead; never writes past the room given |
| `PwBox.ParseInto` | Sources/libtor/src/trunnel/pwbox.c:474-544 | the cursor with its reserved tail computes the format |
| `PwBox.BytesLaidOut` | Sources/libtor/src/trunnel/pwbox.c:357-470 | bytes and fields of an encoding by position, in plain arithmetic: each field, its offset, its byte order and the lengths |
| `PwBox.ParsedLaidOut` | Sources/libtor/src/trunnel/pwbox.c:474-544 | the same of whatever is accepted |
| `PwBox.InvalidExactly` | Sources/libtor/src/trunnel/pwbox.c:474-544 | invalid is exactly a wrong constant, each judged when its four bytes are there |
| `PwBox.ParseUndoesBytes` | Sources/libtor/src/trunnel/pwbox.c:357-544 | parsing exactly the encoding recovers every field |
| `PwBox.ParseCanonical` | Sources/libtor/src/trunnel/pwbox.c:474-544 | an accepted input is consumed whole, is its object's encoding, and has 57 + header_len bytes besides the data |
| `PwBox.ParseTakesAll` | Sources/libtor/src/trunnel/pwbox.c:474-544 | bytes after an encoding are taken for data: the format is delimited only by its input |
| `PwBox.PrefixIsTruncated` | Sources/libtor/src/trunnel/pwbox.c:474-544 | a prefix is truncated exactly when it cannot hold header and tail |
| `Socks5.Encode` | Sources/libtor/src/trunnel/socks5.c:3291-3406 | -1 for an object that fails the check, else -2 or the encoded length with exactly the specified bytes |
| `Socks5.ParseInto` | Sources/libtor/src/trunnel/socks5.c:3410-3493 | each constrained byte is judged as soon as it is there |
| `Socks5.BytesLaidOut` | Sources/libtor/src/trunnel/socks5.c:3291-3406 | bytes and fields of an encoding by position, in plain arithmetic: each field, its offset, its byte order and the lengths |
| `Socks5.ParsedLaidOut` | Sources/libtor/src/trunnel/socks5.c:3410-3493 | the same of whatever is accepted |
| `Socks5.OtherArmsBlank` | Sources/libtor/src/trunnel/socks5.c:3410-3493 | the arms the address type does not select are as in a fresh request |
| `Socks5.InvalidExactly` | Sources/libtor/src/trunnel/socks5.c:3417-3475 | exactly which inputs are invalid: the first four bytes decide, whatever follows |
| `Socks5.ParseUndoesBytes` | Sources/libtor/src/trunnel/socks5.c:3291-3493 | parse undoes encode, up to inactive arms, under any trailing bytes |
| `Socks5.ParseCanonical` | Sources/libtor/src/trunnel/socks5.c:3410-3493 | an accepted request passes the check and re-encodes to the bytes consumed |
| `Socks5.ParseStable` | Sources/libtor/src/trunnel/socks5.c:3410-3493 | appending bytes changes no verdict but "truncated" |
| `Socks5.PrefixIsTruncated` | Sources/libtor/src/trunnel/socks5.c:3410-3493 | every strict prefix of an encoding is truncated |
| `Socks5.EncodeDomain` | Sources/libtor/src/trunnel/socks5.c:187-246 | the nested length-prefixed name, or -1 for a missing or mismatched one |
| `Socks4.FirstZero` | Sources/libtor/src/trunnel/socks5.c:1377-1381 | the terminator found is the first one |
| `Socks4.Encode` | Sources/libtor/src/trunnel/socks5.c:984-1337 | -1 for an object that fails the check, else -2 or the encoded length with exactly the specified bytes |
| `Socks4.ParseInto` | Sources/libtor/src/trunnel/socks5.c:1342-1675 | terminated strings, the host name only behind addresses 1 to 255 |
| `Socks4.BytesLaidOut` | Sources/libtor/src/trunnel/socks5.c:984-1337 | bytes and fields of an encoding by position, in plain arithmetic: each field, its offset, its byte order and the lengths |
| `Socks4.ParsedLaidOut` | Sources/libtor/src/trunnel/socks5.c:1342-1675 | the same of whatever is accepted |
| `Socks4.InvalidExactly` | Sources/libtor/src/trunnel/socks5.c:1342-1675 | exactly which inputs are invalid: the first two bytes decide, whatever follows |
| `Socks4.ParseUndoesBytes` | Sources/libtor/src/trunnel/socks5.c:984-1675 | parse undoes encode, up to an inactive host name, under any trailing bytes |
| `Socks4.ParseCanonical` | Sources/libtor/src/trunnel/socks5.c:1342-1675 | an accepted request passes the check and re-encodes to the bytes consumed |
| `Socks4.ParseStable` | Sources/libtor/src/trunnel/socks5.c:1342-1675 | appending bytes changes no verdict but "truncated" |
| `Socks4.PrefixIsTruncated` | Sources/libtor/src/trunnel/socks5.c:1342-1675 | every strict prefix of an encoding is truncated |
| `ControlSocket.FirstCrlf` | Sources/Tor/Control/ControlSocket.swift:399-402 | the CRLF found is the first one |
| `ControlSocket.LinesAre` | Sources/Tor/Control/ControlSocket.swift:399-408 | a line is what stands before a carriage return followed by a line feed; without the pair there is no line |
| `ControlSocket.LinesAppend` | Sources/Tor/Control/ControlSocket.swift:277-325 | a stream can be split into lines in any portions, CR and LF in different ones included |
| `ControlSocket.SentLines` | Sources/Tor/Control/ControlSocket.swift:399-408 | lines and rest are together the whole stream |
| `ControlSocket.FramedLines` | Sources/Tor/Control/ControlSocket.swift:277-325 | in every state the returned lines begin the received stream's lines, and the buffer holds exactly what was not returned |
| `ControlSocket.SameStreamSameLines` | Sources/Tor/Control/ControlSocket.swift:277-325 | two sockets that heard the same stream, however chunked and interrupted, returned the same lines |
| `ControlSocket.Socket.ExtractLine` | Sources/Tor/Control/ControlSocket.swift:399-408 | takes exactly the first complete line and its CRLF off the buffer, or nothing |
| `ControlSocket.Socket.ReadLine` | Sources/Tor/Control/ControlSocket.swift:277-325 | returns the next line if one completes before the wait ends, else how it ended, withholding no complete line and losing no byte |
| `ControlSocket.Socket.ReadReply` | Sources/Tor/Control/ControlSocket.swift:344-391 | takes exactly one reply off the lines to come, or fails as the wait ends with no reply among them |
| `ControlSocket.OneReply` | Sources/Tor/Control/ControlSocket.swift:344-391 | lines begin with at most one reply, so what is read is determined |
| `ControlReply.ParseReply` | Sources/Tor/Control/ControlProtocolParser.swift:215-272 | the loop computes the fold over lines; the status code is the number the first three characters write; an error names the first line that is not well formed and what is wrong with it |
| `ControlReply.ParseExactly` | Sources/Tor/Control/ControlProtocolParser.swift:215-272 | accepted are exactly the nonempty sequences whose lines outside data blocks have an integer code and a known separator; "no status code" cannot happen |
| `ControlReply.IntOfThree` | Sources/Tor/Control/ControlProtocolParser.swift:243-250 | three characters are the number `n` exactly when they are its three digits, or a sign and two digits |
| `ControlReply.ParseStatusCode` | Sources/Tor/Control/ControlProtocolParser.swift:243-254 | of an accepted sequence the status code is the number its first line starts with |
| `ControlReply.ParseFails` | Sources/Tor/Control/ControlProtocolParser.swift:226-262 | a rejected sequence is rejected for its first bad line, with the error of that line |
| `ControlReply.ParseOne` | Sources/Tor/Control/ControlProtocolParser.swift:238-268 | the reply to one status line |
| `ControlReply.ParseNext` | Sources/Tor/Control/ControlProtocolParser.swift:238-268 | a further status line adds what follows its separator and nothing else |
| `ControlReply.ParseBlock` | Sources/Tor/Control/ControlProtocolParser.swift:226-236 | a data block adds nothing until it closes; then its lines, each without one leading dot, replace those of a block before it |
| `ControlReply.JoinedMore` | Sources/Tor/Control/ControlProtocolParser.swift:229 | joined lines have one line feed between any two of them |
| `ControlReply.MachinesAgree` | Sources/Tor/Control/ControlProtocolParser.swift:226-262 | on every prefix the reader has not completed, reader and parser agree on being inside a data block |
| `ControlReply.ReplyEndsOutside` | Sources/Tor/Control/ControlSocket.swift:344-391 | a reply handed over never ends inside a data block, and only its last status line may end it |
| `ControlReply.ParseUndoesRendering` | Sources/Tor/Control/ControlProtocolParser.swift:215-272 | the first status code, the contents in order, and the last data block unstuffed and joined by newlines are recovered |
| `ControlReply.RenderedIsReply` | Sources/Tor/Control/ControlSocket.swift:344-391 | a rendering is exactly one reply to the reader |
| `ControlReply.RenderedBytes` | Sources/Tor/Control/ControlSocket.swift:277-325 | the bytes of a rendering, followed by anything, come back as its lines first |
| `ControlReply.ReadAndParse` | Sources/Tor/Control/ControlSocket.swift:523-524 | reading then parsing recovers the rendered reply and leaves everything after it on the stream |
| `ControlAttributes.ParseAttributes` | Sources/Tor/Control/ControlProtocolParser.swift:478-554 | the nested loops terminate, always advancing, and compute the scan |
| `ControlAttributes.AttributesUndoPrinting` | Sources/Tor/Control/ControlProtocolParser.swift:478-554 | from any printed words, plain pairs and escaped pairs exactly the pairs are recovered, later ones over earlier ones |
| `ControlAttributes.QuotedEnds` | Sources/Tor/Control/ControlProtocolParser.swift:512-529 | on every string: a quoted value ends at a quote behind an even number of backslashes, and every quote inside has an odd number |
| `ControlAttributes.QuotedPair` | Sources/Tor/Control/ControlProtocolParser.swift:512-542 | a pair with any text between quotes that no quote inside ends, whatever its backslashes stand before, is scanned to exactly that text, unescaped, and the scan goes on behind it |
| `ControlAttributes.UnclosedPair` | Sources/Tor/Control/ControlProtocolParser.swift:512-542 | a value whose quote is never closed is the rest of the line, unescaped |
| `ControlAttributes.ScansStop` | Sources/Tor/Control/ControlProtocolParser.swift:486-552 | the scans over whitespace, a key and a plain value stop at the first character that ends them |
| `ControlAttributes.EmptyValueAtTheEnd` | Sources/Tor/Control/ControlProtocolParser.swift:503-508 | a last `KEY=` is dropped, so it is recovered if and only if it said nothing new |
| `ControlAttributes.KeyKeptExactly` | Sources/Tor/Control/ControlProtocolParser.swift:492-502 | a key, written before `=` and a plain value, is kept if and only if it contains no space |
| `ControlAttributes.KeysOfAnyLine` | Sources/Tor/Control/ControlProtocolParser.swift:478-554 | no key of any line holds a space or `=` or starts with whitespace |
| `ControlAttributes.TabInKey` | Sources/Tor/Control/ControlProtocolParser.swift:492-502 | the instance at odds with the documentation: a key with a tab in it is kept |
| `ControlAttributes.TwoReplacementsAreOnePass` | Sources/Tor/Control/ControlProtocolParser.swift:530-532 | the two successive replacements equal one unescaping pass, on every string |
| `ControlAttributes.UnescapingUndoesEscaping` | Sources/Tor/Control/ControlProtocolParser.swift:530-532 | unescaping undoes escaping |
| `ControlAttributes.Quoted` | Sources/Tor/Control/ControlProtocolParser.swift:512-532 | the loop stops at the first quote with an even number of backslashes before it, or at the end of the line, and the value is what one unescaping pass makes of the text before |
| `SipHash.SipHash24` | Sources/libtor/src/ext/csiphash.c:65-116 | block loop and fall-through tail equal one fold over the words of the padded message |
| `SipHash.Tail` | Sources/libtor/src/ext/csiphash.c:97-107 | the switch builds the last word from the bytes left, zeros and the length |
| `SipHash.FinishUndone` | Sources/libtor/src/ext/csiphash.c:112-115 | for every message and key: the result is the xor of four words, and two double rounds back from them is the state that absorbed the message, with 0xff xored into its third word |
| `SipHash.HashOfNothing` | Sources/libtor/src/ext/csiphash.c:65-116 | the published value for the empty message under the key 00 to 0f |
| `SipHash.HashOfFifteen` | Sources/libtor/src/ext/csiphash.c:65-116 | the published value for the bytes 00 to 0e, so a whole block and a tail, under that key |
| `SipHash.PaddedIs` | Sources/libtor/src/ext/csiphash.c:70-107 | the padding: the message, zeros, the length modulo 256 in the last byte of the first word with room for it |
| `SipHash.WordIs` | Sources/libtor/src/ext/csiphash.c:77-80 | words are little-endian, byte by byte |
| `SipHash.AbsorbUndone` | Sources/libtor/src/ext/csiphash.c:42-52 | for a fixed word, absorbing is a bijection on the 256-bit state |
| `SipHash.AbsorbAllInjective` | Sources/libtor/src/ext/csiphash.c:77-88 | different states stay different under the rest of any message |

## Left out

- HashTable.Table.Insert: requires that the first growth of an empty head gets memory (the code would divide by a length of 0), and that no growth is asked for a size beyond the last load limit (the code would read past its primes); both lead to undefined behaviour.
- HashTable.Table.Replace: the same; and replacing a node by itself while it is stored (the count is still incremented), or appending one whose link is not null, is excluded by the precondition.
- HashTable.Table: a table pointer of NULL is an array of length 0; freeing of tables is not modelled, and a table enlarged by reallocation is a fresh array with the old contents.
- HashTable: HT_FIND_OR_INSERT_, HT_MEM_USAGE and the variant without cached hashes are not modelled.
- HashIteration.ForeachFn: the callback is a function of element and data; it may overwrite the element it rejects, but not other elements or the table.
- TailQueue: SLIST, LIST and SIMPLEQ queues would only repeat simpler rings; the optional invalidation of removed entries is not modelled.
- CircleQueue: replacing an entry is left out, since its text takes fields of the head pointer with a dot.
- LinkSpecifier: allocation failure, object pointers that are NULL, the error flag that setters leave, and freeing are not modelled for any codec; struct objects are values with every union arm present, so aliasing between nested objects is not captured.
- LinkSpecifier: the parser allocates a fresh object; a parse into a used one is not modelled.
- Trunnel: auth_challenge_cell, rsa_ed_crosscert, auth1, extend1_cell_body, the remaining SOCKS messages, and the formats of conflux, congestion control, flow control and padding repeat patterns shown here.
- ControlSocket.Socket: the clock is a script of turns (a deadline that passes is a turn), and one caller at a time reads; matching replies to commands under concurrent callers is not modelled, and neither are writing, connecting and closing.
- ControlSocket.Socket.ExtractLine: a line that is not valid UTF-8, which the code removes and reports as absent, is not modelled; strings are ASCII, where Swift's characters are bytes except for a CRLF pair, which no line contains.
- ControlReply: the per-command decoders and the key-value accessor are not modelled.
- ControlReply.Int: integers too large for 64 bits are read as they are; status codes have three characters.
- SipHash: the global key and its flag are not modelled.
- TorClient, TorControlClient and the session layer (threads, sleeps, actors, command building) are not modelled.
