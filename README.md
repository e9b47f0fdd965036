# Certificate Transparency: log record codec, URL fetching and metrics

This project is a Dafny model of the parts of the certificate-transparency
C++ code base that carry sequential logic:

- **LogRecord** (`log_record.dfy`). The Merkle-tree log record codec:
  - big-endian fixed-width integers;
  - the length-prefixed `DigitallySigned` record;
  - `LogSegmentCheckpoint`, `LogHeadCheckpoint` and the segment-info record of `SegmentData`;
  - `AuditProof`.

  Each record is a datatype of its field values. Pure functions on that
  datatype specify `Serialize` and `Deserialize`, and the round trips and
  rejections are lemmas about those functions. A class with the same fields
  carries the methods, and each method is proved equal to its specification.
  `Deserialize` assigns fields one at a time and leaves the ones already
  assigned when it gives up, so each deserializer takes the fields' prior
  value.
- **Pool** (`connection_pool.dfy`). `internal::ConnectionPool`, which keeps
  idle evhtp connections in a deque per (host, port):
  - `Get` takes the newest connection;
  - `Put` appends to the back and queues at most one `Cleanup` on the event loop;
  - `Cleanup` trims every deque from the front.
- **Fetcher** (`url_fetcher.cc` → `url_fetcher.dfy`). The `UrlFetcher` logic
  around the HTTP exchange:
  - request normalisation;
  - the verb table;
  - the outgoing header list, with the injected `Content-Length`;
  - what a fetch's `State` does with its pooled connection, its response and its task on each outcome;
  - the text form of a `Response`.
- **LibEvent** (`libevent_wrapper.dfy`). The sequential part of
  `libevent::Base`:
  - the closure queue and its swap-and-run rounds;
  - the thread-local "on the event thread" flag that `Dispatch` and `DispatchOnce` save and restore;
  - the resolver, created once;
  - `Delay` timers and `Event::Add` timeouts.
- **Gauges** and **Counters** (`gauge.dfy`, `counter.dfy`).
  - `GCMGauge` holds a map from label tuples to values. `Get` reads 0 for a
    tuple never set, and `Set` overwrites.
  - `ExportText` writes one text line per entry. `Export` writes one Cloud
    Monitoring JSON block per entry.
  - `GCMCounter` owns a gauge. It increments by a read-modify-write of that
    gauge and exports exactly what the gauge exports.
- **Registries** (`registry.dfy`). The process-wide `Registry`:
  - a set of metrics with add and reset, and a snapshot of it;
  - export of every metric;
  - the HTML page with alternating row colours;
  - the `Instance` singleton.

Supporting modules:

- `Basics`: Option, decimal rendering of integers, the lexicographic string order of `std::string`.
- `Streams`: an `std::ostream` is an object holding the text written so far.
- `Tasks`: a `util::Task` is a status slot written once.
- `Urls`: the parts of a URL the pool and the fetcher read.

Values that the source keeps in ordered containers are modelled as ordered
sequences:

- a `std::map` is a sequence of (key, value) entries in strictly ascending key order;
- a `std::multimap` is a sequence of pairs in non-decreasing name order, and a new pair goes after those with an equal name;
- a `std::set` of metric pointers is a strictly ascending sequence of addresses.

## Model

| member | source | states |
|---|---|---|
| LogRecord.SerializeUint | src/merkletree/LogRecord.cc:9-17 | for `x < 256^bytes`, exactly `bytes` bytes: the big-endian digits of x, most significant first |
| LogRecord.BigEndianLast | src/merkletree/LogRecord.cc:13-15 | the last byte written is the least significant byte, and the bytes before it are x / 256 written one byte narrower |
| LogRecord.DeserializeUint | src/merkletree/LogRecord.cc:19-26 | with each byte read as unsigned, the number the big-endian string denotes; it fits a size_t |
| LogRecord.ValueOfBound | src/merkletree/LogRecord.cc:19-26 | an n-byte string denotes a number below 256^n |
| LogRecord.ValueOfBigEndian | src/merkletree/LogRecord.cc:9-26 | reading back the n bytes written for any x gives x mod 256^n |
| LogRecord.UintRoundTrip | src/merkletree/LogRecord.cc:9-26 | DeserializeUint(SerializeUint(x, n)) == x whenever x < 256^n |
| LogRecord.BigEndianOfValue | src/merkletree/LogRecord.cc:9-26 | the converse: serializing what was read from n bytes gives those n bytes back, so the codec is a bijection |
| LogRecord.ValueOfAsWritten | src/merkletree/LogRecord.cc:24 | the loop as written with signed `char`: each byte is sign-extended and the size_t sum wraps modulo 2^64 |
| LogRecord.SignedCharLengthMismatch | src/merkletree/LogRecord.cc:24 | the two-byte length 384 is written as 0x01 0x80, and reading it as written gives 128 instead of 384 |
| LogRecord.SignedCharTreeSizeWraps | src/merkletree/LogRecord.cc:24 | the sequence number 0x00 0x00 0x00 0xff reads as written as 2^64 - 1, so `tree_size = sequence_number + 1` wraps to 0; read unsigned it is 255 |
| LogRecord.SerializeSigned | src/merkletree/LogRecord.cc:40-46 | 4 + len(sig) bytes: the hash byte, the signature-algorithm byte, a two-byte length that reads back as len(sig), then sig |
| LogRecord.IsValidHashAlgorithmEnum | src/merkletree/LogRecord.cc:28-32 | accepts exactly the seven HashAlgorithm codes 0 to 6 of section 7.4.1.4.1 of RFC 5246 |
| LogRecord.IsValidSignatureAlgorithmEnum | src/merkletree/LogRecord.cc:34-38 | accepts exactly the four SignatureAlgorithm codes 0 to 3 of the same section |
| LogRecord.ReadSigned | src/merkletree/LogRecord.cc:48-63 | consumes 0 bytes exactly when the input is under 4 bytes, the hash enum is over 6, the signature enum is over 3, or the declared length runs past the data; in that case the fields are untouched; otherwise it consumes 4 + len(sig) bytes, which are the serialization of the new valid fields |
| LogRecord.ReadSignedPrefix | src/merkletree/LogRecord.cc:48-63 | ReadFromString reads exactly one serialized record off the front of its input, whatever follows it |
| LogRecord.DeserializeSigned | src/merkletree/LogRecord.cc:65-69 | success means the fields are valid and the input is exactly their serialization |
| LogRecord.SignedRoundTrip | src/merkletree/LogRecord.cc:40-69 | Deserialize(Serialize(d)) succeeds and restores d |
| LogRecord.SignedRejectsTrailing | src/merkletree/LogRecord.cc:65-69 | a serialized record followed by more bytes is rejected, although the fields have been set |
| LogRecord.DigitallySigned.Serialize | src/merkletree/LogRecord.cc:40-46 | the bytes written are SerializeSigned of the object's fields |
| LogRecord.DigitallySigned.ReadFromString | src/merkletree/LogRecord.cc:48-63 | the count returned and the new fields are those ReadSigned gives for the old fields |
| LogRecord.DigitallySigned.Deserialize | src/merkletree/LogRecord.cc:65-69 | the verdict and the new fields are those DeserializeSigned gives for the old fields |
| LogRecord.SerializeSegment | src/merkletree/LogRecord.cc:71-78 | a segment checkpoint serializes to 8 + (4 + len(sig)) + 32 bytes |
| LogRecord.SegmentTreeData | src/merkletree/LogRecord.cc:80-87 | 41 bytes: the log-segment tag, the sequence number and segment size reading back as themselves, then the root |
| LogRecord.TreeTypeTag | src/merkletree/LogRecord.cc:80-87 | the tree-type byte is below 2, and 0 exactly for a log-segment tree, so the two tree types are told apart |
| LogRecord.DeserializeSegment | src/merkletree/LogRecord.cc:89-103 | success needs at least 44 bytes and yields a 32-byte root; under 8 bytes it fails with every field untouched |
| LogRecord.SegmentRoundTrip | src/merkletree/LogRecord.cc:71-103 | Deserialize(Serialize(c)) succeeds and restores c |
| LogRecord.SegmentAcceptsOnlySerialized | src/merkletree/LogRecord.cc:89-103 | whatever Deserialize accepts is valid and is exactly the serialization of what it read, so exactly 32 root bytes must follow the signature |
| LogRecord.LogSegmentCheckpoint.Serialize | src/merkletree/LogRecord.cc:71-78 | the bytes written are SerializeSegment of the fields |
| LogRecord.LogSegmentCheckpoint.SerializeTreeData | src/merkletree/LogRecord.cc:80-87 | the bytes written are SegmentTreeData of the fields |
| LogRecord.LogSegmentCheckpoint.Deserialize | src/merkletree/LogRecord.cc:89-103 | the verdict and the new fields are those DeserializeSegment gives for the old fields, including the fields left half-updated on failure |
| LogRecord.SerializeHead | src/merkletree/LogRecord.cc:105-111 | a head checkpoint serializes to 4 + (4 + len(sig)) + 32 bytes |
| LogRecord.HeadTreeData | src/merkletree/LogRecord.cc:113-119 | 37 bytes: the segment-info tag, the sequence number reading back as itself, then the root |
| LogRecord.DeserializeHead | src/merkletree/LogRecord.cc:121-134 | success needs at least 40 bytes and yields a 32-byte root; under 4 bytes it fails with every field untouched |
| LogRecord.HeadRoundTrip | src/merkletree/LogRecord.cc:105-134 | Deserialize(Serialize(c)) succeeds and restores c |
| LogRecord.HeadAcceptsOnlySerialized | src/merkletree/LogRecord.cc:121-134 | whatever Deserialize accepts is valid and is exactly the serialization of what it read |
| LogRecord.LogHeadCheckpoint.Serialize | src/merkletree/LogRecord.cc:105-111 | the bytes written are SerializeHead of the fields |
| LogRecord.LogHeadCheckpoint.SerializeTreeData | src/merkletree/LogRecord.cc:113-119 | the bytes written are HeadTreeData of the fields |
| LogRecord.LogHeadCheckpoint.Deserialize | src/merkletree/LogRecord.cc:121-134 | the verdict and the new fields are those DeserializeHead gives for the old fields |
| LogRecord.SerializeInfo | src/merkletree/LogRecord.cc:136-144 | 12 bytes of fixed fields followed by both signatures; the roots are not written |
| LogRecord.DeserializeInfo | src/merkletree/LogRecord.cc:146-160 | the roots are never touched, and once 12 bytes are present the head's sequence number equals the segment's |
| LogRecord.SegmentInfoRoundTrip | src/merkletree/LogRecord.cc:136-160 | deserializing a serialized record succeeds and restores every field it wrote; the roots keep their prior values |
| LogRecord.SegmentData.SerializeSegmentInfo | src/merkletree/LogRecord.cc:136-144 | the bytes written are SerializeInfo of the fields |
| LogRecord.SegmentData.DeserializeSegmentInfo | src/merkletree/LogRecord.cc:146-160 | the verdict and the new fields are those DeserializeInfo gives for the old fields |
| LogRecord.Chunks | src/merkletree/LogRecord.cc:199-205 | a byte string whose length is a multiple of 32 splits into length/32 entries of 32 bytes that concatenate back to it |
| LogRecord.FlattenLength | src/merkletree/LogRecord.cc:168-172 | a path of 32-byte entries is written as 32 bytes per entry |
| LogRecord.ChunksOfFlatten | src/merkletree/LogRecord.cc:168-205 | splitting the written path gives back the path's entries |
| LogRecord.SerializeProof | src/merkletree/LogRecord.cc:162-174 | 12 fixed bytes for a log-segment proof and 8 for a segment-info proof, then 4 + len(sig) bytes, then 32 bytes per path entry |
| LogRecord.ProofFields | src/merkletree/LogRecord.cc:163-166 | the sequence number, the tree size for a log-segment proof only, and the leaf index, each as four big-endian bytes |
| LogRecord.DeserializeProof | src/merkletree/LogRecord.cc:176-206 | the tree type is always set; on success every path entry is 32 bytes, and a segment-info proof's tree size is its sequence number plus one |
| LogRecord.ReadProofFields | src/merkletree/LogRecord.cc:178-194 | succeeds exactly when the fixed fields fit (12 bytes for a log-segment proof, 8 otherwise), sets the tree size of a segment-info proof to the sequence number plus one, and leaves the signature and path alone |
| LogRecord.ReadProofTail | src/merkletree/LogRecord.cc:195-205 | changes only the signature and the path; on success every path entry is 32 bytes |
| LogRecord.FieldsReadBack | src/merkletree/LogRecord.cc:163-194 | the fixed fields Serialize wrote are read back, with a segment-info proof's tree size as its sequence number plus one |
| LogRecord.TailReadBack | src/merkletree/LogRecord.cc:195-205 | after a serialized signature, the rest is accepted exactly when its length is a multiple of 32; it then becomes the path, and otherwise the old path stays |
| LogRecord.ProofRoundTrip | src/merkletree/LogRecord.cc:162-206 | deserializing a serialized proof with its own tree type succeeds and restores it, except that a segment-info proof's tree size comes back as its sequence number plus one |
| LogRecord.SegmentProofRoundTrip | src/merkletree/LogRecord.cc:176-206 | for a log-segment proof, Deserialize inverts Serialize |
| LogRecord.InfoProofRoundTrip | src/merkletree/LogRecord.cc:189-190 | a segment-info proof reads back with tree size equal to its sequence number plus one, and everything else restored |
| LogRecord.ProofRejectsRaggedPath | src/merkletree/LogRecord.cc:199-200 | a proof whose path bytes are not a multiple of 32 is rejected |
| LogRecord.ReadAuditPath | src/merkletree/LogRecord.cc:201-205 | the loop cuts the rest of the input into its 32-byte entries, front to back |
| LogRecord.AppendPath | src/merkletree/LogRecord.cc:168-172 | the loop appends the path's entries in order |
| LogRecord.AuditProof.Serialize | src/merkletree/LogRecord.cc:162-174 | the bytes written are SerializeProof of the fields |
| LogRecord.AuditProof.Deserialize | src/merkletree/LogRecord.cc:176-206 | the verdict and the new fields are those DeserializeProof gives for the old fields |
| LogRecord.AuditProof.ReadFields | src/merkletree/LogRecord.cc:178-194 | the fields up to the signature are updated as ReadProofFields says |
| LogRecord.AuditProof.ReadTail | src/merkletree/LogRecord.cc:195-205 | the signature and path are updated as ReadProofTail says |
| Pool.KeyOf | cpp/net/connection_pool.cc:39 | the key is the URL's host with its port, or port 80 when the URL names none |
| Pool.Take | cpp/net/connection_pool.cc:42-54 | on a missing or empty deque, the new connection is returned and the table is unchanged; otherwise the deque's last element is returned and removed, and every other key is unchanged |
| Pool.Return | cpp/net/connection_pool.cc:64-70 | the connection goes to the back of its own key's deque, and the other keys are unchanged |
| Pool.Newest | cpp/net/connection_pool.cc:86-89 | the last `max` connections of a deque, in order, or all of it when it is no longer |
| Pool.Trimmed | cpp/net/connection_pool.cc:80-91 | every key stays, and each deque becomes its newest `max` connections |
| Pool.GetAfterPut | cpp/net/connection_pool.cc:50-70 | LIFO: a Get right after a Put on the same key returns the connection just put, and every deque is as before the Put |
| Pool.PutAfterGet | cpp/net/connection_pool.cc:36-77 | Get returns a connection to the key it looked up; putting back what a Get on a cached key took restores every deque; a Get on a miss returns the new connection, and putting it back leaves only it in its deque |
| Pool.TrimmedBounded | cpp/net/connection_pool.cc:85-90 | after Cleanup no deque is over the maximum, a deque within it is untouched, and trimming again changes nothing |
| Pool.ConnectionPool.constructor | cpp/net/connection_pool.cc:31-33 | a new pool has no connections and no Cleanup scheduled |
| Pool.ConnectionPool.Get | cpp/net/connection_pool.cc:36-55 | the result and the new table are Take's; a new connection is opened only on a miss; nothing is queued; the run log and an existing resolver are unchanged |
| Pool.ConnectionPool.Put | cpp/net/connection_pool.cc:58-77 | a null connection changes nothing; otherwise the table becomes Return's, and a Cleanup is queued and the flag set exactly when the flag was clear and the deque is now over the maximum, so no second Cleanup is queued while one is pending |
| Pool.ConnectionPool.Cleanup | cpp/net/connection_pool.cc:80-92 | clears the pending flag and leaves the table Trimmed to the maximum, which is non-negative |
| Pool.DropOldest | cpp/net/connection_pool.cc:86-89 | popping from the front until at most `max` are left leaves the newest `max` |
| Basics.DecimalRoundTrip | cpp/net/url_fetcher.cc:123 | `to_string` of a size writes decimal digits that read back as that size |
| Basics.DecimalNoLeadingZero | cpp/net/url_fetcher.cc:123 | the decimal rendering has no leading zero |
| Basics.DecimalInjective | cpp/net/url_fetcher.cc:123 | distinct sizes render differently |
| Basics.StrLessIrreflexive | cpp/net/url_fetcher.cc:90-91 | std::string's operator< is irreflexive |
| Basics.StrLessTransitive | cpp/net/url_fetcher.cc:90-91 | std::string's operator< is transitive |
| Basics.StrLessTotal | cpp/net/url_fetcher.cc:90-91 | two different strings are ordered one way or the other |
| Fetcher.UpperBound | cpp/net/url_fetcher.cc:91 | the multimap places a new pair after every pair whose name is not greater and before the first greater name |
| Fetcher.Insert | cpp/net/url_fetcher.cc:91 | multimap insert adds exactly that one pair, after every pair whose name is not greater and before the first greater one, with the old pairs in their order |
| Fetcher.InsertAtSorted | cpp/net/url_fetcher.cc:191-195 | a pair placed at the upper bound keeps the names in order |
| Fetcher.InsertHasHeader | cpp/net/url_fetcher.cc:90-91 | after an insert a name is present exactly when it was present before or is the inserted name |
| Fetcher.InsertAll | cpp/net/url_fetcher.cc:191-195 | inserting pairs one by one yields exactly the old pairs plus the new ones |
| Fetcher.InsertWithName | cpp/net/url_fetcher.cc:91 | an insert puts the new pair after the pairs already there with its name, and leaves the pairs of every other name as they were |
| Fetcher.InsertAllWithName | cpp/net/url_fetcher.cc:191-195 | inserting pairs one by one keeps the pairs of each name in arrival order |
| Fetcher.VerbToCmdType | cpp/net/url_fetcher.cc:39-55 | each verb maps to the GET, POST, PUT or DELETE method code, the one CmdTypeToVerb reads back as that verb, so the fatal default is never reached |
| Fetcher.VerbToCmdTypeInverse | cpp/net/url_fetcher.cc:39-55 | every verb has a method code, and the mapping and its inverse CmdTypeToVerb, defined on exactly the four codes, invert each other |
| Fetcher.VerbToCmdTypeInjective | cpp/net/url_fetcher.cc:39-55 | distinct verbs map to distinct method codes |
| Fetcher.NormaliseRequest | cpp/net/url_fetcher.cc:85-95 | an empty path becomes "/" and any other path stays; a Host header equal to the URL's host is added only when there is none; nothing else changes |
| Fetcher.NormaliseIdempotent | cpp/net/url_fetcher.cc:85-95 | normalising twice is the same as normalising once |
| Fetcher.OutgoingHeaders | cpp/net/url_fetcher.cc:118-129 | a Content-Length of the body's decimal size comes first exactly when there is a body and the caller gave no Content-Length, followed by every caller header in order |
| Fetcher.OutgoingContentLength | cpp/net/url_fetcher.cc:118-124 | the outgoing list has a Content-Length exactly when there is a body or the caller gave one, and an injected one reads back as the body's length |
| Fetcher.BuildOutgoingHeaders | cpp/net/url_fetcher.cc:118-129 | the header loop builds the list OutgoingHeaders describes |
| Fetcher.Response.ReplaceHeaders | cpp/net/url_fetcher.cc:191-195 | the response's headers become the incoming pairs inserted in arrival order; status and body are untouched |
| Fetcher.ResponseHeadersAreReplyHeaders | cpp/net/url_fetcher.cc:191-195 | the copied headers are exactly the reply's pairs, with none lost or added, and the pairs of each name in the order they arrived |
| Fetcher.State.constructor | cpp/net/url_fetcher.cc:98-111 | the state keeps the normalised request; a protocol other than "http" resolves the task with INVALID_ARGUMENT and the message "UrlFetcher: unsupported protocol: " followed by the protocol; otherwise the task is untouched |
| Fetcher.State.MayBeDestroyed | cpp/net/url_fetcher.cc:62-64 | ~State's check: a State may be destroyed only while it holds no connection, which RequestDone establishes on every path and MakeRequest when issuing fails |
| Fetcher.State.MakeRequest | cpp/net/url_fetcher.cc:114-160 | the outgoing headers are OutgoingHeaders; the connection is taken from the pool. If issuing fails, it goes back to the pool, `conn_` is empty, the task is INTERNAL, and a Cleanup is queued exactly when Put would queue one for the taken-from table. If attaching a non-empty body fails, the task is INTERNAL and `conn_` is kept. Otherwise the task is still pending. Only the failed issue can queue a Cleanup |
| Fetcher.State.RequestDone | cpp/net/url_fetcher.cc:163-204 | the connection always goes back to the pool first, queueing a Cleanup exactly when none is pending and its deque is now over the maximum. A null reply gives UNKNOWN. A status under 100 is recorded and gives FAILED_PRECONDITION "connection refused". Otherwise the headers are replaced, the body copied and the task is OK |
| Fetcher.ResponseTextLayout | cpp/net/url_fetcher.cc:235-246 | the text starts with the status line and "headers {", then holds exactly the header lines, and the body sits between "}\nbody: <<EOF\n" and "EOF\n" |
| Fetcher.WriteResponse | cpp/net/url_fetcher.cc:235-246 | operator<< appends ResponseText for the response's status, headers and body |
| Fetcher.WriteHeaderLines | cpp/net/url_fetcher.cc:238-240 | one "  name: value" line per header, in order |
| LibEvent.Runs | cpp/util/libevent_wrapper.cc:284-286 | a batch's runs are its closures in order, each seeing the thread's flag |
| LibEvent.SpawnedNothing | cpp/util/libevent_wrapper.cc:275-287 | a batch whose closures queue nothing leaves the queue empty |
| LibEvent.ThreadState.constructor | cpp/util/libevent_wrapper.cc:64 | a thread starts off the event thread |
| LibEvent.Base.constructor | cpp/util/libevent_wrapper.cc:88-112 | a new Base has an empty queue and already has its resolver |
| LibEvent.Base.Add | cpp/util/libevent_wrapper.cc:131-135 | the closure goes to the back of the queue and nothing else changes |
| LibEvent.Base.Run1 | cpp/util/libevent_wrapper.cc:285 | running one closure records it and appends what it queues |
| LibEvent.Base.RunClosures | cpp/util/libevent_wrapper.cc:275-287 | the whole queue is swapped out and run in the order queued; what the batch queues while it runs is left for the next round |
| LibEvent.Base.Dispatch | cpp/util/libevent_wrapper.cc:171-186 | every closure run while dispatching sees the flag set, and the flag has its old value afterwards |
| LibEvent.Base.DispatchOnce | cpp/util/libevent_wrapper.cc:189-198 | one round runs the queued batch with the flag set, and the flag is restored afterwards |
| LibEvent.Base.GetDns | cpp/util/libevent_wrapper.cc:218-226 | the resolver is created on the first call only, and later calls return that same resolver |
| LibEvent.Base.HttpConnectionNew | cpp/util/libevent_wrapper.cc:229-233 | opens one new connection through the Base's single resolver |
| LibEvent.SplitDuration | cpp/util/libevent_wrapper.cc:162-165 | seconds times 10^6 plus microseconds is the duration; the microseconds are under a second, with the duration's sign |
| LibEvent.SplitDurationUnique | cpp/util/libevent_wrapper.cc:162-165 | for a non-negative duration this is the only split whose microseconds are in [0, 10^6) |
| LibEvent.EventTimeout | cpp/util/libevent_wrapper.cc:301-313 | no timeval exactly for a zero timeout; otherwise a split that adds up to the timeout |
| LibEvent.Timer.Fire | cpp/util/libevent_wrapper.cc:59-61 | a fired delay resolves its task OK |
| LibEvent.Timer.Cancel | cpp/util/libevent_wrapper.cc:53-56 | a cancelled delay removes the timer and resolves its task CANCELLED |
| LibEvent.Delay | cpp/util/libevent_wrapper.cc:138-168 | a delay of zero or less resolves the task OK at once and creates no timer; otherwise a pending timer is created for the task with the split delay, whose microseconds are in [0, 10^6) |
| LibEvent.Event.Add | cpp/util/libevent_wrapper.cc:301-313 | the event is added with EventTimeout of the timeout |
| Gauges.LabelLessIrreflexive | cpp/monitoring/gcm/gauge.h:43 | label order is irreflexive |
| Gauges.LabelLessTransitive | cpp/monitoring/gcm/gauge.h:43 | label order is transitive |
| Gauges.LabelLessTotal | cpp/monitoring/gcm/gauge.h:43 | label order is total |
| Gauges.TupleLessIrreflexive | cpp/monitoring/gcm/gauge.h:43 | the tuple order of the map keys is irreflexive |
| Gauges.TupleLessTransitive | cpp/monitoring/gcm/gauge.h:43 | the tuple order is transitive |
| Gauges.TupleLessTotal | cpp/monitoring/gcm/gauge.h:43 | the tuple order is total |
| Gauges.Lookup | cpp/monitoring/gcm/gauge.h:162-167 | a tuple that is not a key reads 0 |
| Gauges.LookupAt | cpp/monitoring/gcm/gauge.h:162-167 | in an ordered map, a stored tuple reads its stored value |
| Gauges.Store | cpp/monitoring/gcm/gauge.h:174 | the map after `values_[k] = v`: k joins the keys and no other key does; its order, size and lookups are the Store lemmas below |
| Gauges.StoreSorted | cpp/monitoring/gcm/gauge.h:174 | Set keeps the map in key order |
| Gauges.StoreLength | cpp/monitoring/gcm/gauge.h:174 | Set adds an entry only when the tuple is new |
| Gauges.LookupStore | cpp/monitoring/gcm/gauge.h:159-175 | Get after Set(k, v) reads v on k, and every other tuple reads what it read before |
| Gauges.LabelValues | cpp/monitoring/gcm/gauge.h:52-75 | one string per tuple element, in tuple order |
| Gauges.Join | cpp/monitoring/gcm/gauge.h:148-153 | a single label pair is written without a comma |
| Gauges.JoinLength | cpp/monitoring/gcm/gauge.h:148-153 | n label pairs joined are as long as the pairs together plus n - 1 separators |
| Gauges.JoinAppend | cpp/monitoring/gcm/gauge.h:148-153 | one more pair is written after a comma |
| Gauges.JoinStartsWithFirst | cpp/monitoring/gcm/gauge.h:148-153 | the joined text starts with the first pair itself, so no comma leads |
| Gauges.JoinCommas | cpp/monitoring/gcm/gauge.h:148-153 | n comma-free pairs are joined with exactly n - 1 commas |
| Gauges.LabelPairs | cpp/monitoring/gcm/gauge.h:149 | one "name=value" piece per label, pairing the i-th name with the i-th value |
| Gauges.GaugeTextStep | cpp/monitoring/gcm/gauge.h:144-155 | the text for one more entry is the text so far followed by that entry's line |
| Gauges.GaugeJsonStep | cpp/monitoring/gcm/gauge.h:115-137 | the JSON for one more entry is the JSON so far followed by that entry's block |
| Gauges.JsonBlockPoint | cpp/monitoring/gcm/gauge.h:131-135 | each block starts with its metric head and ends with the point object, whose start and end are both the export timestamp |
| Gauges.Gauge.constructor | cpp/monitoring/gcm/gauge.h:100-106 | a new gauge has its name and label names and no stored values |
| Gauges.Gauge.Get | cpp/monitoring/gcm/gauge.h:159-168 | the stored value for the tuple, or 0 |
| Gauges.Gauge.Set | cpp/monitoring/gcm/gauge.h:171-175 | the map becomes Store of the tuple and value, and stays ordered |
| Gauges.Gauge.ExportText | cpp/monitoring/gcm/gauge.h:141-156 | appends GaugeText: one line per entry, in key order |
| Gauges.Gauge.Export | cpp/monitoring/gcm/gauge.h:109-138 | appends GaugeJson: one block per entry, in key order, all with the same timestamp |
| Gauges.WriteTextLines | cpp/monitoring/gcm/gauge.h:144-155 | the ExportText loop writes each entry's line in order |
| Gauges.WriteJsonBlocks | cpp/monitoring/gcm/gauge.h:115-137 | the Export loop writes each entry's block in order |
| Gauges.WriteTextLine | cpp/monitoring/gcm/gauge.h:145-154 | name, "{", the joined label pairs, "} = ", the value and a newline |
| Gauges.WriteJsonBlock | cpp/monitoring/gcm/gauge.h:116-136 | the metric head, the label members, the closing braces, the point and the block's end |
| Gauges.WriteLabelPairs | cpp/monitoring/gcm/gauge.h:148-153 | writes the "name=value" pairs with a comma after every one but the last |
| Gauges.WriteJsonLabels | cpp/monitoring/gcm/gauge.h:124-127 | one JSON member per label, in order |
| Counters.Counter.constructor | cpp/monitoring/gcm/counter.h:57-64 | a new counter owns a fresh gauge with no stored values |
| Counters.Counter.IncrementBy | cpp/monitoring/gcm/counter.h:87-92 | the gauge's map becomes Set of the tuple to Get of the tuple plus the amount |
| Counters.Counter.Increment | cpp/monitoring/gcm/counter.h:81-84 | the same as IncrementBy with 1 |
| Counters.Counter.Get | cpp/monitoring/gcm/counter.h:95-99 | the gauge's value for the tuple |
| Counters.Counter.ExportText | cpp/monitoring/gcm/counter.h:74-78 | exactly the gauge's text |
| Counters.Counter.Export | cpp/monitoring/gcm/counter.h:67-71 | exactly the gauge's JSON |
| Counters.IncreasedLookup | cpp/monitoring/gcm/counter.h:87-92 | an IncrementBy adds the amount to its own tuple, leaves every other tuple alone, and keeps the map ordered |
| Counters.BumpedSorted | cpp/monitoring/gcm/counter.h:81-92 | any number of Increments keeps the map ordered |
| Counters.BumpedLookup | cpp/monitoring/gcm/counter.h:81-92 | after k Increments of one tuple, it reads k more than before and every other tuple is unchanged |
| Counters.FreshTupleCount | cpp/monitoring/gcm/counter.h:81-99 | after k Increments of a tuple never set (any tuple of a fresh counter), Get reads k |
| Registries.InsertElements | cpp/monitoring/registry.cc:17-20 | AddMetric adds exactly that metric to the set |
| Registries.InsertAscending | cpp/monitoring/registry.h:41 | the set stays in ascending order without duplicates |
| Registries.InsertPresent | cpp/monitoring/registry.cc:17-20 | adding a metric already registered changes nothing, so it is kept once |
| Registries.ExportedTextAppend | cpp/monitoring/registry.cc:36-41 | the export text for one more metric is the text so far followed by that metric's own output |
| Registries.RowColour | cpp/monitoring/registry.cc:51-55 | row i is "eeffee" when i is even and "bbffbb" when it is odd |
| Registries.RowColoursAlternate | cpp/monitoring/registry.cc:51-55 | the first row is "eeffee" and consecutive rows differ |
| Registries.RowsStep | cpp/monitoring/registry.cc:52-58 | one more metric adds one row, coloured by its position |
| Registries.HtmlLayout | cpp/monitoring/registry.cc:44-62 | the page starts with the html/body/h1/table header and ends with the matching footer; removing the last metric removes exactly its row |
| Registries.Registry.constructor | cpp/monitoring/registry.h:38 | a new registry is empty |
| Registries.Registry.AddMetric | cpp/monitoring/registry.cc:17-20 | the set gains exactly the metric and stays ordered |
| Registries.Registry.ResetForTestingOnly | cpp/monitoring/registry.cc:23-26 | the set is empty |
| Registries.Registry.GetMetrics | cpp/monitoring/registry.cc:29-33 | a value copy equal to the current set |
| Registries.Registry.Export | cpp/monitoring/registry.cc:36-41 | appends each metric's Export output once, in set order |
| Registries.Registry.ExportHTML | cpp/monitoring/registry.cc:44-62 | appends the header, one row per metric in set order, then the footer |
| Registries.WriteRows | cpp/monitoring/registry.cc:51-58 | the row loop, whose bg_flip flag is true exactly on odd rows, writes Rows |
| Registries.WriteRow | cpp/monitoring/registry.cc:53-57 | one row: the opening cell in the colour bg_flip selects, the metric's text, and the closing cell |
| Registries.Process.Instance | cpp/monitoring/registry.cc:11-14 | the registry is created on the first call and is the same object on every later call |
| Registries.InstanceTwice | cpp/monitoring/registry.cc:11-14 | two calls of Instance return the same registry |

## Left out

- Mutexes and locks: every operation is modelled as atomic and sequential.
- Integer width: sizes and counters are unbounded naturals. `DeserializeUint`'s result is proved to fit a size_t. Under the unsigned reading (see "## Findings") a four-byte sequence number is below 2^32, so `tree_size = sequence_number + 1` cannot wrap. As written with signed `char`, 0x00 0x00 0x00 0xff reads as 2^64 - 1 and the sum wraps to 0 (`LogRecord.SignedCharTreeSizeWraps`).
- LogRecord.SerializeUint: admits widths up to 4, not up to 8. `0xff << ((bytes - 1) * 8)` shifts a 32-bit `int`, which is undefined from 5 bytes on. The codec uses only widths 1, 2 and 4.
- LogRecord.DeserializeUint: requires at most 8 bytes. This is the source's own assertion, and every caller passes 2 or 4.
- `LogRecord.h` is not part of this model. The tree-type tags are taken as `LOG_SEGMENT_TREE` = 0 and `SEGMENT_INFO_TREE` = 1, in declaration order.
- Strings: a `std::string` is a byte string, and the model's `string` is a sequence of characters, each taken to stand for one byte. Under that convention `StrLess` is `std::string`'s `operator<`, which compares bytes as unsigned values, and the injected `Content-Length` is the body's byte count. Multi-byte encodings are not modelled.
- `url_fetcher.h` and `url.h` are not part of this model. Headers are taken to be a `std::multimap<string, string>`, and URL parsing and `PathQuery` are left out.
- The libevent, evhtp, evdns and OpenSSL calls themselves are left out: the wire exchange, buffers, signal handlers, `HttpServer`, `HttpsConnectionNew`, `EventPumpThread`, `LoopExit`, `EventNew` and the try-lock in `Dispatch`.
  - evhtp's outcome enters `MakeRequest` as the parameters `issueFails` and `attachFails`.
  - The reply enters `RequestDone` as an optional value.
  - A closure's effect on the Base is the list of closures it queues, given as the parameter `spawns`.
  - `Dispatch` runs a given number of rounds.
- The task framework's internals are left out: `TaskHold`, `DeleteWhenDone`, `WhenCancelled` and `CleanupWhenDone`. So is the lifetime interplay in `UrlFetcher::Fetch`, which is ownership and threading. A task is a status slot written once.
- Floating point is left out. Gauge and counter values are integers, and durations are whole microseconds.
- `RFC3339Time` is left out, because it reads the clock. `Export`'s timestamp is a parameter.
- Metrics other than the GCM gauge and counter are left out. A registered metric is its address, and the text its `Export` and `ExportText` write is a parameter.
- Registries.Registry.GetMetrics: returns the ordered sequence by value. Later changes cannot reach the copy, but that is a consequence of value semantics rather than a separate proof.
- Where the design description of the fetcher and the code disagree, the model follows the code:
  - The description has the pool track connection liveness and drop dead connections in `Put`. The code has no liveness flag, so `RequestDone` puts the connection back before it looks at the reply. That includes a null reply and a status under 100, which the description says is not pooled again.
  - The description has `MakeRequest` reject an unsupported protocol. The code does this in `State`'s constructor, and so does the model.

## Findings

| source | as written | input that shows it | evidently intended | confidence | as-written member | corrected member |
|---|---|---|---|---|---|---|
| src/merkletree/LogRecord.cc:24 | `res = (res << 8) + in[i]` adds a `char`. Where `char` is signed, a byte of 0x80 or more is sign-extended, and the size_t sum wraps. | The signature length 384, which Serialize writes as the bytes 0x01 0x80, reads back as 128. ReadFromString then takes a 128-byte signature, and Deserialize(Serialize(d)) fails. Likewise the sequence number 0x00 0x00 0x00 0xff reads as 2^64 - 1, and an audit proof's `tree_size = sequence_number + 1` wraps to 0. | Each byte is read as unsigned (`(unsigned char)in[i]`), so DeserializeUint inverts SerializeUint. | not executed | LogRecord.SignedCharLengthMismatch | LogRecord.UintRoundTrip |
